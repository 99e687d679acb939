/** Run-length acknowledgements (src/protocol.rs) and the ordered index set behind them. */
module Runs {

  // ---------------------------------------------------------------- an ordered set of indices

  ghost predicate Ascending(s: seq<nat>) {
    forall i, j :: 0 <= i < j < |s| ==> s[i] < s[j]
  }

  predicate IsMin(m: nat, s: set<nat>) {
    m in s && forall x :: x in s ==> m <= x
  }

  lemma {:induction false} MinExists(s: set<nat>)
    requires s != {}
    ensures exists m :: IsMin(m, s)
    decreases |s|
  {
    var x :| x in s;
    var rest := s - {x};
    assert s == rest + {x};
    if rest == {} {
      assert IsMin(x, s);
    } else {
      MinExists(rest);
      var m :| IsMin(m, rest);
      assert IsMin(if x < m then x else m, s);
    }
  }

  function Min(s: set<nat>): (m: nat)
    requires s != {}
    ensures IsMin(m, s)
  {
    MinExists(s);
    var m :| IsMin(m, s);
    m
  }

  /** The set's elements in the order a B-tree set yields them. */
  function Sorted(s: set<nat>): (r: seq<nat>)
    ensures |r| == |s|
    decreases |s|
  {
    if s == {} then [] else [Min(s)] + Sorted(s - {Min(s)})
  }

  lemma {:induction false} SortedExact(s: set<nat>)
    ensures Ascending(Sorted(s))
    ensures forall x: nat :: x in Sorted(s) <==> x in s
    decreases |s|
  {
    if s != {} {
      var m, rest := Min(s), s - {Min(s)};
      SortedExact(rest);
      var tail := Sorted(rest);
      assert forall i :: 0 <= i < |tail| ==> m < tail[i] by {
        forall i | 0 <= i < |tail|
          ensures m < tail[i]
        {
          assert tail[i] in tail && tail[i] in rest;
        }
      }
      forall x: nat
        ensures x in [m] + tail <==> x in s
      {
        assert x in [m] + tail <==> x == m || x in tail;
      }
    }
  }

  function UpTo(n: nat): (s: set<nat>)
    ensures forall i: nat :: i in s <==> i < n
    ensures |s| == n
  {
    if n == 0 then {} else UpTo(n - 1) + {n - 1}
  }

  /** Pigeonhole: `n` distinct indices below `n` are all of them. */
  lemma FullIsEverything(have: set<nat>, n: nat)
    requires forall i :: i in have ==> i < n
    ensures |have| <= n
    ensures |have| == n <==> have == UpTo(n)
  {
    var all := UpTo(n);
    assert have <= all;
    assert |all - have| == |all| - |have|;
    if |have| == n {
      assert all - have == {};
      assert have == all;
    }
  }

  // ---------------------------------------------------------------- runs

  datatype IndexRun = IndexRun(start: nat, len: nat)

  /** Adds one index, extending the last run when it is adjacent. */
  function Extend(runs: seq<IndexRun>, i: nat): seq<IndexRun> {
    if runs != [] && runs[|runs| - 1].start + runs[|runs| - 1].len == i
    then runs[..|runs| - 1] + [IndexRun(runs[|runs| - 1].start, runs[|runs| - 1].len + 1)]
    else runs + [IndexRun(i, 1)]
  }

  function RunsOf(s: seq<nat>): seq<IndexRun> {
    if s == [] then [] else Extend(RunsOf(s[..|s| - 1]), s[|s| - 1])
  }

  method RunsFromSorted(sorted: seq<nat>) returns (runs: seq<IndexRun>)
    ensures runs == RunsOf(sorted)
  {
    runs := [];
    for k := 0 to |sorted|
      invariant runs == RunsOf(sorted[..k])
    {
      var i := sorted[k];
      var last := |runs| - 1;
      assert sorted[..k + 1][..k] == sorted[..k];
      if last >= 0 && runs[last].start + runs[last].len == i {
        runs := runs[last := runs[last].(len := runs[last].len + 1)];
        assert runs == Extend(RunsOf(sorted[..k]), i);
      } else {
        runs := runs + [IndexRun(i, 1)];
      }
    }
    assert sorted[..|sorted|] == sorted;
  }

  predicate Contains(runs: seq<IndexRun>, i: nat) {
    exists k :: 0 <= k < |runs| && In(runs[k], i)
  }

  /** Non-empty runs in order, with a gap between neighbours. */
  predicate Canonical(runs: seq<IndexRun>) {
    && (forall k :: 0 <= k < |runs| ==> runs[k].len > 0)
    && (forall j, k :: 0 <= j < k < |runs| ==> runs[j].start + runs[j].len < runs[k].start)
  }

  function TotalLen(runs: seq<IndexRun>): nat {
    if runs == [] then 0 else TotalLen(runs[..|runs| - 1]) + runs[|runs| - 1].len
  }

  predicate In(run: IndexRun, i: nat) {
    run.start <= i < run.start + run.len
  }

  lemma ExtendContains(runs: seq<IndexRun>, i: nat, x: nat)
    ensures Contains(Extend(runs, i), x) <==> Contains(runs, x) || x == i
  {
    var more := Extend(runs, i);
    var last := |more| - 1;
    if |more| == |runs| {
      assert runs == runs[..last] + [runs[last]];
      ContainsSnoc(runs[..last], runs[last], x);
      ContainsSnoc(runs[..last], more[last], x);
    } else {
      ContainsSnoc(runs, IndexRun(i, 1), x);
    }
  }

  lemma ContainsSnoc(runs: seq<IndexRun>, run: IndexRun, x: nat)
    ensures Contains(runs + [run], x) <==> Contains(runs, x) || In(run, x)
  {
    var all := runs + [run];
    assert In(run, x) ==> In(all[|runs|], x);
    if Contains(runs, x) {
      var k :| 0 <= k < |runs| && In(runs[k], x);
      assert In(all[k], x);
    }
  }

  function End(runs: seq<IndexRun>): nat {
    if runs == [] then 0 else runs[|runs| - 1].start + runs[|runs| - 1].len
  }

  lemma ExtendCanonical(runs: seq<IndexRun>, i: nat)
    requires Canonical(runs) && End(runs) <= i
    ensures Canonical(Extend(runs, i))
    ensures End(Extend(runs, i)) == i + 1
    ensures TotalLen(Extend(runs, i)) == TotalLen(runs) + 1
  {
    hide TotalLen;
    ExtendTotal(runs, i);
    var more := Extend(runs, i);
    var last := |more| - 1;
    forall j, k | 0 <= j < k < |more|
      ensures more[j].start + more[j].len < more[k].start
    {
      assert more[j] == runs[j];
      assert k < last ==> more[k] == runs[k];
      assert |more| != |runs| && j < |runs| - 1 ==> runs[j].start + runs[j].len < runs[|runs| - 1].start;
    }
  }

  lemma ExtendTotal(runs: seq<IndexRun>, i: nat)
    ensures TotalLen(Extend(runs, i)) == TotalLen(runs) + 1
  {
    var more := Extend(runs, i);
    assert more[..|more| - 1] == if |more| == |runs| then runs[..|runs| - 1] else runs;
  }

  lemma {:induction false} RunsMember(s: seq<nat>, x: nat)
    ensures Contains(RunsOf(s), x) <==> x in s
    decreases |s|
  {
    if s != [] {
      var init, i := s[..|s| - 1], s[|s| - 1];
      RunsMember(init, x);
      ExtendContains(RunsOf(init), i, x);
      assert s == init + [i];
    }
  }

  lemma {:induction false} RunsCanonical(s: seq<nat>)
    requires Ascending(s)
    ensures Canonical(RunsOf(s))
    ensures TotalLen(RunsOf(s)) == |s|
    ensures End(RunsOf(s)) == if s == [] then 0 else s[|s| - 1] + 1
    decreases |s|
  {
    if s != [] {
      var init := s[..|s| - 1];
      RunsCanonical(init);
      ExtendCanonical(RunsOf(init), s[|s| - 1]);
    }
  }

  /** The run form of an ascending list is canonical and names exactly the listed indices. */
  lemma RunsExact(s: seq<nat>)
    requires Ascending(s)
    ensures Canonical(RunsOf(s)) && TotalLen(RunsOf(s)) == |s|
    ensures forall i: nat :: Contains(RunsOf(s), i) <==> i in s
  {
    RunsCanonical(s);
    forall i: nat
      ensures Contains(RunsOf(s), i) <==> i in s
    {
      RunsMember(s, i);
    }
  }

  lemma CanonicalFirstIsLeast(runs: seq<IndexRun>, i: nat)
    requires Canonical(runs) && Contains(runs, i)
    ensures runs != [] && runs[0].start <= i
  {
    var k :| 0 <= k < |runs| && In(runs[k], i);
    if k > 0 {
      assert runs[0].start + runs[0].len < runs[k].start;
    }
  }

  lemma GapAfterFirst(runs: seq<IndexRun>)
    requires Canonical(runs) && runs != []
    ensures !Contains(runs, runs[0].start + runs[0].len)
  {
    assert forall k :: 0 < k < |runs| ==> runs[0].start + runs[0].len < runs[k].start;
  }

  lemma SameFirstRun(a: seq<IndexRun>, b: seq<IndexRun>)
    requires Canonical(a) && Canonical(b) && a != [] && b != []
    requires forall i: nat :: Contains(a, i) <==> Contains(b, i)
    ensures a[0] == b[0]
  {
    assert Contains(a, a[0].start) by { assert In(a[0], a[0].start); }
    assert Contains(b, b[0].start) by { assert In(b[0], b[0].start); }
    CanonicalFirstIsLeast(b, a[0].start);
    CanonicalFirstIsLeast(a, b[0].start);
    GapAfterFirst(a);
    GapAfterFirst(b);
    var ea, eb := a[0].start + a[0].len, b[0].start + b[0].len;
    assert In(b[0], ea) <==> ea < eb;
    assert In(a[0], eb) <==> eb < ea;
  }

  lemma TailContains(runs: seq<IndexRun>, i: nat)
    requires Canonical(runs) && runs != []
    ensures Contains(runs[1..], i) <==> Contains(runs, i) && i >= runs[0].start + runs[0].len
  {
    if Contains(runs[1..], i) {
      var k :| 0 <= k < |runs[1..]| && In(runs[1..][k], i);
      assert In(runs[k + 1], i);
      assert runs[0].start + runs[0].len < runs[k + 1].start;
    }
    if Contains(runs, i) && i >= runs[0].start + runs[0].len {
      var k :| 0 <= k < |runs| && In(runs[k], i);
      assert In(runs[1..][k - 1], i);
    }
  }

  /** There is only one canonical run list for a set of indices. */
  lemma {:induction false} CanonicalUnique(a: seq<IndexRun>, b: seq<IndexRun>)
    requires Canonical(a) && Canonical(b)
    requires forall i: nat :: Contains(a, i) <==> Contains(b, i)
    ensures a == b
    decreases |a|
  {
    if a == [] || b == [] {
      if a != [] {
        assert In(a[0], a[0].start);
        assert Contains(a, a[0].start);
      }
      if b != [] {
        assert In(b[0], b[0].start);
        assert Contains(b, b[0].start);
      }
    } else {
      SameFirstRun(a, b);
      forall i: nat
        ensures Contains(a[1..], i) <==> Contains(b[1..], i)
      {
        TailContains(a, i);
        TailContains(b, i);
      }
      CanonicalUnique(a[1..], b[1..]);
      assert a == [a[0]] + a[1..] && b == [b[0]] + b[1..];
    }
  }
}
