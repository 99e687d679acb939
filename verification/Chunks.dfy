/** How a transfer is cut into chunks: the three length formulas of the sender, the stream and
    the store (src/send.rs, src/stream.rs, src/store.rs), and what chunk writes do to a file. */
module Chunks {
  import opened Bytes
  import Runs

  /** Where chunk `i` starts, `i * chunk_size`; by repeated addition, so that the solver only
      meets linear arithmetic (`StartIsProduct`). */
  function Start(i: nat, cs: nat): nat {
    if i == 0 then 0 else Start(i - 1, cs) + cs
  }

  /** Number of chunks, `total_size.div_ceil(chunk_size)`; by repeated subtraction
      (`TotalIsDivCeil`). */
  function TotalChunks(total: nat, cs: nat): nat
    requires cs > 0
    decreases total
  {
    if total == 0 then 0 else if total <= cs then 1 else 1 + TotalChunks(total - cs, cs)
  }

  lemma {:induction false} StartIsProduct(i: nat, cs: nat)
    ensures Start(i, cs) == i * cs
  {
    if i > 0 {
      StartIsProduct(i - 1, cs);
      assert i * cs == (i - 1) * cs + cs;
    }
  }

  lemma {:induction false} DivStep(total: nat, cs: nat)
    requires 0 < cs < total
    ensures total / cs == (total - cs) / cs + 1 && total % cs == (total - cs) % cs
  {
    var q, r := (total - cs) / cs, (total - cs) % cs;
    assert total == (q + 1) * cs + r by {
      assert (q + 1) * cs == q * cs + cs;
    }
    DivUnique(total, cs, q + 1, r);
  }

  lemma DivUnique(n: nat, d: nat, q: nat, r: nat)
    requires d > 0 && n == q * d + r && r < d
    ensures n / d == q && n % d == r
  {
    var k := n / d - q;
    assert k * d == r - n % d by {
      assert n == n / d * d + n % d;
      assert k * d == n / d * d - q * d;
    }
    if k >= 1 {
      MulAtLeast(k, d);
    } else if k <= -1 {
      MulAtLeast(-k, d);
    }
  }

  lemma {:induction false} MulAtLeast(k: int, d: nat)
    requires k >= 1
    ensures k * d >= d
    decreases k
  {
    if k > 1 {
      MulAtLeast(k - 1, d);
      assert k * d == (k - 1) * d + d;
    }
  }

  /** `div_ceil`: the quotient, plus one when there is a remainder. */
  lemma {:induction false} TotalIsDivCeil(total: nat, cs: nat)
    requires cs > 0
    ensures TotalChunks(total, cs) == total / cs + (if total % cs == 0 then 0 else 1)
    decreases total
  {
    if total > cs {
      TotalIsDivCeil(total - cs, cs);
      DivStep(total, cs);
    } else if total == cs {
      DivUnique(total, cs, 1, 0);
    } else if total > 0 {
      DivUnique(total, cs, 0, total);
    }
  }

  /** src/stream.rs `chunk_len`. */
  function ChunkLen(i: nat, total: nat, cs: nat): int {
    if total - Start(i, cs) < cs then total - Start(i, cs) else cs
  }

  /** src/send.rs `read_chunk`: how much is read. */
  function ReadLen(i: nat, total: nat, cs: nat): int {
    if cs <= total - Start(i, cs) then cs else total - Start(i, cs)
  }

  /** src/store.rs `expected_len`. */
  function ExpectedLen(i: nat, total: nat, cs: nat): nat
    requires cs > 0 && i < TotalChunks(total, cs)
  {
    var last := TotalChunks(total, cs) - 1;
    if i < last then cs else (LastChunkStarts(total, cs); total - Start(last, cs))
  }

  lemma {:induction false} LastChunkStarts(total: nat, cs: nat)
    requires cs > 0 && total > 0
    ensures TotalChunks(total, cs) > 0
    ensures Start(TotalChunks(total, cs) - 1, cs) < total <= Start(TotalChunks(total, cs), cs)
    decreases total
  {
    if total > cs {
      LastChunkStarts(total - cs, cs);
    } else {
      assert Start(1, cs) == Start(0, cs) + cs;
    }
  }

  lemma {:induction false} StartMonotone(a: nat, b: nat, cs: nat)
    requires a <= b
    ensures Start(a, cs) <= Start(b, cs)
    ensures a < b ==> Start(a, cs) + cs <= Start(b, cs)
    decreases b
  {
    if a < b {
      StartMonotone(a, b - 1, cs);
    }
  }

  /** Every chunk starts inside the file, ends at the next one's start or at the end of the
      file, and the length formulas agree. */
  lemma ChunkBounds(i: nat, total: nat, cs: nat)
    requires cs > 0 && i < TotalChunks(total, cs)
    ensures Start(i, cs) < total
    ensures 0 < ChunkLen(i, total, cs) <= cs
    ensures Start(i, cs) + ChunkLen(i, total, cs) <= total
    ensures ExpectedLen(i, total, cs) == ReadLen(i, total, cs) == ChunkLen(i, total, cs)
    ensures i + 1 < TotalChunks(total, cs) ==> Start(i, cs) + ChunkLen(i, total, cs) == Start(i + 1, cs)
    ensures i + 1 == TotalChunks(total, cs) ==> Start(i, cs) + ChunkLen(i, total, cs) == total
  {
    var n := TotalChunks(total, cs);
    LastChunkStarts(total, cs);
    StartMonotone(i, n - 1, cs);
    assert Start(i + 1, cs) == Start(i, cs) + cs;
  }

  /** Chunk `i` of a file, as `read_chunk` reads it. */
  function ChunkOf(content: bytes, i: nat, cs: nat): (c: bytes)
    requires cs > 0 && i < TotalChunks(|content|, cs)
    ensures |c| == ChunkLen(i, |content|, cs) == ExpectedLen(i, |content|, cs)
  {
    ChunkBounds(i, |content|, cs);
    content[Start(i, cs)..Start(i, cs) + ChunkLen(i, |content|, cs)]
  }

  function ChunksFrom(content: bytes, i: nat, cs: nat): seq<bytes>
    requires cs > 0 && i <= TotalChunks(|content|, cs)
    decreases TotalChunks(|content|, cs) - i
  {
    if i == TotalChunks(|content|, cs) then [] else [ChunkOf(content, i, cs)] + ChunksFrom(content, i + 1, cs)
  }

  function Flatten(chunks: seq<bytes>): bytes {
    if chunks == [] then [] else chunks[0] + Flatten(chunks[1..])
  }

  lemma ChunkThenRest(content: bytes, i: nat, cs: nat)
    requires cs > 0 && i < TotalChunks(|content|, cs)
    ensures var lo, cut := Start(i, cs), Start(i, cs) + ChunkLen(i, |content|, cs);
            0 <= lo <= cut <= |content| && content[lo..] == ChunkOf(content, i, cs) + content[cut..]
  {
    ChunkBounds(i, |content|, cs);
  }

  /** The chunks tile the file: laid end to end they are the file. */
  lemma {:induction false} ChunksTile(content: bytes, i: nat, cs: nat)
    requires cs > 0 && i < TotalChunks(|content|, cs)
    ensures Start(i, cs) <= |content|
    ensures Flatten(ChunksFrom(content, i, cs)) == content[Start(i, cs)..]
    decreases TotalChunks(|content|, cs) - i
  {
    hide Start, TotalChunks, ChunkLen, ChunkOf;
    ChunkBounds(i, |content|, cs);
    var cut := Start(i, cs) + ChunkLen(i, |content|, cs);
    ChunkThenRest(content, i, cs);
    var all := ChunksFrom(content, i, cs);
    assert all[0] == ChunkOf(content, i, cs) && all[1..] == ChunksFrom(content, i + 1, cs);
    if i + 1 < TotalChunks(|content|, cs) {
      ChunksTile(content, i + 1, cs);
    } else {
      assert content[cut..] == [] && Flatten(all[1..]) == [];
    }
  }

  // ---------------------------------------------------------------- writing chunks in place

  /** A file after `bytes` are written at `off`. */
  function Splice(data: bytes, off: nat, b: bytes): (d: bytes)
    requires off + |b| <= |data|
    ensures |d| == |data|
  {
    data[..off] + b + data[off + |b|..]
  }

  /** A file cut or zero-extended to a length. */
  function SetLen(data: bytes, n: nat): (d: bytes)
    ensures |d| == n
    ensures |data| == n ==> d == data
  {
    if |data| >= n then data[..n] else data + seq(n - |data|, _ => 0)
  }

  /** Distinct chunks do not overlap. */
  lemma ChunksDisjoint(i: nat, j: nat, total: nat, cs: nat)
    requires cs > 0 && i < j < TotalChunks(total, cs)
    ensures Start(i, cs) + ChunkLen(i, total, cs) <= Start(j, cs)
  {
    ChunkBounds(i, total, cs);
    StartMonotone(i, j, cs);
  }

  lemma SpliceChunk(data: bytes, i: nat, b: bytes, cs: nat)
    requires cs > 0 && i < TotalChunks(|data|, cs) && |b| == ChunkLen(i, |data|, cs)
    ensures Start(i, cs) + |b| <= |data|
    ensures ChunkOf(Splice(data, Start(i, cs), b), i, cs) == b
  {
    ChunkBounds(i, |data|, cs);
  }

  lemma SpliceElsewhere(data: bytes, i: nat, j: nat, b: bytes, cs: nat)
    requires cs > 0 && i < TotalChunks(|data|, cs) && j < TotalChunks(|data|, cs) && i != j
    requires |b| <= ChunkLen(i, |data|, cs)
    ensures Start(i, cs) + |b| <= |data|
    ensures ChunkOf(Splice(data, Start(i, cs), b), j, cs) == ChunkOf(data, j, cs)
  {
    ChunkApart(i, j, |data|, cs);
    var d := Splice(data, Start(i, cs), b);
    var lo, hi := Start(j, cs), Start(j, cs) + ChunkLen(j, |data|, cs);
    SpliceOutside(data, Start(i, cs), b, lo, hi);
    ChunkIsSlice(data, j, cs, lo, hi);
    ChunkIsSlice(d, j, cs, lo, hi);
  }

  lemma ChunkIsSlice(data: bytes, i: nat, cs: nat, lo: nat, hi: int)
    requires cs > 0 && i < TotalChunks(|data|, cs)
    requires lo == Start(i, cs) && hi == lo + ChunkLen(i, |data|, cs)
    ensures lo <= hi <= |data|
    ensures ChunkOf(data, i, cs) == data[lo..hi]
  {
    ChunkBounds(i, |data|, cs);
  }

  lemma ChunkApart(i: nat, j: nat, total: nat, cs: nat)
    requires cs > 0 && i < TotalChunks(total, cs) && j < TotalChunks(total, cs) && i != j
    ensures Start(i, cs) + ChunkLen(i, total, cs) <= total
    ensures Start(j, cs) <= Start(j, cs) + ChunkLen(j, total, cs) <= total
    ensures || Start(i, cs) + ChunkLen(i, total, cs) <= Start(j, cs)
            || Start(j, cs) + ChunkLen(j, total, cs) <= Start(i, cs)
  {
    ChunkBounds(i, total, cs);
    ChunkBounds(j, total, cs);
    if i < j {
      ChunksDisjoint(i, j, total, cs);
    } else {
      ChunksDisjoint(j, i, total, cs);
    }
  }

  lemma SpliceOutside(data: bytes, off: nat, b: bytes, lo: nat, hi: nat)
    requires off + |b| <= |data| && lo <= hi <= |data|
    requires hi <= off || off + |b| <= lo
    ensures Splice(data, off, b)[lo..hi] == data[lo..hi]
  {
  }

  lemma SpliceSame(data: bytes, off: nat, b: bytes)
    requires off + |b| <= |data| && data[off..off + |b|] == b
    ensures Splice(data, off, b) == data
  {
    assert data == data[..off] + data[off..off + |b|] + data[off + |b|..];
  }

  /** Writing a part of a chunk that is already there changes nothing. */
  lemma SpliceStaged(data: bytes, i: nat, b: bytes, cs: nat)
    requires cs > 0 && i < TotalChunks(|data|, cs) && b <= ChunkOf(data, i, cs)
    ensures Start(i, cs) + |b| <= |data|
    ensures Splice(data, Start(i, cs), b) == data
  {
    hide Splice, TotalChunks, Start;
    var off := Start(i, cs);
    ChunkBounds(i, |data|, cs);
    ChunkIsSlice(data, i, cs, off, off + ChunkLen(i, |data|, cs));
    assert data[off..off + |b|] == b;
    SpliceSame(data, off, b);
  }

  /** Files of one length that agree on every chunk are the same file. */
  lemma {:induction false} SameChunksSameFrom(a: bytes, b: bytes, i: nat, cs: nat)
    requires cs > 0 && |a| == |b| && i < TotalChunks(|a|, cs)
    requires forall j :: i <= j < TotalChunks(|a|, cs) ==> ChunkOf(a, j, cs) == ChunkOf(b, j, cs)
    ensures Start(i, cs) <= |a| && a[Start(i, cs)..] == b[Start(i, cs)..]
    decreases TotalChunks(|a|, cs) - i
  {
    ChunkBounds(i, |a|, cs);
    var cut := Start(i, cs) + ChunkLen(i, |a|, cs);
    assert a[Start(i, cs)..] == ChunkOf(a, i, cs) + a[cut..];
    assert b[Start(i, cs)..] == ChunkOf(b, i, cs) + b[cut..];
    if i + 1 < TotalChunks(|a|, cs) {
      SameChunksSameFrom(a, b, i + 1, cs);
    } else {
      assert a[cut..] == [] && b[cut..] == [];
    }
  }

  lemma SameChunksSameFile(a: bytes, b: bytes, cs: nat)
    requires cs > 0 && |a| == |b|
    requires forall j :: 0 <= j < TotalChunks(|a|, cs) ==> ChunkOf(a, j, cs) == ChunkOf(b, j, cs)
    ensures a == b
  {
    if |a| > 0 {
      SameChunksSameFrom(a, b, 0, cs);
      assert a[0..] == a && b[0..] == b;
    }
  }
}
