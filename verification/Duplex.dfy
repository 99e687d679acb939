/** Two deterministic endpoints over a pair of relay links, one for each direction, under any
    schedule (src/transport/relay.rs `RelayChannel`, `io_task`). An endpoint is known by what it
    has sent once it has read given frames, and by whether it still reads. */
module Duplex {
  import opened Bytes
  import opened Codec
  import opened RelayLink

  datatype Process = Process(out: seq<bytes> -> seq<bytes>, wants: seq<bytes> -> bool)

  /** `down` carries frames from the first endpoint to the second, `up` the other way. */
  datatype World = World(down: Link, up: Link)

  const START := World(INITIAL, INITIAL)

  datatype WorldStep = SendA | SendB | Down(step: Step) | Up(step: Step)

  /** An application sends everything it has to say before it reads the next frame. */
  predicate MayReceive(p: Process, inward: Link, outward: Link) {
    |outward.submitted| >= |p.out(inward.received)| && p.wants(inward.received)
  }

  predicate CanSend(p: Process, inward: Link, outward: Link) {
    && |outward.submitted| < |p.out(inward.received)|
    && Enabled(outward, Submit(p.out(inward.received)[|outward.submitted|]))
  }

  /** One io task serves an endpoint's two directions: it writes nothing and reads no ack while it
      hands a payload's frames over, and it reads nothing while packed frames wait to be written.
      `mine` is the link that moves, `back` the other direction. */
  predicate TaskAllows(step: Step, mine: Link, back: Link) {
    match step
    case Take | Flush => !back.mid
    case AckArrive => !back.mid && mine.pending == []
    case Arrive => back.pending == []
    case _ => true
  }

  predicate WorldEnabled(a: Process, b: Process, w: World, s: WorldStep) {
    match s
    case SendA => CanSend(a, w.up, w.down)
    case SendB => CanSend(b, w.down, w.up)
    case Down(step) =>
      !step.Submit? && Enabled(w.down, step) && TaskAllows(step, w.down, w.up) && (step.Receive? ==> MayReceive(b, w.down, w.up))
    case Up(step) =>
      !step.Submit? && Enabled(w.up, step) && TaskAllows(step, w.up, w.down) && (step.Receive? ==> MayReceive(a, w.up, w.down))
  }

  function WorldNext(a: Process, b: Process, w: World, s: WorldStep): World {
    if !WorldEnabled(a, b, w, s) then w
    else
      match s
      case SendA => w.(down := Next(w.down, Submit(a.out(w.up.received)[|w.down.submitted|])))
      case SendB => w.(up := Next(w.up, Submit(b.out(w.down.received)[|w.up.submitted|])))
      case Down(step) => w.(down := Next(w.down, step))
      case Up(step) => w.(up := Next(w.up, step))
  }

  function WorldRun(a: Process, b: Process, w: World, steps: seq<WorldStep>): World
    decreases |steps|
  {
    if steps == [] then w else WorldRun(a, b, WorldNext(a, b, w, steps[0]), steps[1..])
  }

  /** `said` and `heard` are complete transcripts of one endpoint: reading a prefix of `heard` it
      has said a prefix of `said`, more as it reads more, and it reads until `heard` is over. */
  ghost predicate Plays(p: Process, said: seq<bytes>, heard: seq<bytes>) {
    && (forall k :: 0 <= k <= |heard| ==> p.out(heard[..k]) <= said)
    && (forall j, k :: 0 <= j <= k <= |heard| ==> p.out(heard[..j]) <= p.out(heard[..k]))
    && (forall k :: 0 <= k < |heard| ==> p.wants(heard[..k]))
  }

  /** One direction, while its sender has read `heard`: a sound link whose traffic is the script. */
  ghost predicate OnScript(p: Process, l: Link, said: seq<bytes>, read: seq<bytes>) {
    && Inv(l)
    && l.submitted <= said
    && l.submitted <= p.out(read)
  }

  ghost predicate WorldInv(a: Process, b: Process, ia: seq<bytes>, ib: seq<bytes>, w: World) {
    && OnScript(a, w.down, ia, w.up.received)
    && OnScript(b, w.up, ib, w.down.received)
  }

  /** What an endpoint has read is a prefix of what its peer is to say. */
  lemma ReadIsPrefix(p: Process, l: Link, said: seq<bytes>, read: seq<bytes>)
    requires OnScript(p, l, said, read)
    ensures l.received <= said && l.received == said[..|l.received|]
    ensures l.inq != [] ==> |l.received| < |said| && l.received + [l.inq[0]] == said[..|l.received| + 1]
  {
    hide Inv;
    assert Flow(l) by { InvParts(l); }
    Delivery(l);
    if l.inq != [] {
      assert l.received + l.inq + Ahead(l) == l.submitted;
      assert l.submitted[..|l.received| + 1] == l.received + [l.inq[0]];
    }
  }

  lemma InvParts(l: Link)
    requires Inv(l)
    ensures Flow(l) && Counters(l) && Window(l)
  {
  }

  lemma SendKeeps(p: Process, l: Link, said: seq<bytes>, read: seq<bytes>)
    requires OnScript(p, l, said, read) && p.out(read) <= said
    requires |l.submitted| < |p.out(read)| && Enabled(l, Submit(p.out(read)[|l.submitted|]))
    ensures OnScript(p, Next(l, Submit(p.out(read)[|l.submitted|])), said, read)
  {
    hide Inv, Pack, Debatch;
    var f := p.out(read)[|l.submitted|];
    StepKeepsInv(l, Submit(f));
    assert said[|l.submitted|] == f;
    assert l.submitted + [f] <= said;
  }

  lemma MoveKeeps(p: Process, l: Link, said: seq<bytes>, read: seq<bytes>, step: Step)
    requires OnScript(p, l, said, read) && !step.Submit?
    ensures OnScript(p, Next(l, step), said, read)
  {
    hide Inv, Pack, Debatch;
    StepKeepsInv(l, step);
  }

  /** Reading one more scripted frame keeps the reader's own direction on script. */
  lemma ReadKeeps(p: Process, l: Link, said: seq<bytes>, heard: seq<bytes>, read: seq<bytes>, more: seq<bytes>)
    requires OnScript(p, l, said, read) && Plays(p, said, heard)
    requires |read| <= |more| <= |heard| && read == heard[..|read|] && more == heard[..|more|]
    ensures OnScript(p, l, said, more)
  {
    hide Inv;
    assert p.out(heard[..|read|]) <= p.out(heard[..|more|]);
  }

  lemma ScriptedOut(p: Process, said: seq<bytes>, heard: seq<bytes>, read: seq<bytes>)
    requires Plays(p, said, heard) && |read| <= |heard| && read == heard[..|read|]
    ensures p.out(read) <= said
  {
  }

  lemma WorldStepKeeps(a: Process, b: Process, ia: seq<bytes>, ib: seq<bytes>, w: World, s: WorldStep)
    requires Plays(a, ia, ib) && Plays(b, ib, ia) && WorldInv(a, b, ia, ib, w)
    ensures WorldInv(a, b, ia, ib, WorldNext(a, b, w, s))
  {
    hide OnScript, Plays, Enabled, MaySend, Pack, Debatch;
    if WorldEnabled(a, b, w, s) {
      ReadIsPrefix(a, w.down, ia, w.up.received);
      ReadIsPrefix(b, w.up, ib, w.down.received);
      match s {
        case SendA =>
          ScriptedOut(a, ia, ib, w.up.received);
          SendKeeps(a, w.down, ia, w.up.received);
        case SendB =>
          ScriptedOut(b, ib, ia, w.down.received);
          SendKeeps(b, w.up, ib, w.down.received);
        case Down(step) =>
          MoveKeeps(a, w.down, ia, w.up.received, step);
          ReceiveOrNot(w.down, step);
          if step.Receive? {
            ReadKeeps(b, w.up, ib, ia, w.down.received, Next(w.down, step).received);
          }
        case Up(step) =>
          MoveKeeps(b, w.up, ib, w.down.received, step);
          ReceiveOrNot(w.up, step);
          if step.Receive? {
            ReadKeeps(a, w.down, ia, ib, w.up.received, Next(w.up, step).received);
          }
      }
    }
  }

  lemma ReceiveOrNot(l: Link, step: Step)
    ensures Next(l, step).received
         == if step.Receive? && Enabled(l, step) then l.received + [l.inq[0]] else l.received
    ensures step.Receive? && Enabled(l, step) ==> l.inq != []
  {
  }

  lemma {:induction false} WorldRunKeeps(a: Process, b: Process, ia: seq<bytes>, ib: seq<bytes>, w: World, steps: seq<WorldStep>)
    requires Plays(a, ia, ib) && Plays(b, ib, ia) && WorldInv(a, b, ia, ib, w)
    ensures WorldInv(a, b, ia, ib, WorldRun(a, b, w, steps))
    decreases |steps|
  {
    hide Plays, WorldInv, WorldNext;
    if steps != [] {
      WorldStepKeeps(a, b, ia, ib, w, steps[0]);
      WorldRunKeeps(a, b, ia, ib, WorldNext(a, b, w, steps[0]), steps[1..]);
    }
  }

  lemma StartInv(a: Process, b: Process, ia: seq<bytes>, ib: seq<bytes>)
    requires Plays(a, ia, ib) && Plays(b, ib, ia)
    ensures WorldInv(a, b, ia, ib, START)
  {
    hide Plays, Inv;
    InvInitial();
    StartReads(a, ia, ib);
    StartReads(b, ib, ia);
  }

  lemma StartReads(p: Process, said: seq<bytes>, heard: seq<bytes>)
    requires Plays(p, said, heard)
    ensures INITIAL.submitted == INITIAL.received == []
    ensures p.out([]) <= said
  {
    assert heard[..0] == [];
  }

  /** Whatever the schedule, and wherever it stops, both endpoints have read prefixes of the
      scripted transcripts and neither direction has broken. */
  lemma AlwaysOnScript(a: Process, b: Process, ia: seq<bytes>, ib: seq<bytes>, steps: seq<WorldStep>)
    requires Plays(a, ia, ib) && Plays(b, ib, ia)
    ensures var w := WorldRun(a, b, START, steps);
            && WorldInv(a, b, ia, ib, w)
            && w.down.received <= ia && w.up.received <= ib
            && !w.down.dead && !w.up.dead
  {
    hide Plays, WorldRun, Inv;
    var w := WorldRun(a, b, START, steps);
    StartInv(a, b, ia, ib);
    WorldRunKeeps(a, b, ia, ib, START, steps);
    InvParts(w.down);
    InvParts(w.up);
    ReadIsPrefix(a, w.down, ia, w.up.received);
    ReadIsPrefix(b, w.up, ib, w.down.received);
  }

  // ---------------------------------------------------------------- no deadlock

  ghost predicate Idle(a: Process, b: Process, w: World) {
    forall s :: !WorldEnabled(a, b, w, s)
  }

  ghost predicate FramesFit(fs: seq<bytes>) {
    forall f :: f in fs ==> |f| <= MAX_LOGICAL_FRAME
  }

  /** A direction none of whose own steps can run is drained, unless its local channel is full. */
  lemma StoppedIsDrained(l: Link)
    requires Inv(l)
    requires !Enabled(l, Take) && !Enabled(l, Flush) && !Enabled(l, Arrive) && !Enabled(l, Hand)
          && !Enabled(l, Settle) && !Enabled(l, AckArrive)
    requires |l.inq| < IN_CAPACITY
    ensures Drained(l)
    ensures l.received + l.inq == l.submitted
    ensures forall f: bytes :: |f| <= MAX_LOGICAL_FRAME ==> Enabled(l, Submit(f))
  {
    InvParts(l);
    forall f: bytes | |f| <= MAX_LOGICAL_FRAME
      ensures Enabled(l, Submit(f))
    {
      DrainedMaySend(l, |f|);
    }
    DrainedMaySend(l, 0);
  }

  lemma FewFramesFit(l: Link, said: seq<bytes>)
    requires Inv(l) && l.submitted <= said && |said| <= IN_CAPACITY
    ensures l.handoff != [] ==> |l.inq| < IN_CAPACITY
    ensures |l.inq| <= IN_CAPACITY
  {
    InvParts(l);
    assert |l.submitted| == |l.received| + |l.inq| + |Ahead(l)|;
  }

  /** While the second endpoint still has something to send, the first has not run so far ahead
      that the second's local channel and io task could be full. */
  ghost predicate NotSwamped(a: Process, b: Process, ia: seq<bytes>, ib: seq<bytes>) {
    forall k, r :: 0 <= k <= |ib| && 0 <= r <= |ia| && k < |b.out(ia[..r])| ==> |a.out(ib[..k])| <= r + IN_CAPACITY
  }

  lemma StoppedTask(l: Link)
    requires Inv(l) && !Enabled(l, Hand) && !Enabled(l, Settle)
    ensures l.mid ==> |l.inq| >= IN_CAPACITY && |l.received| + IN_CAPACITY < |l.submitted|
  {
    InvParts(l);
    assert |l.submitted| == |l.received| + |l.inq| + |Ahead(l)|;
    assert |Ahead(l)| >= |l.handoff|;
  }

  /** Neither io task is stuck handing frames over. */
  lemma StoppedTasks(a: Process, b: Process, ia: seq<bytes>, ib: seq<bytes>, w: World)
    requires Plays(a, ia, ib) && Plays(b, ib, ia) && WorldInv(a, b, ia, ib, w) && NotSwamped(a, b, ia, ib)
    requires Idle(a, b, w) && |ib| < IN_CAPACITY
    ensures !w.up.mid && !w.down.mid
  {
    hide Inv, Enabled, Plays;
    assert !WorldEnabled(a, b, w, Up(Hand)) && !WorldEnabled(a, b, w, Up(Settle));
    assert !WorldEnabled(a, b, w, Down(Hand)) && !WorldEnabled(a, b, w, Down(Settle));
    StoppedTask(w.up);
    StoppedTask(w.down);
    ReadIsPrefix(a, w.down, ia, w.up.received);
    ReadIsPrefix(b, w.up, ib, w.down.received);
    ReceiveEnabled(w.down);
    assert !WorldEnabled(a, b, w, Down(Receive));
    if w.down.mid {
      SwampedReads(a, b, ia, ib, w);
    }
  }

  /** A second endpoint whose local channel is full has nothing to send, so it reads. */
  lemma SwampedReads(a: Process, b: Process, ia: seq<bytes>, ib: seq<bytes>, w: World)
    requires Plays(a, ia, ib) && Plays(b, ib, ia) && WorldInv(a, b, ia, ib, w) && NotSwamped(a, b, ia, ib)
    requires |w.down.received| + IN_CAPACITY < |w.down.submitted|
    ensures MayReceive(b, w.down, w.up)
  {
    hide Inv, Enabled;
    ReadIsPrefix(a, w.down, ia, w.up.received);
    ReadIsPrefix(b, w.up, ib, w.down.received);
    var k, r := |w.up.submitted|, |w.down.received|;
    assert w.up.received == ib[..|w.up.received|] && w.down.received == ia[..r];
    assert |w.up.received| <= k by { InvParts(w.up); Delivery(w.up); }
    assert a.out(ib[..|w.up.received|]) <= a.out(ib[..k]);
    assert r < |ia|;
  }

  lemma StoppedLink(a: Process, b: Process, w: World)
    requires Idle(a, b, w) && !w.up.mid && !w.down.mid && Inv(w.up) && Inv(w.down)
    ensures forall l: Link, s: Step :: (l == w.down || l == w.up) && !s.Submit? && !s.Receive? ==> !Enabled(l, s)
  {
    hide Inv, Flow, MaySend, MayReceive, CanSend;
    InvAlive(w.up);
    InvAlive(w.down);
    forall l: Link, s: Step | (l == w.down || l == w.up) && !s.Submit? && !s.Receive?
      ensures !Enabled(l, s)
    {
      assert !WorldEnabled(a, b, w, Down(Flush)) && !WorldEnabled(a, b, w, Up(Flush));
      assert !WorldEnabled(a, b, w, Down(s)) && !WorldEnabled(a, b, w, Up(s));
    }
  }

  /** The direction with few frames: drained, and its sender has nothing left to say. */
  lemma IdleUp(a: Process, b: Process, ia: seq<bytes>, ib: seq<bytes>, w: World)
    requires Plays(a, ia, ib) && Plays(b, ib, ia) && WorldInv(a, b, ia, ib, w)
    requires Idle(a, b, w) && !w.up.mid && !w.down.mid && |ib| < IN_CAPACITY && FramesFit(ib)
    ensures w.up.received + w.up.inq == w.up.submitted == b.out(w.down.received)
  {
    hide Inv, Enabled, Plays;
    StoppedLink(a, b, w);
    FewFramesFit(w.up, ib);
    InvParts(w.up);
    assert |w.up.inq| <= |w.up.submitted| < IN_CAPACITY;
    StoppedIsDrained(w.up);
    ReadIsPrefix(a, w.down, ia, w.up.received);
    ScriptedOut(b, ib, ia, w.down.received);
    SaysScript(b.out(w.down.received), ib);
    assert !WorldEnabled(a, b, w, SendB);
  }

  /** The other direction, whose reader has nothing left to say and so keeps reading. */
  lemma IdleDown(a: Process, b: Process, ia: seq<bytes>, ib: seq<bytes>, w: World)
    requires Plays(a, ia, ib) && Plays(b, ib, ia) && WorldInv(a, b, ia, ib, w)
    requires Idle(a, b, w) && !w.up.mid && !w.down.mid && FramesFit(ia)
    requires w.up.submitted == b.out(w.down.received)
    ensures w.down.received == w.down.submitted == a.out(w.up.received)
  {
    hide Inv, Plays, Enabled, Flow, Counters, Window;
    StoppedLink(a, b, w);
    ReceiveEnabled(w.down);
    ReadIsPrefix(a, w.down, ia, w.up.received);
    ReadIsPrefix(b, w.up, ib, w.down.received);
    assert w.down.inq == [] by {
      if w.down.inq != [] {
        StillWants(b, ib, ia, w.down.received);
      }
      assert !WorldEnabled(a, b, w, Down(Receive));
    }
    StoppedIsDrained(w.down);
    ScriptedOut(a, ia, ib, w.up.received);
    SaysScript(a.out(w.up.received), ia);
    assert !WorldEnabled(a, b, w, SendA);
  }

  lemma SaysScript(out: seq<bytes>, said: seq<bytes>)
    requires out <= said && FramesFit(said)
    ensures FramesFit(out)
  {
  }

  lemma ReceiveEnabled(l: Link)
    requires Inv(l)
    ensures Enabled(l, Receive) <==> l.inq != []
  {
    hide Continues, DecodeFlight;
  }

  lemma StillWants(p: Process, said: seq<bytes>, heard: seq<bytes>, read: seq<bytes>)
    requires Plays(p, said, heard) && |read| < |heard| && read == heard[..|read|]
    ensures p.wants(read)
  {
  }

  /** No deadlock: when nothing can move any more, everything either side had to say has been said
      and read. `ib` is short enough for the local channel, as the receiver's side always is. */
  lemma IdleIsFinished(a: Process, b: Process, ia: seq<bytes>, ib: seq<bytes>, w: World)
    requires Plays(a, ia, ib) && Plays(b, ib, ia) && WorldInv(a, b, ia, ib, w)
    requires Idle(a, b, w) && |ib| < IN_CAPACITY && FramesFit(ia) && FramesFit(ib) && NotSwamped(a, b, ia, ib)
    ensures w.down.received == w.down.submitted == a.out(w.up.received)
    ensures w.up.received == w.up.submitted == b.out(w.down.received)
  {
    hide Inv, Plays;
    StoppedTasks(a, b, ia, ib, w);
    IdleUp(a, b, ia, ib, w);
    IdleDown(a, b, ia, ib, w);
    ReadIsPrefix(b, w.up, ib, w.down.received);
    assert w.up.inq == [] by {
      if w.up.inq != [] {
        StillWants(a, ia, ib, w.up.received);
      }
      ReceiveEnabled(w.up);
      assert !WorldEnabled(a, b, w, Up(Receive));
    }
  }

  // ---------------------------------------------------------------- every schedule ends

  function ToSay(ia: seq<bytes>, ib: seq<bytes>, w: World): int {
    |ia| - |w.down.submitted| + |ib| - |w.up.submitted|
  }

  /** Every step that can run lowers what is left: frames to say, then work down, then work up. */
  lemma WorldStepLowers(a: Process, b: Process, ia: seq<bytes>, ib: seq<bytes>, w: World, s: WorldStep)
    requires Plays(a, ia, ib) && Plays(b, ib, ia) && WorldInv(a, b, ia, ib, w)
    requires WorldEnabled(a, b, w, s)
    ensures var w' := WorldNext(a, b, w, s);
            && ToSay(ia, ib, w') >= 0
            && ( || ToSay(ia, ib, w') < ToSay(ia, ib, w)
                 || (ToSay(ia, ib, w') == ToSay(ia, ib, w) && Less(WorkOf(w'.down), WorkOf(w.down)))
                 || (ToSay(ia, ib, w') == ToSay(ia, ib, w) && w'.down == w.down && Less(WorkOf(w'.up), WorkOf(w.up))))
  {
    hide Inv, Plays, WorkOf, Less, Pack, Debatch;
    WorldStepKeeps(a, b, ia, ib, w, s);
    match s {
      case SendA | SendB =>
      case Down(step) =>
        InternalStepLowersWork(w.down, step);
        SubmittedStays(w.down, step);
      case Up(step) =>
        InternalStepLowersWork(w.up, step);
        SubmittedStays(w.up, step);
    }
  }

  lemma SubmittedStays(l: Link, step: Step)
    requires !step.Submit?
    ensures Next(l, step).submitted == l.submitted
  {
  }

  /** So any session that is not cut can be run until nothing moves. */
  lemma {:induction false} RunsOut(a: Process, b: Process, ia: seq<bytes>, ib: seq<bytes>, w: World) returns (steps: seq<WorldStep>)
    requires Plays(a, ia, ib) && Plays(b, ib, ia) && WorldInv(a, b, ia, ib, w)
    ensures Idle(a, b, WorldRun(a, b, w, steps))
    decreases ToSay(ia, ib, w),
              |w.down.outq|, QueueMeasure(w.down.pending), |w.down.payloads|,
              2 * |w.down.handoff| + (if w.down.mid then 1 else 0), |w.down.inq|, |w.down.acks|,
              |w.up.outq|, QueueMeasure(w.up.pending), |w.up.payloads|,
              2 * |w.up.handoff| + (if w.up.mid then 1 else 0), |w.up.inq|, |w.up.acks|
  {
    hide Plays, WorldInv, WorldEnabled, WorldNext;
    steps := [];
    if !Idle(a, b, w) {
      var s :| WorldEnabled(a, b, w, s);
      WorldStepLowers(a, b, ia, ib, w, s);
      WorldStepKeeps(a, b, ia, ib, w, s);
      var rest := RunsOut(a, b, ia, ib, WorldNext(a, b, w, s));
      steps := [s] + rest;
      assert steps[1..] == rest;
    }
  }
}
