/** One direction of a paired relay connection (src/transport/relay.rs): the byte-counted send
    window of `RelayChannel`, the write-behind queue and the reading half of `io_task`, and the
    relay between them, which keeps payloads and acks in order until the pairing dies. */
module RelayLink {
  import opened Bytes
  import opened Codec

  const ACK_EVERY: nat := 1024 * 1024
  const WINDOW: nat := 8 * 1024 * 1024
  /** Capacity of the channel that hands frames to the local application. */
  const IN_CAPACITY: nat := 64

  // ---------------------------------------------------------------- counters

  function Unacked(sent: nat, acked: nat): nat {
    if sent >= acked then sent - acked else 0
  }

  /** The send guard: the frame fits the window, or the pipe is as drained as it can get. */
  predicate MaySend(sent: nat, acked: nat, len: nat) {
    Unacked(sent, acked) + len <= WINDOW || Unacked(sent, acked) < ACK_EVERY
  }

  predicate AckDue(consumed: nat, ackedOut: nat) {
    consumed >= ackedOut + ACK_EVERY
  }

  // ---------------------------------------------------------------- the two ends as objects

  datatype SendOutcome = Sent | TooLarge | ConnectionLost

  /** The sending application's half. `updates` stands for the values the ack watch will take
      while `Send` is parked; running out of them is the connection dying or the progress
      watchdog firing. */
  class RelayChannel {
    var out: seq<bytes>
    var sent: nat
    var acked: nat

    constructor ()
      ensures out == [] && sent == 0 && acked == 0
    {
      out, sent, acked := [], 0, 0;
    }

    /** A frame is queued at the first ack value that opens the guard, and not before. `open` says
        whether the io task still takes frames then; if not, the bytes are counted and lost. */
    method Send(msg: bytes, updates: seq<nat>, open: bool) returns (r: SendOutcome, used: nat)
      modifies this
      ensures used <= |updates|
      ensures r.TooLarge? <==> |msg| > MAX_LOGICAL_FRAME
      ensures acked == if used == 0 then old(acked) else updates[used - 1]
      ensures r.Sent? <==> |msg| <= MAX_LOGICAL_FRAME && open && MaySend(old(sent), acked, |msg|)
      ensures out == if r.Sent? then old(out) + [msg] else old(out)
      ensures sent == if !r.TooLarge? && MaySend(old(sent), acked, |msg|) then old(sent) + |msg| else old(sent)
      ensures r.TooLarge? ==> used == 0
      ensures used > 0 ==> !MaySend(old(sent), old(acked), |msg|)
      ensures forall k :: 0 <= k < used - 1 ==> !MaySend(old(sent), updates[k], |msg|)
      ensures r.ConnectionLost? && !MaySend(old(sent), acked, |msg|) ==> used == |updates|
    {
      used := 0;
      if |msg| > MAX_LOGICAL_FRAME {
        return TooLarge, 0;
      }
      while !MaySend(sent, acked, |msg|)
        invariant used <= |updates|
        invariant acked == if used == 0 then old(acked) else updates[used - 1]
        invariant used > 0 ==> !MaySend(sent, old(acked), |msg|)
        invariant forall k :: 0 <= k < used - 1 ==> !MaySend(sent, updates[k], |msg|)
        invariant out == old(out) && sent == old(sent)
        decreases |updates| - used
      {
        if used == |updates| {
          return ConnectionLost, used;
        }
        acked := updates[used];
        used := used + 1;
      }
      sent := sent + |msg|;
      if !open {
        return ConnectionLost, used;
      }
      out := out + [msg];
      r := Sent;
    }
  }

  /** What one payload does to the reading half of the io task. */
  datatype Ingested = Ingested(delivered: seq<bytes>, consumed: nat, ackedOut: nat, ack: Option<nat>)

  function Ingest(frames: seq<bytes>, consumed: nat, ackedOut: nat): Ingested {
    var c := consumed + SumLen(frames);
    if AckDue(c, ackedOut) then Ingested(frames, c, c, Some(c)) else Ingested(frames, c, ackedOut, None)
  }

  class IoReader {
    var debatch: Debatcher
    var consumed: nat
    var ackedOut: nat
    var closing: bool

    constructor ()
      ensures fresh(debatch) && debatch.partial == [] && consumed == 0 && ackedOut == 0 && !closing
    {
      debatch := new Debatcher();
      consumed, ackedOut, closing := 0, 0, false;
    }

    /** Handles one binary message; `r.Bad?` ends the connection. The local application takes
        `takes` more frames before it is gone; the first one it does not take is still counted. */
    method OnBinary(payload: bytes, takes: nat) returns (r: Debatched, delivered: seq<bytes>, ack: Option<nat>)
      modifies this, debatch
      ensures debatch == old(debatch)
      ensures r == Debatch(old(debatch.partial), payload) && debatch.partial == r.partial
      ensures r.Ok? && takes >= |r.frames| ==>
                && Ingested(delivered, consumed, ackedOut, ack) == Ingest(r.frames, old(consumed), old(ackedOut))
                && closing == old(closing)
      ensures r.Ok? && takes < |r.frames| ==>
                && Ingested(delivered + [r.frames[takes]], consumed, ackedOut, ack)
                   == Ingest(r.frames[..takes + 1], old(consumed), old(ackedOut))
                && closing
      ensures r.Bad? ==> delivered == [] && ack.None? && consumed == old(consumed) && ackedOut == old(ackedOut)
                         && closing == old(closing)
    {
      hide Debatch;
      delivered, ack := [], None;
      r := debatch.Push(payload);
      if r.Bad? {
        return;
      }
      ghost var counted := [];
      var i := 0;
      while i < |r.frames|
        invariant 0 <= i <= |r.frames| && i <= takes
        invariant delivered == r.frames[..i] == counted
        invariant consumed == old(consumed) + SumLen(counted)
        invariant ackedOut == old(ackedOut) && closing == old(closing)
        invariant debatch == old(debatch) && debatch.partial == r.partial
      {
        SumLenConcat(counted, [r.frames[i]]);
        consumed := consumed + |r.frames[i]|;
        counted := counted + [r.frames[i]];
        assert counted == r.frames[..i + 1];
        if i == takes {
          closing := true;
          break;
        }
        delivered := delivered + [r.frames[i]];
        i := i + 1;
      }
      assert i == |r.frames| ==> delivered == r.frames;
      if AckDue(consumed, ackedOut) {
        ackedOut := consumed;
        ack := Some(consumed);
      }
    }
  }

  // ---------------------------------------------------------------- the direction as a state machine

  /** `submitted` and `received` are the histories at the two applications. */
  datatype Link = Link(
    submitted: seq<bytes>, outq: seq<bytes>, pending: seq<bytes>, sent: nat, acked: nat,
    payloads: seq<bytes>, acks: seq<nat>,
    partial: bytes, handoff: seq<bytes>, mid: bool, inq: seq<bytes>, received: seq<bytes>,
    consumed: nat, ackedOut: nat, dead: bool)

  const INITIAL := Link([], [], [], 0, 0, [], [], [], [], false, [], [], 0, 0, false)

  datatype Step =
    | Submit(frame: bytes)  // the application's send, once its guard is open
    | Take                  // the io task picks the next queued frame up
    | Flush                 // one packed payload goes to the relay
    | Arrive                // one payload reaches the reader, which reassembles it
    | Hand                  // one reassembled frame enters the local channel
    | Settle                // the payload is done: acknowledge if the threshold is met
    | Receive               // the application takes a frame
    | AckArrive             // one ack reaches the sender

  predicate Enabled(l: Link, step: Step) {
    && !l.dead
    && match step
       case Submit(f) => |f| <= MAX_LOGICAL_FRAME && MaySend(l.sent, l.acked, |f|)
       case Take => l.outq != []
       case Flush => l.pending != []
       case Arrive => l.payloads != [] && !l.mid
       case Hand => l.handoff != [] && |l.inq| < IN_CAPACITY
       case Settle => l.mid && l.handoff == []
       case Receive => l.inq != []
       case AckArrive => l.acks != []
  }

  /** A disabled step changes nothing, so a schedule is any list of steps. */
  function Next(l: Link, step: Step): Link {
    if !Enabled(l, step) then l
    else
      match step
      case Submit(f) => l.(submitted := l.submitted + [f], outq := l.outq + [f], sent := l.sent + |f|)
      case Take => l.(pending := l.pending + [l.outq[0]], outq := l.outq[1..])
      case Flush =>
        var packed := Pack([], l.pending);
        l.(pending := packed.queue, payloads := l.payloads + [packed.payload])
      case Arrive =>
        (match Debatch(l.partial, l.payloads[0])
         case Ok(frames, partial) =>
           l.(payloads := l.payloads[1..], partial := partial, handoff := frames, mid := true)
         case Bad(_, partial) => l.(partial := partial, dead := true))
      case Hand =>
        l.(handoff := l.handoff[1..], inq := l.inq + [l.handoff[0]], consumed := l.consumed + |l.handoff[0]|)
      case Settle =>
        if AckDue(l.consumed, l.ackedOut)
        then l.(mid := false, ackedOut := l.consumed, acks := l.acks + [l.consumed])
        else l.(mid := false)
      case Receive => l.(inq := l.inq[1..], received := l.received + [l.inq[0]])
      case AckArrive => l.(acks := l.acks[1..], acked := l.acks[0])
  }

  function Run(l: Link, steps: seq<Step>): Link
    decreases |steps|
  {
    if steps == [] then l else Run(Next(l, steps[0]), steps[1..])
  }

  /** What a reader holding `partial` will make of the payloads still in flight. */
  function DecodeFlight(partial: bytes, payloads: seq<bytes>): Debatched
    decreases |payloads|
  {
    if payloads == [] then Ok([], partial)
    else
      match Debatch(partial, payloads[0])
      case Ok(frames, rest) => After(frames, DecodeFlight(rest, payloads[1..]))
      case Bad(e, rest) => Bad(e, rest)
  }

  /** Frames accepted from the sender that the local channel has not seen yet, in order. */
  function Ahead(l: Link): seq<bytes>
    requires DecodeFlight(l.partial, l.payloads).Ok?
  {
    var flight := DecodeFlight(l.partial, l.payloads);
    l.handoff + (flight.frames + Join(flight.partial, l.pending)) + l.outq
  }

  /** No byte is lost, added, or moved: what the receiver has, is being given, and will decode
      is what the sender submitted. */
  ghost predicate Flow(l: Link) {
    && !l.dead
    && DecodeFlight(l.partial, l.payloads).Ok?
    && Continues(DecodeFlight(l.partial, l.payloads).partial, l.pending)
    && (forall f :: f in l.submitted ==> |f| <= MAX_LOGICAL_FRAME)
    && (!l.mid ==> l.handoff == [])
    && l.received + l.inq + Ahead(l) == l.submitted
  }

  ghost predicate Ascending(s: seq<nat>, lo: nat, hi: nat) {
    && (forall i :: 0 <= i < |s| ==> lo <= s[i] <= hi)
    && (forall i, j :: 0 <= i < j < |s| ==> s[i] <= s[j])
  }

  /** acked <= acks in flight <= acked_out <= consumed <= sent, and the newest ack is acked_out. */
  ghost predicate Counters(l: Link) {
    && l.sent == SumLen(l.submitted)
    && l.consumed == SumLen(l.received) + SumLen(l.inq)
    && l.acked <= l.ackedOut <= l.consumed
    && Ascending(l.acks, l.acked, l.ackedOut)
    && l.ackedOut == (if l.acks == [] then l.acked else l.acks[|l.acks| - 1])
    && (!l.mid ==> l.consumed < l.ackedOut + ACK_EVERY)
  }

  ghost predicate Window(l: Link) {
    l.sent <= l.acked + Max(WINDOW, MaxLen(l.submitted) + ACK_EVERY - 1)
  }

  ghost predicate Inv(l: Link) {
    Flow(l) && Counters(l) && Window(l)
  }

  /** The send guard, for any counters: an ack of more than was sent opens it, less than 1 MiB on the way
      opens it, and otherwise the frame must fit 8 MiB past the ack. */
  lemma GuardExactly(sent: nat, acked: nat, len: nat)
    ensures MaySend(sent, acked, len) <==>
              acked >= sent || sent < acked + 1024 * 1024 || sent + len <= acked + 8 * 1024 * 1024
  {
  }

  /** A payload, whatever its bytes, ends the connection exactly if it is not pieces end to end within the
      frame limit; then nothing of it is delivered, and nothing happens any more. */
  lemma BadPayloadEnds(l: Link, steps: seq<Step>)
    requires Enabled(l, Arrive)
    ensures Next(l, Arrive).dead <==> forall parts :: l.payloads[0] == Glued(parts) ==> !Capped(l.partial, parts)
    ensures Next(l, Arrive).dead ==>
              Run(Next(l, Arrive), steps) == l.(partial := Debatch(l.partial, l.payloads[0]).partial, dead := true)
  {
    hide Debatch, Capped, Glued, Pack, MaySend, Run;
    DebatchExactly(l.partial, l.payloads[0]);
    if Next(l, Arrive).dead {
      DeadStays(Next(l, Arrive), steps);
    }
  }

  lemma {:induction false} DeadStays(l: Link, steps: seq<Step>)
    requires l.dead
    ensures Run(l, steps) == l
    decreases |steps|
  {
    if steps != [] {
      DeadStays(l, steps[1..]);
    }
  }

  // ---------------------------------------------------------------- preservation

  lemma {:induction false} DecodeFlightSnoc(partial: bytes, payloads: seq<bytes>, p: bytes)
    requires DecodeFlight(partial, payloads).Ok?
    ensures var before := DecodeFlight(partial, payloads);
            DecodeFlight(partial, payloads + [p]) == After(before.frames, Debatch(before.partial, p))
    decreases |payloads|
  {
    var all := payloads + [p];
    if payloads == [] {
      assert all[1..] == [];
      var r := Debatch(partial, p);
      if r.Ok? {
        assert r.frames + [] == r.frames && [] + r.frames == r.frames;
      }
    } else {
      assert all[0] == payloads[0] && all[1..] == payloads[1..] + [p];
      var head := Debatch(partial, payloads[0]);
      var rest := DecodeFlight(head.partial, payloads[1..]);
      DecodeFlightSnoc(head.partial, payloads[1..], p);
      AfterAfter(head.frames, rest.frames, Debatch(rest.partial, p));
    }
  }

  lemma JoinSnoc(partial: bytes, queue: seq<bytes>, f: bytes)
    requires queue == [] ==> partial == []
    ensures Join(partial, queue + [f]) == Join(partial, queue) + [f]
  {
    if queue == [] {
      assert [] + f == f;
    } else {
      assert (queue + [f])[1..] == queue[1..] + [f];
    }
  }

  lemma FlushKeepsFlow(l: Link)
    requires Flow(l) && Enabled(l, Flush)
    ensures Flow(Next(l, Flush))
  {
    hide Pack, Debatch, Continues, Join;
    var flight := DecodeFlight(l.partial, l.payloads);
    var packed := Pack([], l.pending);
    PackRoundTrip(flight.partial, l.pending);
    DecodeFlightSnoc(l.partial, l.payloads, packed.payload);
    var more := Debatch(flight.partial, packed.payload);
    var l' := Next(l, Flush);
    assert DecodeFlight(l'.partial, l'.payloads) == Ok(flight.frames + more.frames, more.partial);
    assert (flight.frames + more.frames) + Join(more.partial, packed.queue)
        == flight.frames + (more.frames + Join(more.partial, packed.queue));
    assert Ahead(l') == Ahead(l);
  }

  lemma TakeKeepsFlow(l: Link)
    requires Flow(l) && Enabled(l, Take)
    ensures Flow(Next(l, Take))
  {
    hide Debatch, Pack, DecodeFlight, Join, Continues;
    var flight := DecodeFlight(l.partial, l.payloads);
    var f := l.outq[0];
    QueuedFits(l);
    ContinuesSnoc(flight.partial, l.pending, f);
    var l' := Next(l, Take);
    assert l.outq == [f] + l.outq[1..];
    assert Ahead(l') == Ahead(l);
  }

  lemma QueuedFits(l: Link)
    requires Flow(l)
    ensures forall f :: f in l.outq ==> |f| <= MAX_LOGICAL_FRAME
  {
    hide Debatch, Pack, DecodeFlight, Join, Continues;
    assert forall f :: f in l.outq ==> f in Ahead(l);
  }

  lemma ContinuesSnoc(partial: bytes, queue: seq<bytes>, f: bytes)
    requires Continues(partial, queue) && |f| <= MAX_LOGICAL_FRAME
    ensures Continues(partial, queue + [f])
    ensures Join(partial, queue + [f]) == Join(partial, queue) + [f]
  {
    JoinSnoc(partial, queue, f);
  }

  lemma ArriveKeepsFlow(l: Link)
    requires Flow(l) && Enabled(l, Arrive)
    ensures Flow(Next(l, Arrive))
  {
    hide Debatch, Pack, Join, MaySend, Continues;
    var head := Debatch(l.partial, l.payloads[0]);
    var l' := Next(l, Arrive);
    var rest := DecodeFlight(l'.partial, l'.payloads);
    var flight := DecodeFlight(l.partial, l.payloads);
    assert head.Ok? && rest.Ok?;
    assert flight == Ok(head.frames + rest.frames, rest.partial);
    assert l.handoff == [];
    assert Ahead(l') == Ahead(l);
  }

  lemma HandKeepsFlow(l: Link)
    requires Flow(l) && Enabled(l, Hand)
    ensures Flow(Next(l, Hand))
  {
    hide Debatch, Pack, DecodeFlight, Join, Continues, MaySend;
    var l' := Next(l, Hand);
    var f := l.handoff[0];
    assert l.handoff == [f] + l'.handoff;
    assert Ahead(l) == [f] + Ahead(l');
    assert l'.received + l'.inq + Ahead(l') == l.received + l.inq + ([f] + Ahead(l'));
  }

  lemma SubmitKeepsFlow(l: Link, f: bytes)
    requires Flow(l) && Enabled(l, Submit(f))
    ensures Flow(Next(l, Submit(f)))
  {
    hide Debatch, Pack, DecodeFlight, Join, Continues, MaySend;
    assert Ahead(Next(l, Submit(f))) == Ahead(l) + [f];
  }

  lemma StepKeepsFlow(l: Link, step: Step)
    requires Flow(l)
    ensures Flow(Next(l, step))
  {
    hide Flow, Enabled, Next;
    DisabledStays(l, step);
    if Enabled(l, step) {
      match step {
        case Submit(f) => SubmitKeepsFlow(l, f);
        case Take => TakeKeepsFlow(l);
        case Flush => FlushKeepsFlow(l);
        case Arrive => ArriveKeepsFlow(l);
        case Hand => HandKeepsFlow(l);
        case Settle | AckArrive | Receive => QuietKeepsFlow(l, step);
      }
    }
  }

  lemma DisabledStays(l: Link, step: Step)
    ensures !Enabled(l, step) ==> Next(l, step) == l
  {
  }

  lemma QuietKeepsFlow(l: Link, step: Step)
    requires Flow(l) && Enabled(l, step) && (step.Settle? || step.AckArrive? || step.Receive?)
    ensures Flow(Next(l, step))
  {
    hide Debatch, Pack, DecodeFlight, Join, Continues;
    var l' := Next(l, step);
    assert Ahead(l') == Ahead(l);
    if step.Receive? {
      assert l.inq == [l.inq[0]] + l'.inq;
      assert l'.received + l'.inq == l.received + l.inq;
    }
  }

  lemma HandKeepsCounters(l: Link)
    requires Flow(l) && Counters(l) && Enabled(l, Hand)
    ensures Counters(Next(l, Hand))
  {
    SumLenConcat(l.inq, [l.handoff[0]]);
  }

  lemma ReceiveKeepsCounters(l: Link)
    requires Counters(l) && Enabled(l, Receive)
    ensures Counters(Next(l, Receive))
  {
    var f := l.inq[0];
    SumLenConcat(l.received, [f]);
    assert l.received + l.inq == (l.received + [f]) + l.inq[1..];
    assert SumLen([f]) == |f|;
  }

  lemma AckArriveKeepsCounters(l: Link)
    requires Counters(l) && Enabled(l, AckArrive)
    ensures Counters(Next(l, AckArrive))
  {
    var l' := Next(l, AckArrive);
    forall i | 0 <= i < |l'.acks|
      ensures l'.acked <= l'.acks[i] <= l'.ackedOut
    {
      assert l'.acks[i] == l.acks[i + 1];
    }
    forall i, j | 0 <= i < j < |l'.acks|
      ensures l'.acks[i] <= l'.acks[j]
    {
      assert l'.acks[i] == l.acks[i + 1] && l'.acks[j] == l.acks[j + 1];
    }
  }

  lemma SubmitKeepsCounters(l: Link, f: bytes)
    requires Counters(l) && Enabled(l, Submit(f))
    ensures Counters(Next(l, Submit(f)))
  {
    SumLenConcat(l.submitted, [f]);
    assert SumLen([f]) == |f|;
    hide SumLen, MaySend;
  }

  /** An ack carries the newest value, so the acks in flight stay in order. */
  lemma SettleKeepsCounters(l: Link)
    requires Counters(l) && Enabled(l, Settle)
    ensures Counters(Next(l, Settle))
  {
    hide SumLen;
  }

  lemma ArriveKeepsCounters(l: Link)
    requires Flow(l) && Counters(l) && Enabled(l, Arrive)
    ensures Counters(Next(l, Arrive))
  {
    hide Continues, Debatch, Join, SumLen;
    assert Debatch(l.partial, l.payloads[0]).Ok?;
    hide Flow, DecodeFlight;
  }

  lemma QuietKeepsCounters(l: Link, step: Step)
    requires Counters(l) && Enabled(l, step) && (step.Take? || step.Flush?)
    ensures Counters(Next(l, step))
  {
    hide Pack, SumLen;
  }

  lemma StepKeepsCounters(l: Link, step: Step)
    requires Flow(l) && Counters(l)
    ensures Counters(Next(l, step))
  {
    hide Flow, Counters, Enabled, Next;
    DisabledStays(l, step);
    if Enabled(l, step) {
      match step {
        case Submit(f) => SubmitKeepsCounters(l, f);
        case Hand => HandKeepsCounters(l);
        case Receive => ReceiveKeepsCounters(l);
        case AckArrive => AckArriveKeepsCounters(l);
        case Settle => SettleKeepsCounters(l);
        case Take | Flush => QuietKeepsCounters(l, step);
        case Arrive => ArriveKeepsCounters(l);
      }
    }
  }

  lemma StepKeepsWindow(l: Link, step: Step)
    requires Counters(l) && Window(l)
    ensures Window(Next(l, step))
  {
    hide Debatch, Pack, SumLen;
    if Enabled(l, step) {
      match step {
        case Submit(f) => MaxLenConcat(l.submitted, [f]);
        case AckArrive => assert l.acked <= l.acks[0];
        case Take | Flush | Arrive | Hand | Settle | Receive =>
      }
    }
  }

  lemma StepKeepsInv(l: Link, step: Step)
    requires Inv(l)
    ensures Inv(Next(l, step))
  {
    StepKeepsFlow(l, step);
    StepKeepsCounters(l, step);
    StepKeepsWindow(l, step);
  }

  lemma {:induction false} RunKeepsInv(l: Link, steps: seq<Step>)
    requires Inv(l)
    ensures Inv(Run(l, steps))
    decreases |steps|
  {
    if steps != [] {
      StepKeepsInv(l, steps[0]);
      RunKeepsInv(Next(l, steps[0]), steps[1..]);
    }
  }

  // ---------------------------------------------------------------- main results

  /** Consumed bytes are a part of the sent bytes. */
  lemma ConsumedWithinSent(l: Link)
    requires Inv(l)
    ensures l.sent == l.consumed + SumLen(Ahead(l))
    ensures l.acked <= l.ackedOut <= l.consumed <= l.sent
  {
    SumLenConcat(l.received, l.inq);
    SumLenConcat(l.received + l.inq, Ahead(l));
  }

  lemma InvInitial()
    ensures Inv(INITIAL)
  {
    assert Ahead(INITIAL) == [];
  }

  lemma Delivery(l: Link)
    requires Flow(l)
    ensures l.received <= l.submitted
  {
    assert l.received + (l.inq + Ahead(l)) == l.submitted;
  }

  ghost predicate Reachable(l: Link) {
    exists steps :: l == Run(INITIAL, steps)
  }

  lemma ReachableInv(l: Link)
    requires Reachable(l)
    ensures Inv(l)
  {
    var steps :| l == Run(INITIAL, steps);
    InvInitial();
    RunKeepsInv(INITIAL, steps);
  }

  /** Every schedule of sends, flushes, deliveries, hand-overs, reads and acks: the connection is
      never killed by its own framing, frames come out whole and in order, and the counters and
      the in-flight bound hold. */
  lemma EverySchedule(l: Link)
    requires Reachable(l)
    ensures !l.dead && DecodeFlight(l.partial, l.payloads).Ok?
    ensures l.received + l.inq + Ahead(l) == l.submitted && l.received <= l.submitted
    ensures l.acked <= l.ackedOut <= l.consumed <= l.sent
    ensures Ascending(l.acks, l.acked, l.ackedOut)
    ensures !l.mid ==> l.consumed - l.ackedOut < ACK_EVERY
    ensures l.sent - l.acked <= Max(WINDOW, MaxLen(l.submitted) + ACK_EVERY - 1)
    ensures l.sent - l.acked <= Max(WINDOW, MaxLen(l.submitted)) + ACK_EVERY
  {
    ReachableInv(l);
    ConsumedWithinSent(l);
    Delivery(l);
  }

  /** How many acks a schedule makes the reader send. */
  function AcksSent(l: Link, steps: seq<Step>): nat
    decreases |steps|
  {
    if steps == [] then 0
    else (if |Next(l, steps[0]).acks| > |l.acks| then 1 else 0) + AcksSent(Next(l, steps[0]), steps[1..])
  }

  /** An ack is due only for a full threshold of new bytes. */
  lemma AckStep(l: Link, step: Step)
    ensures var e := Next(l, step);
            && (|e.acks| > |l.acks| ==> e.ackedOut >= l.ackedOut + ACK_EVERY)
            && (l.ackedOut <= l.consumed ==> l.ackedOut <= e.ackedOut <= e.consumed)
  {
    hide Debatch, Pack, MaySend;
  }

  /** Acks are batched: each stands for at least a threshold of bytes that no earlier one covered. */
  lemma {:induction false} AcksAreBatched(l: Link, steps: seq<Step>)
    requires l.ackedOut <= l.consumed
    ensures l.ackedOut + AcksSent(l, steps) * ACK_EVERY <= Run(l, steps).ackedOut <= Run(l, steps).consumed
    decreases |steps|
  {
    hide Next;
    if steps != [] {
      AckStep(l, steps[0]);
      AcksAreBatched(Next(l, steps[0]), steps[1..]);
    }
  }

  /** So over any schedule acks times the threshold never exceed the bytes consumed. */
  lemma FewAcks(steps: seq<Step>)
    ensures AcksSent(INITIAL, steps) * ACK_EVERY <= Run(INITIAL, steps).consumed
  {
    AcksAreBatched(INITIAL, steps);
  }

  function Zeros(n: nat): (f: bytes)
    ensures |f| == n
  {
    seq(n, _ => 0)
  }

  lemma SubmitZeros(l: Link, n: nat)
    requires Enabled(l, Submit(Zeros(n))) && l.sent == SumLen(l.submitted)
    ensures var e := Next(l, Submit(Zeros(n)));
            && e.sent == l.sent + n && e.acked == l.acked && !e.dead
            && e.sent == SumLen(e.submitted) && MaxLen(e.submitted) == Max(MaxLen(l.submitted), n)
  {
    SumLenConcat(l.submitted, [Zeros(n)]);
    MaxLenConcat(l.submitted, [Zeros(n)]);
    assert SumLen([Zeros(n)]) == n && MaxLen([Zeros(n)]) == n;
  }

  /** Frames of at most `len` bytes fill the window to the last byte. */
  lemma {:induction false} FillWindow(l: Link, len: nat) returns (steps: seq<Step>)
    requires 0 < len <= MAX_LOGICAL_FRAME && !l.dead && l.acked == 0 && l.sent == SumLen(l.submitted) <= WINDOW
    requires MaxLen(l.submitted) == len
    ensures var e := Run(l, steps); e.sent == WINDOW && e.acked == 0 && MaxLen(e.submitted) == len
    decreases WINDOW - l.sent
  {
    hide SumLen, MaxLen;
    steps := [];
    if l.sent < WINDOW {
      var n := if len <= WINDOW - l.sent then len else WINDOW - l.sent;
      SubmitZeros(l, n);
      var rest := FillWindow(Next(l, Submit(Zeros(n))), len);
      steps := [Submit(Zeros(n))] + rest;
      assert steps[1..] == rest;
    }
  }

  /** The in-flight bound of `EverySchedule` is exact: for every length of the largest frame some
      schedule attains it. */
  lemma BoundIsAttained(len: nat) returns (steps: seq<Step>)
    requires 0 < len <= MAX_LOGICAL_FRAME
    ensures var l := Run(INITIAL, steps);
      MaxLen(l.submitted) == len && l.sent - l.acked == Max(WINDOW, len + ACK_EVERY - 1)
  {
    hide SumLen, MaxLen;
    assert SumLen([]) == 0 && MaxLen([]) == 0 by { NothingIsEmpty(); }
    if len + ACK_EVERY - 1 > WINDOW {
      var first := Submit(Zeros(ACK_EVERY - 1));
      SubmitZeros(INITIAL, ACK_EVERY - 1);
      var mid := Next(INITIAL, first);
      SubmitZeros(mid, len);
      steps := [first, Submit(Zeros(len))];
      assert steps[1..] == [Submit(Zeros(len))];
      RunOne(mid, Submit(Zeros(len)));
    } else {
      SubmitZeros(INITIAL, len);
      var rest := FillWindow(Next(INITIAL, Submit(Zeros(len))), len);
      steps := [Submit(Zeros(len))] + rest;
      assert steps[1..] == rest;
    }
  }

  lemma NothingIsEmpty()
    ensures SumLen([]) == 0 && MaxLen([]) == 0
  {
  }

  /** Nothing is left to move between the two applications. */
  predicate Drained(l: Link) {
    && l.outq == [] && l.pending == [] && l.payloads == []
    && l.handoff == [] && !l.mid && l.acks == []
  }

  /** Once everything queued and every ack is delivered, the guard is open for any frame. */
  lemma DrainedMaySend(l: Link, len: nat)
    requires Inv(l) && Drained(l)
    ensures l.received + l.inq == l.submitted
    ensures l.sent - l.acked < ACK_EVERY && MaySend(l.sent, l.acked, len)
  {
    assert Ahead(l) == [];
    ConsumedWithinSent(l);
  }

  /** Work left, most upstream first: every internal step lowers it lexicographically. */
  datatype Work = Work(queued: nat, unpacked: nat, inFlight: nat, unhanded: nat, unread: nat, unacked: nat)

  function WorkOf(l: Link): Work {
    Work(|l.outq|, QueueMeasure(l.pending), |l.payloads|,
         2 * |l.handoff| + (if l.mid then 1 else 0), |l.inq|, |l.acks|)
  }

  predicate Less(a: Work, b: Work) {
    || a.queued < b.queued
    || (a.queued == b.queued && a.unpacked < b.unpacked)
    || (a.queued == b.queued && a.unpacked == b.unpacked && a.inFlight < b.inFlight)
    || (a.queued == b.queued && a.unpacked == b.unpacked && a.inFlight == b.inFlight && a.unhanded < b.unhanded)
    || (a.queued == b.queued && a.unpacked == b.unpacked && a.inFlight == b.inFlight && a.unhanded == b.unhanded
        && a.unread < b.unread)
    || (a.queued == b.queued && a.unpacked == b.unpacked && a.inFlight == b.inFlight && a.unhanded == b.unhanded
        && a.unread == b.unread && a.unacked < b.unacked)
  }

  lemma InternalStepLowersWork(l: Link, step: Step)
    requires Inv(l) && Enabled(l, step) && !step.Submit?
    ensures Less(WorkOf(Next(l, step)), WorkOf(l))
  {
    if step.Flush? {
      PackBounds([], l.pending);
    }
  }

  /** A step that can be taken while the link is not drained; only a full local channel can
      stand in the way, and then the application can read. */
  function SomeStep(l: Link): (step: Step)
    requires Flow(l) && !(Drained(l) && l.inq == [])
    ensures !step.Submit? && Enabled(l, step)
  {
    if l.inq != [] then Receive
    else if l.acks != [] then AckArrive
    else if l.handoff != [] then Hand
    else if l.mid then Settle
    else if l.payloads != [] then Arrive
    else if l.pending != [] then Flush
    else Take
  }

  lemma InvAlive(l: Link)
    requires Inv(l)
    ensures !l.dead && Flow(l)
  {
  }

  /** A blocked send is never stuck: finitely many internal steps open its guard. */
  lemma {:induction false} BlockedSendIsFreed(l: Link, frame: bytes) returns (steps: seq<Step>)
    requires Inv(l) && |frame| <= MAX_LOGICAL_FRAME
    ensures forall s :: s in steps ==> !s.Submit?
    ensures Enabled(Run(l, steps), Submit(frame))
    ensures Run(l, steps).submitted == l.submitted
    decreases |l.outq|, QueueMeasure(l.pending), |l.payloads|,
              2 * |l.handoff| + (if l.mid then 1 else 0), |l.inq|, |l.acks|
  {
    hide Flow, Counters, Window, Debatch, Pack;
    if Drained(l) && l.inq == [] {
      DrainedMaySend(l, |frame|);
      assert !l.dead by { InvAlive(l); }
      steps := [];
    } else {
      InvAlive(l);
      var s := SomeStep(l);
      InternalStepLowersWork(l, s);
      StepKeepsInv(l, s);
      var rest := BlockedSendIsFreed(Next(l, s), frame);
      steps := [s] + rest;
      assert steps[1..] == rest;
    }
  }

  // ---------------------------------------------------------------- the objects refine the machine

  lemma {:induction false} RunConcat(l: Link, a: seq<Step>, b: seq<Step>)
    ensures Run(l, a + b) == Run(Run(l, a), b)
    decreases |a|
  {
    if a == [] {
      assert a + b == b;
    } else {
      assert (a + b)[1..] == a[1..] + b;
      RunConcat(Next(l, a[0]), a[1..], b);
    }
  }

  lemma RunOne(l: Link, s: Step)
    ensures Run(l, [s]) == Next(l, s)
  {
    assert [s][1..] == [];
  }

  /** Frames going into the local channel, and out of it whenever the application reads. */
  predicate HandOvers(steps: seq<Step>) {
    forall i :: 0 <= i < |steps| ==> steps[i].Hand? || steps[i].Receive?
  }

  /** Hand-overs keep the frames in order and count each one once. */
  lemma {:induction false} HandOversKeep(l: Link, steps: seq<Step>)
    requires HandOvers(steps)
    ensures var e := Run(l, steps);
            && e.received + e.inq + e.handoff == l.received + l.inq + l.handoff
            && e.consumed + SumLen(e.handoff) == l.consumed + SumLen(l.handoff)
            && e == l.(handoff := e.handoff, inq := e.inq, received := e.received, consumed := e.consumed)
    decreases |steps|
  {
    if steps != [] {
      HandOverKeeps(l, steps[0]);
      hide Next;
      HandOversKeep(Next(l, steps[0]), steps[1..]);
    }
  }

  lemma HandOverKeeps(l: Link, s: Step)
    requires s.Hand? || s.Receive?
    ensures var e := Next(l, s);
            && e.received + e.inq + e.handoff == l.received + l.inq + l.handoff
            && e.consumed + SumLen(e.handoff) == l.consumed + SumLen(l.handoff)
            && e == l.(handoff := e.handoff, inq := e.inq, received := e.received, consumed := e.consumed)
  {
    if Enabled(l, s) {
      var e := Next(l, s);
      if s.Hand? {
        assert l.handoff == [l.handoff[0]] + e.handoff;
      } else {
        assert l.inq == [l.inq[0]] + e.inq;
      }
    }
  }

  /** However full the local channel is, a payload of any number of frames can be handed over. */
  lemma {:induction false} HandOversExist(l: Link) returns (steps: seq<Step>)
    requires !l.dead
    ensures HandOvers(steps) && Run(l, steps).handoff == []
    decreases |l.handoff|, |l.inq|
  {
    steps := [];
    if l.handoff != [] {
      var s := if |l.inq| < IN_CAPACITY then Hand else Receive;
      var rest := HandOversExist(Next(l, s));
      steps := [s] + rest;
      assert steps[1..] == rest;
    }
  }

  lemma NothingHanded(l: Link)
    ensures l.handoff == [] ==> SumLen(l.handoff) == 0
  {
  }

  /** `IoReader.OnBinary` is the machine's arrival, hand-overs and settling: whatever reads of the
      application come between the hand-overs, the counters, the ack and the frames agree. */
  lemma ReaderRefinesMachine(l: Link, r: Debatched, done: Ingested, steps: seq<Step>)
    requires Enabled(l, Arrive) && l.handoff == []
    requires r == Debatch(l.partial, l.payloads[0]) && r.Ok?
    requires done == Ingest(r.frames, l.consumed, l.ackedOut)
    requires HandOvers(steps) && Run(Next(l, Arrive), steps).handoff == []
    ensures var e := Run(l, [Arrive] + steps + [Settle]);
            && e.received + e.inq == l.received + l.inq + done.delivered
            && e == l.(payloads := l.payloads[1..], partial := r.partial, received := e.received, inq := e.inq,
                       consumed := done.consumed, ackedOut := done.ackedOut,
                       acks := if done.ack.Some? then l.acks + [done.ack.value] else l.acks)
  {
    hide Run, Debatch, SumLen;
    var l1 := Next(l, Arrive);
    var l2 := Run(l1, steps);
    RunConcat(l, [Arrive] + steps, [Settle]);
    RunConcat(l, [Arrive], steps);
    RunOne(l, Arrive);
    HandOversKeep(l1, steps);
    RunOne(l2, Settle);
    assert l2.received + l2.inq + [] == l2.received + l2.inq;
    NothingHanded(l2);
  }
}
