/** The close latch of a WebRTC channel (src/transport/webrtc.rs): `send` must not wait for ever on a
    peer whose close handlers already ran. `notify_waiters` stores no permit: it wakes only a waiter
    that is registered when it is called. Steps interleave one atomic action at a time. */
module CloseLatch {

  /** `sending`: inside `send`; `registered` and `checked`: its waiter is enabled, it has read the
      flag as false; `woken`: its waiter was notified. `storing` counts the handlers between their
      store and their notify: both handlers may run, and more than once. */
  datatype Latch = Latch(sending: bool, registered: bool, checked: bool, woken: bool, failed: bool,
                         flag: bool, storing: nat)

  const OPEN := Latch(false, false, false, false, false, false, 0)

  /** `Accept` is the data channel taking the message; a dead peer may never let it happen. */
  datatype Step = Enter | Enable | ReadFlag | Accept | Wake | Store | Notify

  predicate Parked(s: Latch) {
    s.sending && s.registered && s.checked
  }

  /** `enableFirst` is the order in the source: the waiter is enabled before the flag is read. */
  predicate Enabled(s: Latch, e: Step, enableFirst: bool) {
    match e
    case Enter => !s.sending && !s.failed
    case Enable => s.sending && !s.registered && (enableFirst || s.checked)
    case ReadFlag => s.sending && !s.checked && (enableFirst ==> s.registered)
    case Accept => Parked(s)
    case Wake => Parked(s) && s.woken
    case Store => true
    case Notify => s.storing > 0
  }

  /** Leaving `send` drops its waiter. */
  function Leave(s: Latch, failed: bool): Latch {
    s.(sending := false, registered := false, checked := false, woken := false, failed := failed)
  }

  function Next(s: Latch, e: Step, enableFirst: bool): Latch {
    if !Enabled(s, e, enableFirst) then s
    else
      match e
      case Enter => s.(sending := true)
      case Enable => s.(registered := true)
      case ReadFlag => if s.flag then Leave(s, true) else s.(checked := true)
      case Accept => Leave(s, false)
      case Wake => Leave(s, true)
      case Store => s.(flag := true, storing := s.storing + 1)
      case Notify => s.(storing := s.storing - 1, woken := s.woken || s.registered)
  }

  function Run(s: Latch, steps: seq<Step>, enableFirst: bool): Latch
    decreases |steps|
  {
    if steps == [] then s else Run(Next(s, steps[0], enableFirst), steps[1..], enableFirst)
  }

  /** No wake-up is lost: a parked send whose flag is set has been woken, or will be. */
  predicate LatchInv(s: Latch) {
    && (s.checked ==> s.registered)
    && (s.registered ==> s.sending)
    && (s.storing > 0 ==> s.flag)
    && (s.sending ==> !s.failed)
    && (s.woken || s.failed ==> s.flag)
    && (Parked(s) && s.flag ==> s.woken || s.storing > 0)
  }

  lemma {:induction false} LatchRun(s: Latch, steps: seq<Step>)
    requires LatchInv(s)
    ensures LatchInv(Run(s, steps, true))
    decreases |steps|
  {
    if steps != [] {
      assert LatchInv(Next(s, steps[0], true));
      LatchRun(Next(s, steps[0], true), steps[1..]);
    }
  }

  /** The steps that belong to the program: `Accept` is the network's, `Enter` and `Store` start work. */
  predicate Own(e: Step) {
    e == Enable || e == ReadFlag || e == Wake || e == Notify
  }

  function WorkLeft(s: Latch): nat {
    s.storing + if !s.sending then 0 else (if s.registered then 0 else 1) + (if s.checked then 0 else 1) + 1
  }

  /** A run of own steps, each enabled when it is taken. */
  predicate OwnRun(s: Latch, steps: seq<Step>)
    decreases |steps|
  {
    steps == [] || (Own(steps[0]) && Enabled(s, steps[0], true) && OwnRun(Next(s, steps[0], true), steps[1..]))
  }

  /** Own steps until none is enabled. */
  predicate Settled(s: Latch, enableFirst: bool) {
    forall e :: Own(e) ==> !Enabled(s, e, enableFirst)
  }

  /** Once a close handler has stored the flag, a send cannot stay parked: whatever has run before,
      when no own step is left the send has returned. */
  lemma NoLostWakeUp(steps: seq<Step>)
    ensures var s := Run(OPEN, steps, true); s.flag && Settled(s, true) ==> !s.sending
  {
    LatchRun(OPEN, steps);
    var s := Run(OPEN, steps, true);
    if Settled(s, true) {
      assert !Enabled(s, Enable, true) && !Enabled(s, ReadFlag, true) && !Enabled(s, Wake, true) && !Enabled(s, Notify, true);
    }
  }

  /** Own steps cannot go on for ever, and when they are done a send that had begun has failed,
      even if the data channel never accepts another byte. */
  lemma ClosedSendFails(steps: seq<Step>, more: seq<Step>)
    requires var s := Run(OPEN, steps, true); s.flag && s.sending && OwnRun(s, more)
    ensures |more| <= WorkLeft(Run(OPEN, steps, true))
    ensures Settled(Run(Run(OPEN, steps, true), more, true), true) ==> Run(Run(OPEN, steps, true), more, true).failed
  {
    hide Run;
    LatchRun(OPEN, steps);
    OwnRunEnds(Run(OPEN, steps, true), more);
  }

  lemma {:induction false} OwnRunEnds(s: Latch, more: seq<Step>)
    requires LatchInv(s) && s.flag && (s.sending || s.failed) && OwnRun(s, more)
    ensures |more| <= WorkLeft(s)
    ensures Settled(Run(s, more, true), true) ==> Run(s, more, true).failed
    decreases |more|
  {
    if more == [] {
      if Settled(s, true) {
        assert !Enabled(s, Enable, true) && !Enabled(s, ReadFlag, true) && !Enabled(s, Wake, true) && !Enabled(s, Notify, true);
      }
    } else {
      OwnRunEnds(Next(s, more[0], true), more[1..]);
    }
  }

  /** A send fails only if a close handler has run; and when the channel takes the message, the send has
      not failed and another can begin. */
  lemma OnlyClosedSendsFail(steps: seq<Step>)
    ensures var s := Run(OPEN, steps, true);
            && (s.failed ==> s.flag)
            && (Enabled(s, Accept, true) ==> !Next(s, Accept, true).failed && Enabled(Next(s, Accept, true), Enter, true))
  {
    hide Run;
    LatchRun(OPEN, steps);
  }

  /** The order matters: the latch loses no wake-up exactly when the waiter is enabled before the
      flag is read. Read first, a close that falls between the two leaves the send parked for ever. */
  lemma OrderMatters(enableFirst: bool)
    ensures (forall steps :: var s := Run(OPEN, steps, enableFirst); s.flag && Settled(s, enableFirst) ==> !s.sending)
            <==> enableFirst
  {
    if enableFirst {
      forall steps: seq<Step>
        ensures var s := Run(OPEN, steps, true); s.flag && Settled(s, true) ==> !s.sending
      {
        NoLostWakeUp(steps);
      }
    } else {
      var steps := [Enter, ReadFlag, Store, Notify, Enable];
      LostWakeUp(steps);
    }
  }

  lemma LostWakeUp(steps: seq<Step>)
    requires steps == [Enter, ReadFlag, Store, Notify, Enable]
    ensures var s := Run(OPEN, steps, false); s.flag && Settled(s, false) && s.sending
  {
    assert steps[1..] == [ReadFlag, Store, Notify, Enable];
    assert steps[1..][1..] == [Store, Notify, Enable];
    assert steps[1..][1..][1..] == [Notify, Enable];
    assert steps[1..][1..][1..][1..] == [Enable];
    assert steps[1..][1..][1..][1..][1..] == [];
    var parked := Latch(true, true, true, false, false, true, 0);
    assert Run(parked, [], false) == parked;
    assert Run(Latch(true, false, true, false, false, true, 0), [Enable], false) == parked;
    assert Run(Latch(true, false, true, false, false, true, 1), [Notify, Enable], false) == parked;
    assert Run(Latch(true, false, true, false, false, false, 0), [Store, Notify, Enable], false) == parked;
    assert Run(OPEN, steps, false) == parked;
  }
}
