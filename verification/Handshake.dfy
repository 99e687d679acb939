/** The SPAKE2 exchange with key confirmation (src/handshake.rs): in-band over a message channel,
    and over a rendezvous log that echoes and replays. */
module Handshake {
  import opened Bytes
  import opened Crypto

  const KIND_PAKE: byte := 1
  const KIND_CONFIRM: byte := 2

  function RoleByte(r: Role): byte {
    match r
    case Receiver => 0
    case Sender => 1
  }

  function EncodeFrame(kind: byte, role: Role, payload: bytes): bytes {
    [kind, RoleByte(role)] + payload
  }

  datatype Decoded = Decoded(kind: byte, role: byte, payload: bytes)

  function DecodeFrame(frame: bytes): Option<Decoded> {
    if |frame| < 2 then None else Some(Decoded(frame[0], frame[1], frame[2..]))
  }

  lemma FrameRoundTrip(kind: byte, role: Role, payload: bytes)
    ensures DecodeFrame(EncodeFrame(kind, role, payload)) == Some(Decoded(kind, RoleByte(role), payload))
  {
    assert EncodeFrame(kind, role, payload)[2..] == payload;
  }

  /** Decoding, for any bytes: the frames are the strings of two bytes and a payload. */
  lemma FrameExactly(frame: bytes, kind: byte, role: byte, payload: bytes)
    ensures DecodeFrame(frame) == Some(Decoded(kind, role, payload)) <==> frame == [kind, role] + payload
    ensures DecodeFrame(frame) == None <==> |frame| < 2
  {
    if frame == [kind, role] + payload {
      assert frame[2..] == payload;
    }
    if |frame| >= 2 {
      assert frame == [frame[0], frame[1]] + frame[2..];
    }
  }

  /** The confirmation MAC, and which byte strings are SPAKE2 messages. */
  datatype Prims = Prims(mac: (SessionKey, Role) -> bytes, valid: bytes -> bool)

  /** Confirmation MACs of different keys or roles differ. */
  ghost predicate MacsDiffer(p: Prims) {
    forall k, r, k', r' :: p.mac(k, r) == p.mac(k', r') ==> k == k' && r == r'
  }

  /** One end: its role, what it was told, and the SPAKE2 message it drew. */
  datatype Party = Party(role: Role, password: bytes, context: string, msg: bytes)

  function FinishKey(me: Party, peerMsg: bytes): SessionKey {
    SessionKey(me.password, me.context, multiset{me.msg, peerMsg})
  }

  /** Both ends derive one key exactly when password and context agree. */
  lemma SameKeyIff(a: Party, b: Party)
    ensures FinishKey(a, b.msg) == FinishKey(b, a.msg) <==> a.password == b.password && a.context == b.context
  {
    assert multiset{a.msg, b.msg} == multiset{b.msg, a.msg};
  }

  // ---------------------------------------------------------------- the exchange as a machine

  datatype HsError = PakeFailed | CodeMismatch
  datatype HsPhase = WantPake | WantConfirm(key: SessionKey) | HsFailed(error: HsError) | Ready(key: SessionKey)
  datatype HsTrace = HsTrace(phase: HsPhase, out: seq<bytes>)

  function PakeFrame(me: Party): bytes {
    EncodeFrame(KIND_PAKE, me.role, me.msg)
  }

  function ConfirmFrame(p: Prims, me: Party, key: SessionKey): bytes {
    EncodeFrame(KIND_CONFIRM, me.role, p.mac(key, me.role))
  }

  /** `recv_kind` and `wait_for`: only a frame of the wanted kind from the peer's role counts. */
  function Wanted(me: Party, kind: byte, frame: bytes): Option<bytes> {
    match DecodeFrame(frame)
    case Some(d) => if d.kind == kind && d.role == RoleByte(Other(me.role)) then Some(d.payload) else None
    case None => None
  }

  function HsStep(p: Prims, me: Party, t: HsTrace, frame: bytes): HsTrace {
    match t.phase
    case WantPake =>
      (match Wanted(me, KIND_PAKE, frame)
       case None => t
       case Some(peerMsg) =>
         if !p.valid(peerMsg) then t.(phase := HsFailed(PakeFailed))
         else
           var key := FinishKey(me, peerMsg);
           HsTrace(WantConfirm(key), t.out + [ConfirmFrame(p, me, key)]))
    case WantConfirm(key) =>
      (match Wanted(me, KIND_CONFIRM, frame)
       case None => t
       case Some(mac) =>
         t.(phase := if p.mac(key, Other(me.role)) == mac then Ready(key) else HsFailed(CodeMismatch)))
    case HsFailed(_) => t
    case Ready(_) => t
  }

  function HsRun(p: Prims, me: Party, inputs: seq<bytes>): HsTrace {
    if inputs == [] then HsTrace(WantPake, [PakeFrame(me)])
    else HsStep(p, me, HsRun(p, me, inputs[..|inputs| - 1]), inputs[|inputs| - 1])
  }

  lemma HsRunSnoc(p: Prims, me: Party, inputs: seq<bytes>, f: bytes)
    ensures HsRun(p, me, inputs + [f]) == HsStep(p, me, HsRun(p, me, inputs), f)
  {
    assert (inputs + [f])[..|inputs|] == inputs;
  }

  predicate Waiting(phase: HsPhase) {
    phase.WantPake? || phase.WantConfirm?
  }

  /** `f` is a frame of this kind from the peer's role. */
  predicate IsFrom(me: Party, kind: byte, f: bytes, payload: bytes) {
    f == [kind, if me.role == Sender then 0 else 1] + payload
  }

  lemma WantedExactly(me: Party, kind: byte, f: bytes, payload: bytes)
    ensures Wanted(me, kind, f) == Some(payload) <==> IsFrom(me, kind, f, payload)
  {
    if IsFrom(me, kind, f, payload) {
      assert f[2..] == payload;
    }
    if Wanted(me, kind, f) == Some(payload) {
      assert f == [f[0], f[1]] + f[2..];
    }
  }

  /** Frame `i` is the first of its kind from the peer, from `from` on. */
  ghost predicate FirstOf(me: Party, kind: byte, inputs: seq<bytes>, from: nat, i: nat, payload: bytes) {
    && from <= i < |inputs| && IsFrom(me, kind, inputs[i], payload)
    && forall j, other :: from <= j < i ==> !IsFrom(me, kind, inputs[j], other)
  }

  ghost predicate NoneOf(me: Party, kind: byte, inputs: seq<bytes>, from: nat) {
    forall j, other :: from <= j < |inputs| ==> !IsFrom(me, kind, inputs[j], other)
  }

  lemma {:induction false} WaitsForPake(p: Prims, me: Party, inputs: seq<bytes>)
    requires NoneOf(me, KIND_PAKE, inputs, 0)
    ensures HsRun(p, me, inputs) == HsTrace(WantPake, [PakeFrame(me)])
    decreases |inputs|
  {
    if inputs != [] {
      var last := |inputs| - 1;
      assert forall j :: 0 <= j < last ==> inputs[..last][j] == inputs[j];
      WaitsForPake(p, me, inputs[..last]);
      NotWanted(me, KIND_PAKE, inputs[last]);
    }
  }

  lemma NotWanted(me: Party, kind: byte, f: bytes)
    requires forall other :: !IsFrom(me, kind, f, other)
    ensures Wanted(me, kind, f) == None
  {
    var w := Wanted(me, kind, f);
    if w.Some? {
      WantedExactly(me, kind, f, w.value);
    }
  }

  /** The trace right after the peer's first SPAKE2 message. */
  function AfterPake(p: Prims, me: Party, msg: bytes): HsTrace {
    if !p.valid(msg) then HsTrace(HsFailed(PakeFailed), [PakeFrame(me)])
    else
      var key := FinishKey(me, msg);
      HsTrace(WantConfirm(key), [PakeFrame(me), ConfirmFrame(p, me, key)])
  }

  lemma AtPake(p: Prims, me: Party, inputs: seq<bytes>, i: nat, msg: bytes)
    requires FirstOf(me, KIND_PAKE, inputs, 0, i, msg)
    ensures HsRun(p, me, inputs[..i + 1]) == AfterPake(p, me, msg)
  {
    assert inputs[..i + 1] == inputs[..i] + [inputs[i]];
    WaitsForPake(p, me, inputs[..i]);
    HsRunSnoc(p, me, inputs[..i], inputs[i]);
    WantedExactly(me, KIND_PAKE, inputs[i], msg);
  }

  /** Once failed or ready, nothing changes any more. */
  lemma {:induction false} OverStays(p: Prims, me: Party, inputs: seq<bytes>, n: nat)
    requires n <= |inputs| && !Waiting(HsRun(p, me, inputs[..n]).phase)
    ensures HsRun(p, me, inputs) == HsRun(p, me, inputs[..n])
    decreases |inputs|
  {
    hide Wanted;
    if n < |inputs| {
      var last := |inputs| - 1;
      assert inputs[..last][..n] == inputs[..n];
      OverStays(p, me, inputs[..last], n);
    } else {
      assert inputs[..n] == inputs;
    }
  }

  lemma {:induction false} WaitsForConfirm(p: Prims, me: Party, inputs: seq<bytes>, n: nat)
    requires n <= |inputs| && HsRun(p, me, inputs[..n]).phase.WantConfirm? && NoneOf(me, KIND_CONFIRM, inputs, n)
    ensures HsRun(p, me, inputs) == HsRun(p, me, inputs[..n])
    decreases |inputs|
  {
    hide Wanted, IsFrom;
    if n < |inputs| {
      var last := |inputs| - 1;
      assert inputs[..last][..n] == inputs[..n];
      assert forall j :: 0 <= j < last ==> inputs[..last][j] == inputs[j];
      WaitsForConfirm(p, me, inputs[..last], n);
      NotWanted(me, KIND_CONFIRM, inputs[last]);
    } else {
      assert inputs[..n] == inputs;
    }
  }

  /** From frame `n` on, with the key known, the peer's first confirmation decides. */
  ghost predicate ConfirmDecides(p: Prims, me: Party, inputs: seq<bytes>, n: nat, key: SessionKey) {
    && HsRun(p, me, inputs).out == [PakeFrame(me), ConfirmFrame(p, me, key)]
    && (NoneOf(me, KIND_CONFIRM, inputs, n) ==> HsRun(p, me, inputs).phase == WantConfirm(key))
    && forall j, mac :: FirstOf(me, KIND_CONFIRM, inputs, n, j, mac) ==>
         HsRun(p, me, inputs).phase == if mac == p.mac(key, Other(me.role)) then Ready(key) else HsFailed(CodeMismatch)
  }

  /** The outcome of an exchange, for any frames whatsoever. Until the peer's SPAKE2 message comes nothing
      happens; an invalid one fails the exchange with no confirmation sent; a valid one gives the key and
      is answered with the confirmation; and then the peer's first confirmation decides: the key is
      returned exactly if it carries the peer's MAC under that key. */
  lemma OutcomeExactly(p: Prims, me: Party, inputs: seq<bytes>)
    ensures NoneOf(me, KIND_PAKE, inputs, 0) ==> HsRun(p, me, inputs) == HsTrace(WantPake, [PakeFrame(me)])
    ensures forall i: nat, msg :: FirstOf(me, KIND_PAKE, inputs, 0, i, msg) ==>
              && (!p.valid(msg) ==> HsRun(p, me, inputs) == HsTrace(HsFailed(PakeFailed), [PakeFrame(me)]))
              && (p.valid(msg) ==> ConfirmDecides(p, me, inputs, i + 1, FinishKey(me, msg)))
  {
    hide HsRun, IsFrom, Wanted, PakeFrame, ConfirmFrame, FinishKey;
    if NoneOf(me, KIND_PAKE, inputs, 0) {
      WaitsForPake(p, me, inputs);
    }
    forall i: nat, msg | FirstOf(me, KIND_PAKE, inputs, 0, i, msg)
      ensures !p.valid(msg) ==> HsRun(p, me, inputs) == HsTrace(HsFailed(PakeFailed), [PakeFrame(me)])
      ensures p.valid(msg) ==> ConfirmDecides(p, me, inputs, i + 1, FinishKey(me, msg))
    {
      AtPake(p, me, inputs, i, msg);
      if p.valid(msg) {
        ConfirmCases(p, me, inputs, i + 1, FinishKey(me, msg));
      } else {
        OverStays(p, me, inputs, i + 1);
      }
    }
  }

  lemma ConfirmCases(p: Prims, me: Party, inputs: seq<bytes>, n: nat, key: SessionKey)
    requires n <= |inputs|
    requires HsRun(p, me, inputs[..n]) == HsTrace(WantConfirm(key), [PakeFrame(me), ConfirmFrame(p, me, key)])
    ensures ConfirmDecides(p, me, inputs, n, key)
  {
    hide HsRun, IsFrom, Wanted, PakeFrame, ConfirmFrame;
    if NoneOf(me, KIND_CONFIRM, inputs, n) {
      WaitsForConfirm(p, me, inputs, n);
    } else {
      var j, mac := FirstConfirm(me, inputs, n);
      AtConfirm(p, me, inputs, n, key, j, mac);
      OnlyFirst(me, inputs, n, j, mac);
    }
  }

  lemma {:induction false} FirstConfirm(me: Party, inputs: seq<bytes>, n: nat) returns (j: nat, mac: bytes)
    requires !NoneOf(me, KIND_CONFIRM, inputs, n)
    ensures FirstOf(me, KIND_CONFIRM, inputs, n, j, mac)
    decreases |inputs| - n
  {
    hide IsFrom;
    if other :| n < |inputs| && IsFrom(me, KIND_CONFIRM, inputs[n], other) {
      j, mac := n, other;
    } else {
      j, mac := FirstConfirm(me, inputs, n + 1);
    }
  }

  lemma OnlyFirst(me: Party, inputs: seq<bytes>, n: nat, j: nat, mac: bytes)
    requires FirstOf(me, KIND_CONFIRM, inputs, n, j, mac)
    ensures forall k, other :: FirstOf(me, KIND_CONFIRM, inputs, n, k, other) ==> k == j && other == mac
    ensures !NoneOf(me, KIND_CONFIRM, inputs, n)
  {
    forall k, other | FirstOf(me, KIND_CONFIRM, inputs, n, k, other)
      ensures k == j && other == mac
    {
      assert k == j;
      assert inputs[j][2..] == mac && inputs[j][2..] == other;
    }
  }

  lemma AtConfirm(p: Prims, me: Party, inputs: seq<bytes>, n: nat, key: SessionKey, j: nat, mac: bytes)
    requires n <= |inputs| && FirstOf(me, KIND_CONFIRM, inputs, n, j, mac)
    requires HsRun(p, me, inputs[..n]) == HsTrace(WantConfirm(key), [PakeFrame(me), ConfirmFrame(p, me, key)])
    ensures HsRun(p, me, inputs)
         == HsTrace(if mac == p.mac(key, Other(me.role)) then Ready(key) else HsFailed(CodeMismatch),
                    [PakeFrame(me), ConfirmFrame(p, me, key)])
  {
    hide HsRun, IsFrom, Wanted, PakeFrame, ConfirmFrame;
    var before := inputs[..j];
    assert before[..n] == inputs[..n];
    assert forall k :: 0 <= k < j ==> before[k] == inputs[k];
    WaitsForConfirm(p, me, before, n);
    HsRunSnoc(p, me, before, inputs[j]);
    WantedExactly(me, KIND_CONFIRM, inputs[j], mac);
    assert inputs[..j + 1] == before + [inputs[j]];
    OverStays(p, me, inputs, j + 1);
  }

  // ---------------------------------------------------------------- the code as it runs

  /** A message channel of raw frames; `inbox` is what arrives before the connection is lost. */
  class ByteChannel {
    var inbox: seq<bytes>
    var got: seq<bytes>
    var outbox: seq<bytes>

    constructor (inbox: seq<bytes>)
      ensures this.inbox == inbox && got == [] && outbox == []
    {
      this.inbox, got, outbox := inbox, [], [];
    }

    method Send(f: bytes)
      modifies this`outbox
      ensures outbox == old(outbox) + [f]
    {
      outbox := outbox + [f];
    }

    method Recv() returns (f: Option<bytes>)
      modifies this`inbox, this`got
      ensures f.None? ==> old(inbox) == [] && inbox == [] && got == old(got)
      ensures f.Some? ==> old(inbox) == [f.value] + inbox && got == old(got) + [f.value]
    {
      if inbox == [] {
        return None;
      }
      f := Some(inbox[0]);
      got := got + [inbox[0]];
      inbox := inbox[1..];
    }
  }

  /** Reads until a frame counts, and no further. */
  method RecvKind(ch: ByteChannel, p: Prims, me: Party, kind: byte) returns (r: Option<bytes>)
    requires if kind == KIND_PAKE then HsRun(p, me, ch.got).phase.WantPake?
             else kind == KIND_CONFIRM && HsRun(p, me, ch.got).phase.WantConfirm?
    modifies ch`inbox, ch`got
    ensures ch.got + ch.inbox == old(ch.got) + old(ch.inbox)
    ensures r.None? ==> ch.inbox == [] && HsRun(p, me, ch.got) == HsRun(p, me, old(ch.got))
    ensures r.Some? ==>
              && ch.got != [] && Wanted(me, kind, ch.got[|ch.got| - 1]) == r
              && HsRun(p, me, ch.got[..|ch.got| - 1]) == HsRun(p, me, old(ch.got))
    decreases |ch.inbox|
  {
    r := None;
    while r.None?
      invariant ch.got + ch.inbox == old(ch.got) + old(ch.inbox)
      invariant r.None? ==> HsRun(p, me, ch.got) == HsRun(p, me, old(ch.got))
      invariant r.Some? ==>
                  && ch.got != [] && Wanted(me, kind, ch.got[|ch.got| - 1]) == r
                  && HsRun(p, me, ch.got[..|ch.got| - 1]) == HsRun(p, me, old(ch.got))
      decreases |ch.inbox|, r.None?
    {
      ghost var before := ch.got;
      var frame := ch.Recv();
      if frame.None? {
        return None;
      }
      HsRunSnoc(p, me, before, frame.value);
      assert ch.got[..|ch.got| - 1] == before;
      r := Wanted(me, kind, frame.value);
    }
  }

  /** src/handshake.rs `handshake_channel_inner`. `None` is the connection lost while waiting. */
  method HandshakeOverChannel(ch: ByteChannel, p: Prims, me: Party) returns (r: Option<HsPhase>)
    requires ch.got == [] && ch.outbox == []
    modifies ch
    ensures ch.got + ch.inbox == old(ch.inbox)
    ensures ch.outbox == HsRun(p, me, ch.got).out
    ensures r.Some? ==> r.value == HsRun(p, me, ch.got).phase && !Waiting(r.value)
    ensures r.Some? ==> ch.got != [] && Waiting(HsRun(p, me, ch.got[..|ch.got| - 1]).phase)
    ensures r.None? ==> ch.inbox == [] && Waiting(HsRun(p, me, ch.got).phase)
  {
    hide EncodeFrame, DecodeFrame, FinishKey;
    ch.Send(PakeFrame(me));
    var peerMsg := RecvKind(ch, p, me, KIND_PAKE);
    if peerMsg.None? {
      return None;
    }
    if !p.valid(peerMsg.value) {
      return Some(HsFailed(PakeFailed));
    }
    var key := FinishKey(me, peerMsg.value);
    ch.Send(ConfirmFrame(p, me, key));
    var peerConf := RecvKind(ch, p, me, KIND_CONFIRM);
    if peerConf.None? {
      return None;
    }
    if p.mac(key, Other(me.role)) != peerConf.value {
      return Some(HsFailed(CodeMismatch));
    }
    r := Some(Ready(key));
  }

  // ---------------------------------------------------------------- two parties, in order

  /** Two ends of one run: opposite roles, genuine SPAKE2 messages. */
  ghost predicate Pair(p: Prims, a: Party, b: Party) {
    a.role != b.role && p.valid(a.msg) && p.valid(b.msg) && MacsDiffer(p)
  }

  lemma PairBack(p: Prims, a: Party, b: Party)
    requires Pair(p, a, b)
    ensures Pair(p, b, a)
  {
    hide MacsDiffer;
  }

  predicate SameCode(a: Party, b: Party) {
    a.password == b.password && a.context == b.context
  }

  /** Everything `me` says when its peer is `peer`. */
  function Spoken(p: Prims, me: Party, peer: Party): seq<bytes> {
    [PakeFrame(me), ConfirmFrame(p, me, FinishKey(me, peer.msg))]
  }

  /** Where `me` ends up. */
  function Verdict(me: Party, peer: Party): HsPhase {
    if SameCode(me, peer) then Ready(FinishKey(me, peer.msg)) else HsFailed(CodeMismatch)
  }

  lemma FramesWanted(p: Prims, me: Party, peer: Party, key: SessionKey)
    requires me.role != peer.role
    ensures Wanted(me, KIND_PAKE, PakeFrame(peer)) == Some(peer.msg)
    ensures Wanted(me, KIND_CONFIRM, ConfirmFrame(p, peer, key)) == Some(p.mac(key, peer.role))
    ensures Wanted(me, KIND_CONFIRM, PakeFrame(peer)) == None
    ensures Wanted(me, KIND_PAKE, ConfirmFrame(p, peer, key)) == None
    ensures Wanted(me, KIND_PAKE, PakeFrame(me)) == None && Wanted(me, KIND_CONFIRM, PakeFrame(me)) == None
    ensures Wanted(me, KIND_PAKE, ConfirmFrame(p, me, key)) == None
    ensures Wanted(me, KIND_CONFIRM, ConfirmFrame(p, me, key)) == None
  {
    FrameRoundTrip(KIND_PAKE, peer.role, peer.msg);
    FrameRoundTrip(KIND_CONFIRM, peer.role, p.mac(key, peer.role));
    FrameRoundTrip(KIND_PAKE, me.role, me.msg);
    FrameRoundTrip(KIND_CONFIRM, me.role, p.mac(key, me.role));
  }

  lemma ConfirmChecks(p: Prims, me: Party, peer: Party)
    requires Pair(p, me, peer)
    ensures p.mac(FinishKey(me, peer.msg), Other(me.role)) == p.mac(FinishKey(peer, me.msg), peer.role)
       <==> SameCode(me, peer)
  {
    SameKeyIff(me, peer);
  }

  /** Reading the peer's frames in order: after the first the key is known, after the second the
      verdict is in, and whatever follows is left for the stream. */
  lemma InOrder(p: Prims, me: Party, peer: Party)
    requires Pair(p, me, peer)
    ensures var key := FinishKey(me, peer.msg);
            var heard := Spoken(p, peer, me);
            && HsRun(p, me, heard[..0]) == HsTrace(WantPake, [PakeFrame(me)])
            && HsRun(p, me, heard[..1]) == HsTrace(WantConfirm(key), Spoken(p, me, peer))
            && HsRun(p, me, heard[..2]) == HsTrace(Verdict(me, peer), Spoken(p, me, peer))
  {
    hide EncodeFrame, DecodeFrame, Wanted;
    var key := FinishKey(me, peer.msg);
    var heard := Spoken(p, peer, me);
    FramesWanted(p, me, peer, FinishKey(peer, me.msg));
    ConfirmChecks(p, me, peer);
    assert heard[..1] == [] + [heard[0]];
    assert heard[..2] == heard[..1] + [heard[1]];
    HsRunSnoc(p, me, [], heard[0]);
    HsRunSnoc(p, me, heard[..1], heard[1]);
  }

  // ---------------------------------------------------------------- two parties over a log

  /** A rendezvous topic: every subscriber reads the whole log from its start, echoes included. */
  datatype Topic = Topic(log: seq<bytes>, aRead: nat, bRead: nat, aSent: nat, bSent: nat)

  const EMPTY_TOPIC := Topic([], 0, 0, 0, 0)

  datatype TopicStep =
    | PublishA | ReadA | PublishB | ReadB
    | Replay(i: nat)      // the service repeats an earlier frame
    | Noise(f: bytes)     // someone else's frame

  predicate Related(f: bytes) {
    match DecodeFrame(f)
    case Some(d) => (d.kind == KIND_PAKE || d.kind == KIND_CONFIRM) && d.role <= 1
    case None => false
  }

  predicate TopicEnabled(p: Prims, a: Party, b: Party, t: Topic, step: TopicStep)
    requires t.aRead <= |t.log| && t.bRead <= |t.log|
  {
    match step
    case PublishA => t.aSent < |HsRun(p, a, t.log[..t.aRead]).out|
    case ReadA => t.aSent == |HsRun(p, a, t.log[..t.aRead]).out| && t.aRead < |t.log| && Waiting(HsRun(p, a, t.log[..t.aRead]).phase)
    case PublishB => t.bSent < |HsRun(p, b, t.log[..t.bRead]).out|
    case ReadB => t.bSent == |HsRun(p, b, t.log[..t.bRead]).out| && t.bRead < |t.log| && Waiting(HsRun(p, b, t.log[..t.bRead]).phase)
    case Replay(i) => i < |t.log|
    case Noise(f) => !Related(f)
  }

  function TopicNext(p: Prims, a: Party, b: Party, t: Topic, step: TopicStep): (t': Topic)
    requires t.aRead <= |t.log| && t.bRead <= |t.log|
    ensures t'.aRead <= |t'.log| && t'.bRead <= |t'.log|
  {
    if !TopicEnabled(p, a, b, t, step) then t
    else
      match step
      case PublishA => t.(log := t.log + [HsRun(p, a, t.log[..t.aRead]).out[t.aSent]], aSent := t.aSent + 1)
      case ReadA => t.(aRead := t.aRead + 1)
      case PublishB => t.(log := t.log + [HsRun(p, b, t.log[..t.bRead]).out[t.bSent]], bSent := t.bSent + 1)
      case ReadB => t.(bRead := t.bRead + 1)
      case Replay(i) => t.(log := t.log + [t.log[i]])
      case Noise(f) => t.(log := t.log + [f])
  }

  function TopicRun(p: Prims, a: Party, b: Party, steps: seq<TopicStep>): (t: Topic)
    ensures t.aRead <= |t.log| && t.bRead <= |t.log|
  {
    if steps == [] then EMPTY_TOPIC
    else TopicNext(p, a, b, TopicRun(p, a, b, steps[..|steps| - 1]), steps[|steps| - 1])
  }

  /** Every related frame in the log is one of the two parties' own, and a confirmation never
      comes before the SPAKE2 message of the same party. */
  ghost predicate Clean(p: Prims, a: Party, b: Party, log: seq<bytes>) {
    && (forall i :: 0 <= i < |log| && Related(log[i]) ==> log[i] in Spoken(p, a, b) || log[i] in Spoken(p, b, a))
    && (forall i :: 0 <= i < |log| && log[i] == Spoken(p, a, b)[1] ==> PakeFrame(a) in log[..i])
    && (forall i :: 0 <= i < |log| && log[i] == Spoken(p, b, a)[1] ==> PakeFrame(b) in log[..i])
  }

  /** The phase of `me`, read off a clean log. */
  function PhaseFrom(p: Prims, me: Party, peer: Party, seen: seq<bytes>): HsTrace {
    if PakeFrame(peer) !in seen then HsTrace(WantPake, [PakeFrame(me)])
    else if Spoken(p, peer, me)[1] !in seen then HsTrace(WantConfirm(FinishKey(me, peer.msg)), Spoken(p, me, peer))
    else HsTrace(Verdict(me, peer), Spoken(p, me, peer))
  }

  lemma CleanPrefix(p: Prims, a: Party, b: Party, log: seq<bytes>, n: nat)
    requires Clean(p, a, b, log) && n <= |log|
    ensures Clean(p, a, b, log[..n])
  {
    var cut := log[..n];
    forall i | 0 <= i < |cut|
      ensures cut[i] == log[i] && cut[..i] == log[..i]
    {
    }
  }

  lemma CleanSwap(p: Prims, a: Party, b: Party, log: seq<bytes>)
    requires Clean(p, a, b, log)
    ensures Clean(p, b, a, log)
  {
  }

  lemma UnrelatedIgnored(p: Prims, me: Party, t: HsTrace, f: bytes)
    requires !Related(f)
    ensures HsStep(p, me, t, f) == t
  {
  }

  /** A party's own frames never count for it. */
  lemma MineIgnored(p: Prims, me: Party, peer: Party, t: HsTrace, f: bytes)
    requires me.role != peer.role && f in Spoken(p, me, peer)
    ensures HsStep(p, me, t, f) == t && f !in Spoken(p, peer, me)
  {
    hide EncodeFrame, DecodeFrame, Wanted;
    FramesWanted(p, me, peer, FinishKey(me, peer.msg));
    FramesWanted(p, me, peer, FinishKey(peer, me.msg));
  }

  lemma PeerPakeStep(p: Prims, me: Party, peer: Party, seen: seq<bytes>)
    requires Pair(p, me, peer) && (PakeFrame(peer) !in seen ==> Spoken(p, peer, me)[1] !in seen)
    ensures HsStep(p, me, PhaseFrom(p, me, peer, seen), PakeFrame(peer)) == PhaseFrom(p, me, peer, seen + [PakeFrame(peer)])
  {
    hide EncodeFrame, DecodeFrame, Wanted, MacsDiffer, FinishKey;
    FramesWanted(p, me, peer, FinishKey(peer, me.msg));
  }

  lemma PeerConfirmStep(p: Prims, me: Party, peer: Party, seen: seq<bytes>)
    requires Pair(p, me, peer) && PakeFrame(peer) in seen
    ensures HsStep(p, me, PhaseFrom(p, me, peer, seen), Spoken(p, peer, me)[1])
         == PhaseFrom(p, me, peer, seen + [Spoken(p, peer, me)[1]])
  {
    hide EncodeFrame, DecodeFrame, Wanted, MacsDiffer, FinishKey;
    FramesWanted(p, me, peer, FinishKey(peer, me.msg));
    ConfirmChecks(p, me, peer);
  }

  /** The last frame of a clean log. */
  lemma CleanLast(p: Prims, me: Party, peer: Party, seen: seq<bytes>, f: bytes)
    requires Clean(p, me, peer, seen + [f])
    ensures Related(f) ==> f in Spoken(p, me, peer) || f in Spoken(p, peer, me)
    ensures f == Spoken(p, peer, me)[1] ==> PakeFrame(peer) in seen
    ensures PakeFrame(peer) !in seen ==> Spoken(p, peer, me)[1] !in seen
  {
    hide EncodeFrame, Related;
    var all := seen + [f];
    assert all[|seen|] == f && all[..|seen|] == seen;
    forall i | 0 <= i < |seen| && seen[i] == Spoken(p, peer, me)[1]
      ensures PakeFrame(peer) in seen
    {
      assert all[i] == seen[i] && all[..i] == seen[..i];
      assert forall g :: g in seen[..i] ==> g in seen;
    }
  }

  /** Reading one more frame of a clean log moves `me` exactly as the log says. */
  lemma CleanStep(p: Prims, me: Party, peer: Party, seen: seq<bytes>, f: bytes)
    requires Pair(p, me, peer) && Clean(p, me, peer, seen + [f])
    ensures HsStep(p, me, PhaseFrom(p, me, peer, seen), f) == PhaseFrom(p, me, peer, seen + [f])
  {
    hide EncodeFrame, DecodeFrame, Wanted, MacsDiffer, HsStep, Clean, Related, FinishKey;
    CleanLast(p, me, peer, seen, f);
    var t := PhaseFrom(p, me, peer, seen);
    if f == PakeFrame(peer) {
      PeerPakeStep(p, me, peer, seen);
    } else if f == Spoken(p, peer, me)[1] {
      PeerConfirmStep(p, me, peer, seen);
    } else if Related(f) {
      MineIgnored(p, me, peer, t, f);
    } else {
      UnrelatedIgnored(p, me, t, f);
    }
  }

  lemma RelatedFrames(p: Prims, me: Party, key: SessionKey)
    ensures Related(PakeFrame(me)) && Related(ConfirmFrame(p, me, key))
  {
    FrameRoundTrip(KIND_PAKE, me.role, me.msg);
    FrameRoundTrip(KIND_CONFIRM, me.role, p.mac(key, me.role));
  }

  /** `wait_for` over echoes, duplicates and noise reaches what reading the peer alone would. */
  lemma {:induction false} CleanRun(p: Prims, me: Party, peer: Party, seen: seq<bytes>)
    requires Pair(p, me, peer) && Clean(p, me, peer, seen)
    ensures HsRun(p, me, seen) == PhaseFrom(p, me, peer, seen)
    decreases |seen|
  {
    hide HsStep, Clean, Pair;
    if seen != [] {
      var last := |seen| - 1;
      assert seen == seen[..last] + [seen[last]];
      CleanPrefix(p, me, peer, seen, last);
      CleanRun(p, me, peer, seen[..last]);
      CleanStep(p, me, peer, seen[..last], seen[last]);
    }
  }

  /** What one party has published so far is in the log. */
  ghost predicate Published(p: Prims, me: Party, peer: Party, log: seq<bytes>, sent: nat) {
    && sent <= 2
    && (sent >= 1 ==> PakeFrame(me) in log)
    && (sent == 2 ==> Spoken(p, me, peer)[1] in log)
  }

  ghost predicate TopicInv(p: Prims, a: Party, b: Party, t: Topic) {
    && t.aRead <= |t.log| && t.bRead <= |t.log|
    && Clean(p, a, b, t.log)
    && Published(p, a, b, t.log, t.aSent) && Published(p, b, a, t.log, t.bSent)
  }

  lemma CleanAppend(p: Prims, a: Party, b: Party, log: seq<bytes>, f: bytes)
    requires Clean(p, a, b, log)
    requires Related(f) ==> f in Spoken(p, a, b) || f in Spoken(p, b, a)
    requires f == Spoken(p, a, b)[1] ==> PakeFrame(a) in log
    requires f == Spoken(p, b, a)[1] ==> PakeFrame(b) in log
    ensures Clean(p, a, b, log + [f])
  {
    hide Related, EncodeFrame;
    var all := log + [f];
    forall i | 0 <= i < |all|
      ensures all[..i] == if i < |log| then log[..i] else log
      ensures all[i] == if i < |log| then log[i] else f
    {
    }
  }

  lemma PublishedAppend(p: Prims, me: Party, peer: Party, log: seq<bytes>, sent: nat, f: bytes)
    requires Published(p, me, peer, log, sent)
    ensures Published(p, me, peer, log + [f], sent)
  {
  }

  /** The next frame a party publishes is its SPAKE2 message, then its confirmation. */
  lemma NextSpoken(p: Prims, me: Party, peer: Party, log: seq<bytes>, read: nat, sent: nat)
    requires Pair(p, me, peer) && Clean(p, me, peer, log) && read <= |log|
    requires sent < |HsRun(p, me, log[..read]).out|
    ensures sent < 2 && HsRun(p, me, log[..read]).out[sent] == Spoken(p, me, peer)[sent]
  {
    CleanPrefix(p, me, peer, log, read);
    CleanRun(p, me, peer, log[..read]);
  }

  lemma PublishKeeps(p: Prims, me: Party, peer: Party, log: seq<bytes>, sent: nat, f: bytes)
    requires Pair(p, me, peer) && Clean(p, me, peer, log) && Published(p, me, peer, log, sent)
    requires sent < 2 && f == Spoken(p, me, peer)[sent]
    ensures Clean(p, me, peer, log + [f]) && Published(p, me, peer, log + [f], sent + 1)
  {
    hide EncodeFrame, Related;
    FramesWanted(p, me, peer, FinishKey(me, peer.msg));
    FramesWanted(p, me, peer, FinishKey(peer, me.msg));
    FramesWanted(p, peer, me, FinishKey(me, peer.msg));
    CleanAppend(p, me, peer, log, f);
  }

  lemma PublishAKeeps(p: Prims, a: Party, b: Party, t: Topic)
    requires Pair(p, a, b) && TopicInv(p, a, b, t) && TopicEnabled(p, a, b, t, PublishA)
    ensures TopicInv(p, a, b, TopicNext(p, a, b, t, PublishA))
  {
    hide HsRun, Clean, Published, PakeFrame, ConfirmFrame, FinishKey, Pair;
    NextSpoken(p, a, b, t.log, t.aRead, t.aSent);
    var f := Spoken(p, a, b)[t.aSent];
    PublishKeeps(p, a, b, t.log, t.aSent, f);
    PublishedAppend(p, b, a, t.log, t.bSent, f);
  }

  lemma PublishBKeeps(p: Prims, a: Party, b: Party, t: Topic)
    requires Pair(p, a, b) && TopicInv(p, a, b, t) && TopicEnabled(p, a, b, t, PublishB)
    ensures TopicInv(p, a, b, TopicNext(p, a, b, t, PublishB))
  {
    hide HsRun, Clean, Published, PakeFrame, ConfirmFrame, FinishKey, Pair;
    PairBack(p, a, b);
    CleanSwap(p, a, b, t.log);
    NextSpoken(p, b, a, t.log, t.bRead, t.bSent);
    var f := Spoken(p, b, a)[t.bSent];
    PublishKeeps(p, b, a, t.log, t.bSent, f);
    CleanSwap(p, b, a, t.log + [f]);
    PublishedAppend(p, a, b, t.log, t.aSent, f);
  }

  lemma AppendKeeps(p: Prims, a: Party, b: Party, t: Topic, f: bytes)
    requires TopicInv(p, a, b, t) && Clean(p, a, b, t.log + [f])
    ensures TopicInv(p, a, b, t.(log := t.log + [f]))
  {
    hide Clean, Published;
    PublishedAppend(p, a, b, t.log, t.aSent, f);
    PublishedAppend(p, b, a, t.log, t.bSent, f);
  }

  lemma ReadKeepsTopic(p: Prims, a: Party, b: Party, t: Topic, step: TopicStep)
    requires TopicInv(p, a, b, t) && (step.ReadA? || step.ReadB? || !TopicEnabled(p, a, b, t, step))
    ensures TopicInv(p, a, b, TopicNext(p, a, b, t, step))
  {
    hide HsRun, Clean, Published, Related;
  }

  lemma TopicStepKeeps(p: Prims, a: Party, b: Party, t: Topic, step: TopicStep)
    requires Pair(p, a, b) && TopicInv(p, a, b, t)
    ensures TopicInv(p, a, b, TopicNext(p, a, b, t, step))
  {
    hide HsRun, Clean, Published, Related, Spoken, Pair;
    if step.ReadA? || step.ReadB? || !TopicEnabled(p, a, b, t, step) {
      ReadKeepsTopic(p, a, b, t, step);
    } else {
      match step {
        case PublishA => PublishAKeeps(p, a, b, t);
        case PublishB => PublishBKeeps(p, a, b, t);
        case Replay(i) =>
          ReplayKeeps(p, a, b, t.log, i);
          AppendKeeps(p, a, b, t, t.log[i]);
        case Noise(f) =>
          NoiseKeeps(p, a, b, t.log, f);
          AppendKeeps(p, a, b, t, f);
        case ReadA | ReadB =>
      }
    }
  }

  lemma ReplayKeeps(p: Prims, a: Party, b: Party, log: seq<bytes>, i: nat)
    requires Clean(p, a, b, log) && i < |log|
    ensures Clean(p, a, b, log + [log[i]])
  {
    hide EncodeFrame, Related;
    assert forall f :: f in log[..i] ==> f in log;
    CleanAppend(p, a, b, log, log[i]);
  }

  lemma NoiseKeeps(p: Prims, a: Party, b: Party, log: seq<bytes>, f: bytes)
    requires Clean(p, a, b, log) && !Related(f)
    ensures Clean(p, a, b, log + [f])
  {
    RelatedFrames(p, a, FinishKey(a, b.msg));
    RelatedFrames(p, b, FinishKey(b, a.msg));
    CleanAppend(p, a, b, log, f);
  }

  lemma {:induction false} TopicRunKeeps(p: Prims, a: Party, b: Party, steps: seq<TopicStep>)
    requires Pair(p, a, b)
    ensures TopicInv(p, a, b, TopicRun(p, a, b, steps))
    decreases |steps|
  {
    hide TopicNext, Pair;
    if steps != [] {
      TopicRunKeeps(p, a, b, steps[..|steps| - 1]);
      TopicStepKeeps(p, a, b, TopicRun(p, a, b, steps[..|steps| - 1]), steps[|steps| - 1]);
    }
  }

  /** Agreement over the log: with any echoes, replays and noise, neither party ever reaches
      anything but its verdict, which is the shared key exactly when the codes agree. */
  lemma LogAgreement(p: Prims, a: Party, b: Party, steps: seq<TopicStep>)
    requires Pair(p, a, b)
    ensures var t := TopicRun(p, a, b, steps);
            var pa, pb := HsRun(p, a, t.log[..t.aRead]).phase, HsRun(p, b, t.log[..t.bRead]).phase;
            && (Waiting(pa) || pa == Verdict(a, b)) && (Waiting(pb) || pb == Verdict(b, a))
            && (pa.Ready? && pb.Ready? ==> pa.key == pb.key)
            && (!SameCode(a, b) ==> !pa.Ready? && !pb.Ready?)
  {
    var t := TopicRun(p, a, b, steps);
    TopicRunKeeps(p, a, b, steps);
    CleanPrefix(p, a, b, t.log, t.aRead);
    CleanRun(p, a, b, t.log[..t.aRead]);
    CleanSwap(p, a, b, t.log);
    CleanPrefix(p, b, a, t.log, t.bRead);
    CleanRun(p, b, a, t.log[..t.bRead]);
    SameKeyIff(a, b);
  }

  lemma OutGrows(p: Prims, me: Party, log: seq<bytes>, read: nat)
    requires read < |log|
    ensures |HsRun(p, me, log[..read]).out| <= |HsRun(p, me, log[..read + 1]).out|
  {
    assert log[..read + 1] == log[..read] + [log[read]];
    HsRunSnoc(p, me, log[..read], log[read]);
  }

  ghost predicate WithinOut(p: Prims, me: Party, log: seq<bytes>, read: nat, sent: nat) {
    read <= |log| && sent <= |HsRun(p, me, log[..read]).out|
  }

  lemma AppendWithinOut(p: Prims, me: Party, log: seq<bytes>, read: nat, sent: nat, f: bytes)
    requires WithinOut(p, me, log, read, sent)
    ensures WithinOut(p, me, log + [f], read, sent)
    ensures sent < |HsRun(p, me, log[..read]).out| ==> WithinOut(p, me, log + [f], read, sent + 1)
  {
    assert (log + [f])[..read] == log[..read];
  }

  /** A party has never published more than its code produced. */
  lemma {:induction false} SentWithinOut(p: Prims, a: Party, b: Party, steps: seq<TopicStep>)
    ensures WithinOut(p, a, TopicRun(p, a, b, steps).log, TopicRun(p, a, b, steps).aRead, TopicRun(p, a, b, steps).aSent)
    ensures WithinOut(p, b, TopicRun(p, a, b, steps).log, TopicRun(p, a, b, steps).bRead, TopicRun(p, a, b, steps).bSent)
    decreases |steps|
  {
    if steps != [] {
      hide HsRun, Related, TopicNext;
      SentWithinOut(p, a, b, steps[..|steps| - 1]);
      StepWithinOut(p, a, b, TopicRun(p, a, b, steps[..|steps| - 1]), steps[|steps| - 1]);
    }
  }

  lemma StepWithinOut(p: Prims, a: Party, b: Party, t: Topic, step: TopicStep)
    requires WithinOut(p, a, t.log, t.aRead, t.aSent) && WithinOut(p, b, t.log, t.bRead, t.bSent)
    ensures var t' := TopicNext(p, a, b, t, step);
            WithinOut(p, a, t'.log, t'.aRead, t'.aSent) && WithinOut(p, b, t'.log, t'.bRead, t'.bSent)
  {
    hide HsRun, Related;
    var t' := TopicNext(p, a, b, t, step);
    match step {
      case ReadA =>
        if t.aRead < |t.log| {
          OutGrows(p, a, t.log, t.aRead);
        }
      case ReadB =>
        if t.bRead < |t.log| {
          OutGrows(p, b, t.log, t.bRead);
        }
      case PublishA | PublishB | Replay(_) | Noise(_) =>
        if t' != t {
          var f := t'.log[|t.log|];
          AppendWithinOut(p, a, t.log, t.aRead, t.aSent, f);
          AppendWithinOut(p, b, t.log, t.bRead, t.bSent, f);
        }
    }
  }

  predicate PartiesIdle(p: Prims, a: Party, b: Party, t: Topic)
    requires t.aRead <= |t.log| && t.bRead <= |t.log|
  {
    && !TopicEnabled(p, a, b, t, PublishA) && !TopicEnabled(p, a, b, t, ReadA)
    && !TopicEnabled(p, a, b, t, PublishB) && !TopicEnabled(p, a, b, t, ReadB)
  }

  /** A party that can do nothing has said all it has to say, and is done or has read the whole log. */
  lemma IdleParty(p: Prims, me: Party, peer: Party, log: seq<bytes>, read: nat, sent: nat)
    requires Pair(p, me, peer) && Clean(p, me, peer, log) && WithinOut(p, me, log, read, sent)
    requires sent >= |HsRun(p, me, log[..read]).out|
    requires sent == |HsRun(p, me, log[..read]).out| ==> read == |log| || !Waiting(HsRun(p, me, log[..read]).phase)
    ensures HsRun(p, me, log[..read]) == PhaseFrom(p, me, peer, log[..read])
    ensures sent == |PhaseFrom(p, me, peer, log[..read]).out|
    ensures PhaseFrom(p, me, peer, log[..read]).phase == Verdict(me, peer) || read == |log|
  {
    hide HsRun, Clean;
    CleanPrefix(p, me, peer, log, read);
    CleanRun(p, me, peer, log[..read]);
  }

  /** Two such parties: neither waits for a frame the other has yet to publish. */
  lemma BothHeard(p: Prims, me: Party, peer: Party, log: seq<bytes>, read: nat, peerRead: nat, sent: nat, peerSent: nat)
    requires read <= |log| && peerRead <= |log|
    requires Published(p, me, peer, log, sent) && Published(p, peer, me, log, peerSent)
    requires sent == |PhaseFrom(p, me, peer, log[..read]).out| && peerSent == |PhaseFrom(p, peer, me, log[..peerRead]).out|
    requires PhaseFrom(p, me, peer, log[..read]).phase == Verdict(me, peer) || read == |log|
    requires PhaseFrom(p, peer, me, log[..peerRead]).phase == Verdict(peer, me) || peerRead == |log|
    ensures PhaseFrom(p, me, peer, log[..read]).phase == Verdict(me, peer)
  {
    hide PakeFrame, ConfirmFrame, FinishKey;
    assert log[..|log|] == log;
  }

  /** Nobody is stuck: once neither party can move, both have their verdict. */
  lemma LogNotStuck(p: Prims, a: Party, b: Party, steps: seq<TopicStep>)
    requires Pair(p, a, b) && PartiesIdle(p, a, b, TopicRun(p, a, b, steps))
    ensures var t := TopicRun(p, a, b, steps);
            && HsRun(p, a, t.log[..t.aRead]).phase == Verdict(a, b)
            && HsRun(p, b, t.log[..t.bRead]).phase == Verdict(b, a)
  {
    hide TopicRun, HsRun, Clean, Pair, PhaseFrom, Verdict, Waiting;
    var t := TopicRun(p, a, b, steps);
    TopicRunKeeps(p, a, b, steps);
    SentWithinOut(p, a, b, steps);
    CleanSwap(p, a, b, t.log);
    PairBack(p, a, b);
    IdleParty(p, a, b, t.log, t.aRead, t.aSent);
    IdleParty(p, b, a, t.log, t.bRead, t.bSent);
    BothHeard(p, a, b, t.log, t.aRead, t.bRead, t.aSent, t.bSent);
    BothHeard(p, b, a, t.log, t.bRead, t.aRead, t.bSent, t.aSent);
  }

  /** A step of one of the two parties, and not of the service or somebody else. */
  predicate OwnStep(step: TopicStep) {
    step.PublishA? || step.ReadA? || step.PublishB? || step.ReadB?
  }

  /** Frames still to be published, each to be read twice, and frames still to be read. */
  function LogWork(t: Topic): int {
    12 - 3 * (t.aSent + t.bSent) + (|t.log| - t.aRead) + (|t.log| - t.bRead)
  }

  /** Every step of a party is progress; only replays and noise put the end off. */
  lemma OwnStepLowers(p: Prims, a: Party, b: Party, steps: seq<TopicStep>, step: TopicStep)
    requires Pair(p, a, b)
    ensures LogWork(TopicRun(p, a, b, steps)) >= 0
    ensures TopicEnabled(p, a, b, TopicRun(p, a, b, steps), step) ==>
              LogWork(TopicRun(p, a, b, steps + [step])) == LogWork(TopicRun(p, a, b, steps)) + if OwnStep(step) then -1 else 2
  {
    hide HsRun, Clean, Pair, Related;
    TopicRunKeeps(p, a, b, steps);
    assert (steps + [step])[..|steps|] == steps;
  }

  /** So left to themselves the two finish, from any state a log can get into. */
  lemma {:induction false} LogCanFinish(p: Prims, a: Party, b: Party, steps: seq<TopicStep>) returns (more: seq<TopicStep>)
    requires Pair(p, a, b)
    ensures forall s :: s in more ==> OwnStep(s)
    ensures PartiesIdle(p, a, b, TopicRun(p, a, b, steps + more))
    ensures |more| <= LogWork(TopicRun(p, a, b, steps))
    decreases LogWork(TopicRun(p, a, b, steps))
  {
    hide TopicRun, LogWork, TopicEnabled, Pair;
    var t := TopicRun(p, a, b, steps);
    var step := if TopicEnabled(p, a, b, t, PublishA) then PublishA else if TopicEnabled(p, a, b, t, ReadA) then ReadA
                else if TopicEnabled(p, a, b, t, PublishB) then PublishB else ReadB;
    OwnStepLowers(p, a, b, steps, step);
    if TopicEnabled(p, a, b, t, step) {
      var rest := LogCanFinish(p, a, b, steps + [step]);
      more := [step] + rest;
      assert steps + more == (steps + [step]) + rest;
    } else {
      more := [];
      assert steps + [] == steps;
    }
  }
}
