/** The whole relay session (src/session.rs `send_relay`, `receive_relay`): handshake, then one
    resumable transfer, as two endpoints over the relay links of `Duplex`. */
module EndToEnd {
  import opened Bytes
  import opened Codec
  import opened Crypto
  import opened Handshake
  import opened Store
  import opened Chunks
  import opened Transfer
  import opened Resume
  import opened RelayLink
  import opened Duplex

  /** The primitives, and the encoding of sealed frames on the wire. */
  datatype Setup = Setup(p: Prims, wire: Frame -> bytes, unwire: bytes -> Frame)

  ghost predicate Lossless(x: Setup) {
    forall f :: x.unwire(x.wire(f)) == f
  }

  function Wired(x: Setup, fs: seq<Frame>): (r: seq<bytes>)
    ensures |r| == |fs|
  {
    seq(|fs|, i requires 0 <= i < |fs| => x.wire(fs[i]))
  }

  lemma WiredTake(x: Setup, fs: seq<Frame>, k: nat)
    requires k <= |fs|
    ensures Wired(x, fs[..k]) == Wired(x, fs)[..k]
  {
  }

  // ---------------------------------------------------------------- the two endpoints

  datatype SenderSide = SHandshake(hs: HsTrace) | SStream(key: Key, hsOut: seq<bytes>, t: SenderTrace)

  function SenderSideStep(x: Setup, me: Party, src: Source, s: SenderSide, frame: bytes): SenderSide
    requires Sized(src)
  {
    match s
    case SHandshake(hs) =>
      var hs' := HsStep(x.p, me, hs, frame);
      if hs'.phase.Ready?
      then SStream(StreamKey(hs'.phase.key), hs'.out, SenderRun(StreamKey(hs'.phase.key), src, []))
      else SHandshake(hs')
    case SStream(key, _, t) => s.(t := SenderStep(key, src, t, x.unwire(frame)))
  }

  function SenderSideRun(x: Setup, me: Party, src: Source, inputs: seq<bytes>): SenderSide
    requires Sized(src)
  {
    if inputs == [] then SHandshake(HsRun(x.p, me, []))
    else SenderSideStep(x, me, src, SenderSideRun(x, me, src, inputs[..|inputs| - 1]), inputs[|inputs| - 1])
  }

  /** What the sender has sent, and whether it reads on. */
  function SenderSaid(x: Setup, s: SenderSide): seq<bytes> {
    match s
    case SHandshake(hs) => hs.out
    case SStream(_, hsOut, t) => hsOut + Wired(x, t.out)
  }

  predicate SenderReads(s: SenderSide) {
    match s
    case SHandshake(hs) => Waiting(hs.phase)
    case SStream(_, _, t) => !t.phase.SenderDone?
  }

  function SenderProcess(x: Setup, me: Party, src: Source): Process
    requires Sized(src)
  {
    Process((inputs: seq<bytes>) => SenderSaid(x, SenderSideRun(x, me, src, inputs)),
            (inputs: seq<bytes>) => SenderReads(SenderSideRun(x, me, src, inputs)))
  }

  datatype ReceiverSide = RHandshake(hs: HsTrace, disk: Disk) | RStream(key: Key, hsOut: seq<bytes>, t: ReceiverTrace)

  predicate StagingSide(s: ReceiverSide) {
    s.RStream? ==> Staging(s.t)
  }

  function ReceiverSideStep(x: Setup, me: Party, accept: Manifest -> bool, s: ReceiverSide, frame: bytes): (s': ReceiverSide)
    requires StagingSide(s)
    ensures StagingSide(s')
  {
    match s
    case RHandshake(hs, disk) =>
      var hs' := HsStep(x.p, me, hs, frame);
      if hs'.phase.Ready?
      then RStream(StreamKey(hs'.phase.key), hs'.out, ReceiverStart(disk))
      else RHandshake(hs', disk)
    case RStream(key, _, t) => s.(t := ReceiverStep(key, accept, t, x.unwire(frame)))
  }

  function ReceiverSideRun(x: Setup, me: Party, accept: Manifest -> bool, d: Disk, inputs: seq<bytes>): (s: ReceiverSide)
    ensures StagingSide(s)
  {
    if inputs == [] then RHandshake(HsRun(x.p, me, []), d)
    else ReceiverSideStep(x, me, accept, ReceiverSideRun(x, me, accept, d, inputs[..|inputs| - 1]), inputs[|inputs| - 1])
  }

  function DiskOf(s: ReceiverSide): Disk {
    match s
    case RHandshake(_, disk) => disk
    case RStream(_, _, t) => t.disk
  }

  function ReceiverSaid(x: Setup, s: ReceiverSide): seq<bytes> {
    match s
    case RHandshake(hs, _) => hs.out
    case RStream(_, hsOut, t) => hsOut + Wired(x, t.out)
  }

  predicate ReceiverReads(s: ReceiverSide) {
    match s
    case RHandshake(hs, _) => Waiting(hs.phase)
    case RStream(_, _, t) => !t.phase.ReceiverDone?
  }

  function ReceiverProcess(x: Setup, me: Party, accept: Manifest -> bool, d: Disk): Process {
    Process((inputs: seq<bytes>) => ReceiverSaid(x, ReceiverSideRun(x, me, accept, d, inputs)),
            (inputs: seq<bytes>) => ReceiverReads(ReceiverSideRun(x, me, accept, d, inputs)))
  }

  lemma SenderSideSnoc(x: Setup, me: Party, src: Source, inputs: seq<bytes>, f: bytes)
    requires Sized(src)
    ensures SenderSideRun(x, me, src, inputs + [f]) == SenderSideStep(x, me, src, SenderSideRun(x, me, src, inputs), f)
  {
    assert (inputs + [f])[..|inputs|] == inputs;
  }

  lemma ReceiverSideSnoc(x: Setup, me: Party, accept: Manifest -> bool, d: Disk, inputs: seq<bytes>, f: bytes)
    ensures ReceiverSideRun(x, me, accept, d, inputs + [f])
         == ReceiverSideStep(x, me, accept, ReceiverSideRun(x, me, accept, d, inputs), f)
  {
    assert (inputs + [f])[..|inputs|] == inputs;
  }

  // ---------------------------------------------------------------- one session

  /** The two ends that meet in a room: sender `a` with its source, receiver `b` with its verdict. */
  datatype Ends = Ends(a: Party, b: Party, accept: Manifest -> bool, src: Sendable)

  type Sendable = s: Source | Sized(s) witness TextSource([], "")

  ghost predicate Meet(x: Setup, m: Ends) {
    Lossless(x) && Pair(x.p, m.a, m.b) && m.a.role == Sender && m.b.role == Receiver
  }

  function KeyOf(m: Ends): Key {
    StreamKey(FinishKey(m.a, m.b.msg))
  }

  predicate Agree(m: Ends) {
    SameCode(m.a, m.b)
  }

  /** A payload, and a receiver that takes it. Every other session ends at the manifest. */
  predicate Takes(m: Ends) {
    Payload(m.src) && m.accept(StreamManifest(m.src))
  }

  /** What the receiver holds under this transfer's id has the right shape, should the transfer get
      that far. Nothing is asked of the bytes. */
  ghost predicate Resumable(m: Ends, d: Disk) {
    Agree(m) && Takes(m) ==> Shaped(d, m.src)
  }

  /** The frames each side streams once the key is known. */
  function SenderFrames(m: Ends, d: Disk): seq<Frame>
  {
    if Takes(m) then Transmission(KeyOf(m), m.src, d) else [ManifestFrame(KeyOf(m), m.src)]
  }

  function ReceiverFrames(m: Ends, d: Disk): seq<Frame>
  {
    if Takes(m) then [AckFrame(KeyOf(m), ResumeAck(Start0(d, m.src))), CommitAckFrame(KeyOf(m), Staged(d, m.src))]
    else [AckFrame(KeyOf(m), ShortReply(m.accept, m.src))]
  }

  function SenderScript(x: Setup, m: Ends, d: Disk): seq<bytes>
  {
    Spoken(x.p, m.a, m.b) + (if Agree(m) then Wired(x, SenderFrames(m, d)) else [])
  }

  function ReceiverScript(x: Setup, m: Ends, d: Disk): seq<bytes>
  {
    Spoken(x.p, m.b, m.a) + (if Agree(m) then Wired(x, ReceiverFrames(m, d)) else [])
  }

  /** How the two sides end when the codes agree. */
  function Results(m: Ends, d: Disk): (SenderResult, ReceiverResult) {
    if !Takes(m) then ShortResults(m.accept, m.src)
    else if Staged(d, m.src) then (SenderResult.Complete, Finalized)
    else (FinalizeFailed, HashMismatch)
  }

  lemma SpokenTwo(p: Prims, a: Party, b: Party)
    ensures |Spoken(p, a, b)| == 2
  {
  }

  /** Alignment: the handshake takes exactly the peer's first two frames. */
  lemma SenderHandshake(x: Setup, m: Ends)
    requires Meet(x, m)
    ensures var heard := Spoken(x.p, m.b, m.a);
            && SenderSideRun(x, m.a, m.src, heard[..0]) == SHandshake(HsRun(x.p, m.a, heard[..0]))
            && SenderSideRun(x, m.a, m.src, heard[..1]) == SHandshake(HsRun(x.p, m.a, heard[..1]))
            && SenderSideRun(x, m.a, m.src, heard)
               == if Agree(m) then SStream(KeyOf(m), Spoken(x.p, m.a, m.b), SenderRun(KeyOf(m), m.src, []))
                  else SHandshake(HsRun(x.p, m.a, heard))
  {
    hide HsStep, SenderRun, Pair, Lossless;
    var a, heard := m.a, Spoken(x.p, m.b, m.a);
    InOrder(x.p, a, m.b);
    assert heard[..1] == [] + [heard[0]] && heard == heard[..1] + [heard[1]] && heard[..2] == heard && heard[..0] == [];
    SenderSideSnoc(x, a, m.src, [], heard[0]);
    SenderSideSnoc(x, a, m.src, heard[..1], heard[1]);
    HsRunSnoc(x.p, a, [], heard[0]);
    HsRunSnoc(x.p, a, heard[..1], heard[1]);
  }

  lemma ReceiverHandshake(x: Setup, m: Ends, d: Disk)
    requires Meet(x, m)
    ensures var heard := Spoken(x.p, m.a, m.b);
            && ReceiverSideRun(x, m.b, m.accept, d, heard[..0]) == RHandshake(HsRun(x.p, m.b, heard[..0]), d)
            && ReceiverSideRun(x, m.b, m.accept, d, heard[..1]) == RHandshake(HsRun(x.p, m.b, heard[..1]), d)
            && ReceiverSideRun(x, m.b, m.accept, d, heard)
               == if Agree(m) then RStream(KeyOf(m), Spoken(x.p, m.b, m.a), ReceiverStart(d))
                  else RHandshake(HsRun(x.p, m.b, heard), d)
  {
    hide HsStep, ReceiverStep, Pair, Lossless;
    var b, heard := m.b, Spoken(x.p, m.a, m.b);
    PairBack(x.p, m.a, b);
    InOrder(x.p, b, m.a);
    SameKeyIff(m.a, b);
    assert heard[..1] == [] + [heard[0]] && heard == heard[..1] + [heard[1]] && heard[..2] == heard && heard[..0] == [];
    ReceiverSideSnoc(x, b, m.accept, d, [], heard[0]);
    ReceiverSideSnoc(x, b, m.accept, d, heard[..1], heard[1]);
    HsRunSnoc(x.p, b, [], heard[0]);
    HsRunSnoc(x.p, b, heard[..1], heard[1]);
  }

  /** After the handshake a frame goes to the stream, unwired. */
  lemma SenderStreamsOn(x: Setup, me: Party, src: Source, read: seq<bytes>, key: Key, hsOut: seq<bytes>, fs: seq<Frame>, f: Frame)
    requires Sized(src) && Lossless(x)
    requires SenderSideRun(x, me, src, read) == SStream(key, hsOut, SenderRun(key, src, fs))
    ensures SenderSideRun(x, me, src, read + [x.wire(f)]) == SStream(key, hsOut, SenderRun(key, src, fs + [f]))
  {
    SenderSideSnoc(x, me, src, read, x.wire(f));
    SenderRunSnoc(key, src, fs, f);
    hide SenderRun, SenderSideRun, SenderStep, HsStep;
    assert x.unwire(x.wire(f)) == f;
  }

  lemma ReceiverStreamsOn(x: Setup, me: Party, accept: Manifest -> bool, d: Disk, read: seq<bytes>,
                          key: Key, hsOut: seq<bytes>, fs: seq<Frame>, f: Frame)
    requires Lossless(x)
    requires ReceiverSideRun(x, me, accept, d, read) == RStream(key, hsOut, ReceiverRun(key, accept, d, fs))
    ensures ReceiverSideRun(x, me, accept, d, read + [x.wire(f)]) == RStream(key, hsOut, ReceiverRun(key, accept, d, fs + [f]))
  {
    ReceiverSideSnoc(x, me, accept, d, read, x.wire(f));
    ReceiverRunSnoc(key, accept, d, fs, f);
    hide ReceiverRun, ReceiverSideRun, ReceiverStep, HsStep;
    assert x.unwire(x.wire(f)) == f;
  }

  lemma WiredSnoc(x: Setup, fs: seq<Frame>)
    requires fs != []
    ensures fs == fs[..|fs| - 1] + [fs[|fs| - 1]]
    ensures Wired(x, fs) == Wired(x, fs[..|fs| - 1]) + [x.wire(fs[|fs| - 1])]
  {
  }

  lemma {:induction false} SenderStreams(x: Setup, me: Party, src: Source, head: seq<bytes>, key: Key, hsOut: seq<bytes>, fs: seq<Frame>)
    requires Sized(src) && Lossless(x)
    requires SenderSideRun(x, me, src, head) == SStream(key, hsOut, SenderRun(key, src, []))
    ensures SenderSideRun(x, me, src, head + Wired(x, fs)) == SStream(key, hsOut, SenderRun(key, src, fs))
    decreases |fs|
  {
    hide SenderRun, SenderSideRun, Lossless;
    if fs == [] {
      assert head + Wired(x, fs) == head;
    } else {
      var last := |fs| - 1;
      SenderStreams(x, me, src, head, key, hsOut, fs[..last]);
      WiredSnoc(x, fs);
      assert head + Wired(x, fs) == (head + Wired(x, fs[..last])) + [x.wire(fs[last])];
      SenderStreamsOn(x, me, src, head + Wired(x, fs[..last]), key, hsOut, fs[..last], fs[last]);
    }
  }

  lemma {:induction false} ReceiverStreams(x: Setup, me: Party, accept: Manifest -> bool, d: Disk, head: seq<bytes>,
                                           key: Key, hsOut: seq<bytes>, fs: seq<Frame>)
    requires Lossless(x)
    requires ReceiverSideRun(x, me, accept, d, head) == RStream(key, hsOut, ReceiverStart(d))
    ensures ReceiverSideRun(x, me, accept, d, head + Wired(x, fs)) == RStream(key, hsOut, ReceiverRun(key, accept, d, fs))
    decreases |fs|
  {
    hide ReceiverRun, ReceiverSideRun, Lossless;
    if fs == [] {
      assert head + Wired(x, fs) == head;
      ReceiverRunStart(key, accept, d);
    } else {
      var last := |fs| - 1;
      ReceiverStreams(x, me, accept, d, head, key, hsOut, fs[..last]);
      WiredSnoc(x, fs);
      assert head + Wired(x, fs) == (head + Wired(x, fs[..last])) + [x.wire(fs[last])];
      ReceiverStreamsOn(x, me, accept, d, head + Wired(x, fs[..last]), key, hsOut, fs[..last], fs[last]);
    }
  }

  // ---------------------------------------------------------------- the streams, frame by frame

  lemma FrameCounts(m: Ends, d: Disk)
    ensures |ReceiverFrames(m, d)| == if Takes(m) then 2 else 1
    ensures |SenderFrames(m, d)| >= 1 && SenderFrames(m, d)[0] == ManifestFrame(KeyOf(m), m.src)
    ensures !Takes(m) ==> |SenderFrames(m, d)| == 1
    ensures Takes(m) && Shaped(d, m.src) ==>
              |SenderFrames(m, d)| == 2 + FrameCount(|m.src.content|) - |Start0(d, m.src).have| >= 2
  {
    hide Transmission, Staged, Shaped, ManifestFrame;
    if Takes(m) {
      FirstFrame(KeyOf(m), m.src, d);
      if Shaped(d, m.src) {
        TransmissionShape(KeyOf(m), m.src, d);
      }
    }
  }

  lemma FirstFrame(key: Key, src: Source, d: Disk)
    requires Payload(src)
    ensures |Transmission(key, src, d)| >= 1 && Transmission(key, src, d)[0] == ManifestFrame(key, src)
  {
  }

  /** What the sender has said, and where it stands, after `k` of the receiver's answers. */
  lemma SenderAnswered(m: Ends, d: Disk, k: nat)
    requires k <= |ReceiverFrames(m, d)|
    ensures |SenderFrames(m, d)| >= 1
    ensures SenderRun(KeyOf(m), m.src, ReceiverFrames(m, d)[..k])
         == if k == 0 then SenderTrace(WantAck, SenderFrames(m, d)[..1])
            else SenderTrace(if k < |ReceiverFrames(m, d)| then WantCommitAck else SenderDone(Results(m, d).0), SenderFrames(m, d))
  {
    hide SenderRun, Transmission, ResumeAck, PayloadFrames, KeyOf, StreamManifest, ShortReply, ManifestFrame, AckFrame, CommitAckFrame,
         Staged;
    var fs := ReceiverFrames(m, d);
    FrameCounts(m, d);
    assert fs[..0] == [] && fs[..1] == [fs[0]] && fs[..|fs|] == fs;
    assert SenderFrames(m, d)[..1] == [ManifestFrame(KeyOf(m), m.src)];
    if Takes(m) {
      HonestSender(KeyOf(m), m.src, d, Staged(d, m.src));
    } else {
      ShortKind(m);
      SenderAtReply(KeyOf(m), m.accept, m.src);
    }
  }

  lemma ShortKind(m: Ends)
    requires !Takes(m)
    ensures StreamManifest(m.src).kind == Text || !m.accept(StreamManifest(m.src))
  {
  }

  /** How many answers the receiver has given after `k` frames of the stream. */
  function AnswerCount(m: Ends, d: Disk, k: nat): nat
  {
    if k == 0 then 0 else if k < |SenderFrames(m, d)| then 1 else |ReceiverFrames(m, d)|
  }

  lemma ReceiverAnswers(m: Ends, d: Disk, k: nat)
    requires (Takes(m) ==> Shaped(d, m.src)) && k <= |SenderFrames(m, d)|
    ensures AnswerCount(m, d, k) <= |ReceiverFrames(m, d)|
    ensures var t := ReceiverRun(KeyOf(m), m.accept, d, SenderFrames(m, d)[..k]);
            && t.out == ReceiverFrames(m, d)[..AnswerCount(m, d, k)]
            && (if k < |SenderFrames(m, d)| then !t.phase.ReceiverDone? else t.phase == ReceiverDone(Results(m, d).1))
  {
    hide ReceiverRun, Transmission, KeyOf, Staged, Shaped, StreamManifest, ShortReply, ManifestFrame, AckFrame, CommitAckFrame, ResumeAck;
    FrameCounts(m, d);
    assert ReceiverFrames(m, d)[..|ReceiverFrames(m, d)|] == ReceiverFrames(m, d);
    if Takes(m) {
      PayloadAnswers(KeyOf(m), m.accept, m.src, d, k);
    } else {
      var fs := SenderFrames(m, d);
      ShortKind(m);
      ReceiverAtManifest(KeyOf(m), m.accept, m.src, d);
      ReceiverRunStart(KeyOf(m), m.accept, d);
      assert fs[..0] == [] && fs[..1] == fs;
    }
  }

  lemma PayloadAnswers(key: Key, accept: Manifest -> bool, src: Source, d: Disk, k: nat)
    requires Payload(src) && Shaped(d, src) && accept(StreamManifest(src)) && k <= |Transmission(key, src, d)|
    ensures var t := ReceiverRun(key, accept, d, Transmission(key, src, d)[..k]);
            var ack, cack := AckFrame(key, ResumeAck(Start0(d, src))), CommitAckFrame(key, Staged(d, src));
            && t.out == (if k == 0 then [] else if k < |Transmission(key, src, d)| then [ack] else [ack, cack])
            && (if k < |Transmission(key, src, d)| then !t.phase.ReceiverDone?
                else t.phase == ReceiverDone(if Staged(d, src) then Finalized else HashMismatch))
  {
    hide ReceiverRun, Transmission, ResumeAck, StageAll, Staged, Shaped, WritesOf, ChunkFrames, AckFrame, CommitAckFrame;
    TransmissionShape(key, src, d);
    HonestRun(key, accept, src, d, k);
  }

  // ---------------------------------------------------------------- both endpoints follow the scripts

  /** An endpoint that says `said[..n[k]]` after reading `k` frames of `heard` plays the script. */
  lemma PlaysByLength(p: Process, said: seq<bytes>, heard: seq<bytes>, n: seq<nat>)
    requires |n| == |heard| + 1
    requires forall k :: 0 <= k <= |heard| ==> n[k] <= |said| && p.out(heard[..k]) == said[..n[k]]
    requires forall j, k :: 0 <= j <= k <= |heard| ==> n[j] <= n[k]
    requires forall k :: 0 <= k < |heard| ==> p.wants(heard[..k])
    ensures Plays(p, said, heard)
  {
    forall j, k | 0 <= j <= k <= |heard|
      ensures p.out(heard[..j]) <= p.out(heard[..k])
    {
      assert said[..n[j]] <= said[..n[k]];
    }
  }

  lemma ScriptLengths(x: Setup, m: Ends, d: Disk)
    requires Resumable(m, d)
    ensures |SenderScript(x, m, d)| == 2 + if Agree(m) then |SenderFrames(m, d)| else 0
    ensures |ReceiverScript(x, m, d)| == 2 + if !Agree(m) then 0 else if Takes(m) then 2 else 1
    ensures Agree(m) ==> |SenderScript(x, m, d)| >= if Takes(m) then 4 else 3
    ensures Agree(m) && !Takes(m) ==> |SenderScript(x, m, d)| == 3
  {
    hide Takes, SenderFrames, ReceiverFrames, Spoken, Shaped, Payload;
    SpokenTwo(x.p, m.a, m.b);
    SpokenTwo(x.p, m.b, m.a);
    FrameCounts(m, d);
  }

  /** How much each side has said after `k` of the other's frames. */
  function SenderSays(x: Setup, m: Ends, d: Disk, k: nat): nat
  {
    if k == 0 then 1
    else if k == 1 || !Agree(m) then 2
    else if k == 2 then 3
    else |SenderScript(x, m, d)|
  }

  function ReceiverSays(x: Setup, m: Ends, d: Disk, k: nat): nat
  {
    if k == 0 then 1
    else if k <= 2 || !Agree(m) then 2
    else if k < |SenderScript(x, m, d)| then 3
    else |ReceiverScript(x, m, d)|
  }

  /** Each side's state `k` frames in: shaking hands, or streaming under the common key. */
  lemma SenderAt(x: Setup, m: Ends, d: Disk, k: nat)
    requires Meet(x, m) && k <= |ReceiverScript(x, m, d)|
    ensures var heard := ReceiverScript(x, m, d);
            SenderSideRun(x, m.a, m.src, heard[..k]) ==
              (if k < 2 || !Agree(m) then SHandshake(HsRun(x.p, m.a, heard[..k]))
               else SStream(KeyOf(m), Spoken(x.p, m.a, m.b), SenderRun(KeyOf(m), m.src, ReceiverFrames(m, d)[..k - 2])))
  {
    hide HsRun, SenderRun, SenderSideRun, Pair, ReceiverFrames, EncodeFrame, KeyOf;
    var heard, hello := ReceiverScript(x, m, d), Spoken(x.p, m.b, m.a);
    SenderHandshake(x, m);
    SpokenTwo(x.p, m.b, m.a);
    if k <= 2 {
      assert heard[..k] == hello[..k];
      assert hello[..2] == hello;
    }
    if Agree(m) && k >= 2 {
      var fs := ReceiverFrames(m, d)[..k - 2];
      WiredTake(x, ReceiverFrames(m, d), k - 2);
      assert heard[..k] == hello + Wired(x, fs);
      SenderStreams(x, m.a, m.src, hello, KeyOf(m), Spoken(x.p, m.a, m.b), fs);
    }
  }

  lemma ReceiverAt(x: Setup, m: Ends, d: Disk, k: nat)
    requires Meet(x, m) && k <= |SenderScript(x, m, d)|
    ensures var heard := SenderScript(x, m, d);
            ReceiverSideRun(x, m.b, m.accept, d, heard[..k]) ==
              (if k < 2 || !Agree(m) then RHandshake(HsRun(x.p, m.b, heard[..k]), d)
               else RStream(KeyOf(m), Spoken(x.p, m.b, m.a), ReceiverRun(KeyOf(m), m.accept, d, SenderFrames(m, d)[..k - 2])))
  {
    hide HsRun, ReceiverRun, ReceiverSideRun, Pair, SenderFrames, EncodeFrame, KeyOf;
    var heard, hello := SenderScript(x, m, d), Spoken(x.p, m.a, m.b);
    ReceiverHandshake(x, m, d);
    SpokenTwo(x.p, m.a, m.b);
    if k <= 2 {
      assert heard[..k] == hello[..k];
      assert hello[..2] == hello;
    }
    if Agree(m) && k >= 2 {
      var fs := SenderFrames(m, d)[..k - 2];
      WiredTake(x, SenderFrames(m, d), k - 2);
      assert heard[..k] == hello + Wired(x, fs);
      ReceiverStreams(x, m.b, m.accept, d, hello, KeyOf(m), Spoken(x.p, m.b, m.a), fs);
    }
  }

  /** The opening of a script: the two handshake frames, then the stream. */
  lemma SaidSoFar(x: Setup, mine: seq<bytes>, fs: seq<Frame>, n: nat)
    requires |mine| == 2 && n <= |fs|
    ensures (mine + Wired(x, fs))[..2 + n] == mine + Wired(x, fs[..n])
    ensures (mine + Wired(x, fs))[..2] == mine && (mine + Wired(x, fs))[..1] == mine[..1]
    ensures (mine + [])[..2] == mine && (mine + [])[..1] == mine[..1]
  {
    WiredTake(x, fs, n);
  }

  lemma SenderOut(x: Setup, m: Ends, d: Disk, k: nat)
    requires Meet(x, m) && Resumable(m, d) && k <= |ReceiverScript(x, m, d)|
    ensures SenderSays(x, m, d, k) <= |SenderScript(x, m, d)|
    ensures var s := SenderSideRun(x, m.a, m.src, ReceiverScript(x, m, d)[..k]);
            && SenderSaid(x, s) == SenderScript(x, m, d)[..SenderSays(x, m, d, k)]
            && (SenderReads(s) <==> k < |ReceiverScript(x, m, d)|)
  {
    hide SenderSideRun, SenderRun, HsRun, SenderFrames, ReceiverFrames, KeyOf, Takes, Resumable, Meet, SenderSaid, SenderReads,
         SenderScript, ReceiverScript, Spoken;
    ScriptLengths(x, m, d);
    SenderAt(x, m, d, k);
    if k < 2 || !Agree(m) {
      SenderShaking(x, m, d, k);
    } else {
      SenderStreaming(x, m, d, k);
    }
  }

  lemma SenderShaking(x: Setup, m: Ends, d: Disk, k: nat)
    requires Meet(x, m) && k <= |ReceiverScript(x, m, d)| && (k < 2 || !Agree(m))
    requires !Agree(m) ==> k <= 2
    ensures 2 <= |SenderScript(x, m, d)| && 2 <= |ReceiverScript(x, m, d)|
    ensures var s := SHandshake(HsRun(x.p, m.a, ReceiverScript(x, m, d)[..k]));
            && SenderSaid(x, s) == SenderScript(x, m, d)[..if k == 0 then 1 else 2]
            && (SenderReads(s) <==> k < 2)
  {
    hide HsStep, HsRun, SenderFrames, ReceiverFrames, EncodeFrame, Wired, Lossless, Pair;
    var mine, hello := Spoken(x.p, m.a, m.b), Spoken(x.p, m.b, m.a);
    InOrder(x.p, m.a, m.b);
    assert ReceiverScript(x, m, d)[..k] == hello[..k];
    assert SenderScript(x, m, d)[..2] == mine && SenderScript(x, m, d)[..1] == [mine[0]];
  }

  lemma SenderStreaming(x: Setup, m: Ends, d: Disk, k: nat)
    requires Meet(x, m) && Resumable(m, d) && Agree(m) && 2 <= k <= |ReceiverScript(x, m, d)|
    ensures k - 2 <= |ReceiverFrames(m, d)| && 3 <= |SenderScript(x, m, d)|
    ensures var s := SStream(KeyOf(m), Spoken(x.p, m.a, m.b), SenderRun(KeyOf(m), m.src, ReceiverFrames(m, d)[..k - 2]));
            && SenderSaid(x, s) == SenderScript(x, m, d)[..if k == 2 then 3 else |SenderScript(x, m, d)|]
            && (SenderReads(s) <==> k < |ReceiverScript(x, m, d)|)
  {
    hide SenderRun, SenderFrames, ReceiverFrames, KeyOf, Takes, Meet, Spoken, Results, Resumable;
    SpokenTwo(x.p, m.a, m.b);
    SpokenTwo(x.p, m.b, m.a);
    FrameCounts(m, d);
    SenderAnswered(m, d, k - 2);
    var fs := SenderFrames(m, d);
    SaidSoFar(x, Spoken(x.p, m.a, m.b), fs, 1);
    SaidSoFar(x, Spoken(x.p, m.a, m.b), fs, |fs|);
    assert fs[..|fs|] == fs;
  }

  lemma ReceiverOut(x: Setup, m: Ends, d: Disk, k: nat)
    requires Meet(x, m) && Resumable(m, d) && k <= |SenderScript(x, m, d)|
    ensures ReceiverSays(x, m, d, k) <= |ReceiverScript(x, m, d)|
    ensures var r := ReceiverSideRun(x, m.b, m.accept, d, SenderScript(x, m, d)[..k]);
            && ReceiverSaid(x, r) == ReceiverScript(x, m, d)[..ReceiverSays(x, m, d, k)]
            && (ReceiverReads(r) <==> k < |SenderScript(x, m, d)|)
  {
    hide ReceiverSideRun, ReceiverRun, HsRun, SenderFrames, ReceiverFrames, KeyOf, Takes, Resumable, Meet, ReceiverSaid,
         ReceiverReads, SenderScript, ReceiverScript, Spoken;
    ScriptLengths(x, m, d);
    ReceiverAt(x, m, d, k);
    if k < 2 || !Agree(m) {
      ReceiverShaking(x, m, d, k);
    } else {
      ReceiverStreaming(x, m, d, k);
    }
  }

  lemma ReceiverShaking(x: Setup, m: Ends, d: Disk, k: nat)
    requires Meet(x, m) && k <= |SenderScript(x, m, d)| && (k < 2 || !Agree(m))
    requires !Agree(m) ==> k <= 2
    ensures 2 <= |SenderScript(x, m, d)| && 2 <= |ReceiverScript(x, m, d)|
    ensures var r := RHandshake(HsRun(x.p, m.b, SenderScript(x, m, d)[..k]), d);
            && ReceiverSaid(x, r) == ReceiverScript(x, m, d)[..if k == 0 then 1 else 2]
            && (ReceiverReads(r) <==> k < 2)
  {
    hide HsStep, HsRun, SenderFrames, ReceiverFrames, EncodeFrame, Wired, Lossless, Pair;
    var mine, hello := Spoken(x.p, m.b, m.a), Spoken(x.p, m.a, m.b);
    PairBack(x.p, m.a, m.b);
    InOrder(x.p, m.b, m.a);
    assert SenderScript(x, m, d)[..k] == hello[..k];
    assert ReceiverScript(x, m, d)[..2] == mine && ReceiverScript(x, m, d)[..1] == [mine[0]];
  }

  lemma ReceiverStreaming(x: Setup, m: Ends, d: Disk, k: nat)
    requires Meet(x, m) && Resumable(m, d) && Agree(m) && 2 <= k <= |SenderScript(x, m, d)|
    ensures k - 2 <= |SenderFrames(m, d)| && ReceiverSays(x, m, d, k) <= |ReceiverScript(x, m, d)|
    ensures var r := RStream(KeyOf(m), Spoken(x.p, m.b, m.a), ReceiverRun(KeyOf(m), m.accept, d, SenderFrames(m, d)[..k - 2]));
            && ReceiverSaid(x, r) == ReceiverScript(x, m, d)[..ReceiverSays(x, m, d, k)]
            && (ReceiverReads(r) <==> k < |SenderScript(x, m, d)|)
  {
    hide ReceiverRun, SenderFrames, ReceiverFrames, KeyOf, Takes, Meet, Spoken, Results, Shaped;
    SpokenTwo(x.p, m.a, m.b);
    SpokenTwo(x.p, m.b, m.a);
    FrameCounts(m, d);
    ReceiverAnswers(m, d, k - 2);
    SaidSoFar(x, Spoken(x.p, m.b, m.a), ReceiverFrames(m, d), AnswerCount(m, d, k - 2));
  }

  lemma SaysMore(x: Setup, m: Ends, d: Disk, j: nat, k: nat)
    requires Resumable(m, d) && j <= k
    ensures SenderSays(x, m, d, j) <= SenderSays(x, m, d, k) && ReceiverSays(x, m, d, j) <= ReceiverSays(x, m, d, k)
  {
    hide SenderScript, ReceiverScript, Resumable, Takes, SenderFrames, Agree;
    ScriptLengths(x, m, d);
  }

  lemma SenderPlays(x: Setup, m: Ends, d: Disk)
    requires Meet(x, m) && Resumable(m, d)
    ensures Plays(SenderProcess(x, m.a, m.src), SenderScript(x, m, d), ReceiverScript(x, m, d))
  {
    var heard, said := ReceiverScript(x, m, d), SenderScript(x, m, d);
    var n := seq(|heard| + 1, k requires 0 <= k => SenderSays(x, m, d, k));
    ScriptLengths(x, m, d);
    hide SenderSideRun, SenderSaid, SenderReads, SenderScript, ReceiverScript, Meet, Resumable, SenderSays;
    forall k | 0 <= k <= |heard|
      ensures n[k] <= |said| && SenderProcess(x, m.a, m.src).out(heard[..k]) == said[..n[k]]
      ensures k < |heard| ==> SenderProcess(x, m.a, m.src).wants(heard[..k])
    {
      SenderOut(x, m, d, k);
    }
    forall j, k | 0 <= j <= k <= |heard|
      ensures n[j] <= n[k]
    {
      SaysMore(x, m, d, j, k);
    }
    PlaysByLength(SenderProcess(x, m.a, m.src), said, heard, n);
  }

  lemma ReceiverPlays(x: Setup, m: Ends, d: Disk)
    requires Meet(x, m) && Resumable(m, d)
    ensures Plays(ReceiverProcess(x, m.b, m.accept, d), ReceiverScript(x, m, d), SenderScript(x, m, d))
  {
    var heard, said := SenderScript(x, m, d), ReceiverScript(x, m, d);
    var n := seq(|heard| + 1, k requires 0 <= k => ReceiverSays(x, m, d, k));
    ScriptLengths(x, m, d);
    hide ReceiverSideRun, ReceiverSaid, ReceiverReads, SenderScript, ReceiverScript, Meet, Resumable, ReceiverSays;
    forall k | 0 <= k <= |heard|
      ensures n[k] <= |said| && ReceiverProcess(x, m.b, m.accept, d).out(heard[..k]) == said[..n[k]]
      ensures k < |heard| ==> ReceiverProcess(x, m.b, m.accept, d).wants(heard[..k])
    {
      ReceiverOut(x, m, d, k);
    }
    forall j, k | 0 <= j <= k <= |heard|
      ensures n[j] <= n[k]
    {
      SaysMore(x, m, d, j, k);
    }
    PlaysByLength(ReceiverProcess(x, m.b, m.accept, d), said, heard, n);
  }

  /** The sender waits for each answer, so it never runs ahead of a receiver that has yet to speak. */
  lemma NeverSwamped(x: Setup, m: Ends, d: Disk)
    requires Meet(x, m) && Resumable(m, d)
    ensures NotSwamped(SenderProcess(x, m.a, m.src), ReceiverProcess(x, m.b, m.accept, d),
                       SenderScript(x, m, d), ReceiverScript(x, m, d))
  {
    hide SenderScript, ReceiverScript, Meet, Resumable, SenderProcess, ReceiverProcess, SenderSays, ReceiverSays;
    var ia, ib := SenderScript(x, m, d), ReceiverScript(x, m, d);
    var pa, pb := SenderProcess(x, m.a, m.src), ReceiverProcess(x, m.b, m.accept, d);
    forall k, r | 0 <= k <= |ib| && 0 <= r <= |ia| && k < |pb.out(ia[..r])|
      ensures |pa.out(ib[..k])| <= r + IN_CAPACITY
    {
      OutCounts(x, m, d, k, r);
      SaysBound(x, m, d, k, r);
    }
  }

  lemma SaysBound(x: Setup, m: Ends, d: Disk, k: nat, r: nat)
    requires Resumable(m, d) && r <= |SenderScript(x, m, d)| && k < ReceiverSays(x, m, d, r)
    ensures SenderSays(x, m, d, k) <= r + IN_CAPACITY
  {
    hide SenderScript, ReceiverScript, Resumable, Takes, SenderFrames, Agree;
    ScriptLengths(x, m, d);
  }

  lemma OutCounts(x: Setup, m: Ends, d: Disk, k: nat, r: nat)
    requires Meet(x, m) && Resumable(m, d) && k <= |ReceiverScript(x, m, d)| && r <= |SenderScript(x, m, d)|
    ensures |SenderProcess(x, m.a, m.src).out(ReceiverScript(x, m, d)[..k])| == SenderSays(x, m, d, k)
    ensures |ReceiverProcess(x, m.b, m.accept, d).out(SenderScript(x, m, d)[..r])| == ReceiverSays(x, m, d, r)
  {
    hide SenderSideRun, SenderSaid, SenderReads, ReceiverSideRun, ReceiverSaid, ReceiverReads, SenderScript, ReceiverScript, Meet,
         Resumable, SenderProcess, ReceiverProcess, SenderSays, ReceiverSays;
    ProcessesSay(x, m, d, ReceiverScript(x, m, d)[..k], SenderScript(x, m, d)[..r]);
    SenderOut(x, m, d, k);
    ReceiverOut(x, m, d, r);
  }

  // ---------------------------------------------------------------- main results

  function Reached(x: Setup, m: Ends, d: Disk, steps: seq<WorldStep>): World
  {
    WorldRun(SenderProcess(x, m.a, m.src), ReceiverProcess(x, m.b, m.accept, d), START, steps)
  }

  function SenderEnd(x: Setup, m: Ends, w: World): SenderSide
  {
    SenderSideRun(x, m.a, m.src, w.up.received)
  }

  function ReceiverEnd(x: Setup, m: Ends, d: Disk, w: World): (r: ReceiverSide)
    ensures StagingSide(r)
  {
    ReceiverSideRun(x, m.b, m.accept, d, w.down.received)
  }

  lemma SessionOnScript(x: Setup, m: Ends, d: Disk, steps: seq<WorldStep>)
    requires Meet(x, m) && Resumable(m, d)
    ensures var w := Reached(x, m, d, steps);
            && WorldInv(SenderProcess(x, m.a, m.src), ReceiverProcess(x, m.b, m.accept, d),
                        SenderScript(x, m, d), ReceiverScript(x, m, d), w)
            && w.down.received <= SenderScript(x, m, d) && w.up.received <= ReceiverScript(x, m, d)
  {
    SenderPlays(x, m, d);
    ReceiverPlays(x, m, d);
    hide SenderProcess, ReceiverProcess, Plays, WorldInv, SenderScript, ReceiverScript, Meet, Resumable;
    AlwaysOnScript(SenderProcess(x, m.a, m.src), ReceiverProcess(x, m.b, m.accept, d),
                   SenderScript(x, m, d), ReceiverScript(x, m, d), steps);
  }

  /** What the schedule cannot change: each side has read a prefix of the other's script, and
      said no more than its own script has by then. */
  lemma SessionParts(x: Setup, m: Ends, d: Disk, steps: seq<WorldStep>)
    requires Meet(x, m) && Resumable(m, d)
    ensures var w, ia, ib := Reached(x, m, d, steps), SenderScript(x, m, d), ReceiverScript(x, m, d);
            var i, j := |w.up.received|, |w.down.received|;
            && i <= |ib| && w.up.received == ib[..i]
            && j <= |ia| && w.down.received == ia[..j]
            && |w.down.submitted| <= SenderSays(x, m, d, i) && |w.up.submitted| <= ReceiverSays(x, m, d, j)
            && Inv(w.up) && Inv(w.down)
  {
    hide Reached, Resumable, SenderScript, ReceiverScript, Inv, Meet, SenderSays, ReceiverSays, SenderSideRun, ReceiverSideRun,
         SenderSaid, ReceiverSaid, SenderReads, ReceiverReads, WorldInv, SenderProcess, ReceiverProcess;
    var w, ia, ib := Reached(x, m, d, steps), SenderScript(x, m, d), ReceiverScript(x, m, d);
    SessionOnScript(x, m, d, steps);
    var i, j := |w.up.received|, |w.down.received|;
    assert w.up.received == ib[..i] && w.down.received == ia[..j];
    SenderOut(x, m, d, i);
    ReceiverOut(x, m, d, j);
    ProcessesSay(x, m, d, w.up.received, w.down.received);
    OnScriptParts(SenderProcess(x, m.a, m.src), ReceiverProcess(x, m.b, m.accept, d), ia, ib, w);
  }

  lemma OnScriptParts(a: Process, b: Process, ia: seq<bytes>, ib: seq<bytes>, w: World)
    requires WorldInv(a, b, ia, ib, w)
    ensures Inv(w.up) && Inv(w.down)
    ensures w.down.submitted <= a.out(w.up.received) && w.up.submitted <= b.out(w.down.received)
  {
    hide Inv;
  }

  /** Agreement, under any schedule and any cut: a side that has a key has the key of the common
      code, after exactly the peer's first two frames; with different codes neither ever has one. */
  lemma KeysAgree(x: Setup, m: Ends, d: Disk, steps: seq<WorldStep>)
    requires Meet(x, m) && Resumable(m, d)
    ensures var w := Reached(x, m, d, steps);
            var s, r := SenderEnd(x, m, w), ReceiverEnd(x, m, d, w);
            && (s.SStream? <==> Agree(m) && |w.up.received| >= 2)
            && (r.RStream? <==> Agree(m) && |w.down.received| >= 2)
            && (s.SStream? ==> s.key == KeyOf(m)) && (r.RStream? ==> r.key == KeyOf(m))
  {
    hide Meet, Resumable, Reached, SenderSideRun, ReceiverSideRun, HsRun, SenderScript, ReceiverScript, Agree, KeyOf,
         Inv, SenderSays, ReceiverSays, SenderRun, ReceiverRun, SenderFrames, ReceiverFrames, Spoken;
    SessionParts(x, m, d, steps);
    SenderAt(x, m, d, |Reached(x, m, d, steps).up.received|);
    ReceiverAt(x, m, d, |Reached(x, m, d, steps).down.received|);
  }

  /** Any schedule, stopped anywhere: the disk is what some prefix of the stream leaves, its staging as
      right or as wrong as before, and only right staging is ever handed over, as the source. With
      different codes, and where the session ends at the manifest, the disk is untouched. */
  lemma AnyScheduleAnyCut(x: Setup, m: Ends, d: Disk, steps: seq<WorldStep>)
    requires Meet(x, m) && Resumable(m, d)
    ensures var w := Reached(x, m, d, steps);
            var read, e := |w.down.received|, DiskOf(ReceiverEnd(x, m, d, w));
            && read <= |SenderScript(x, m, d)|
            && (read < 2 || !Agree(m) || !Takes(m) ==> e == d)
            && (read >= 2 && Agree(m) ==>
                  read - 2 <= |SenderFrames(m, d)|
                  && e == ReceiverRun(KeyOf(m), m.accept, d, SenderFrames(m, d)[..read - 2]).disk)
            && (Shaped(d, m.src) ==> Shaped(e, m.src)) && (Staged(e, m.src) <==> Staged(d, m.src))
            && (e.saved == d.saved || (Staged(d, m.src) && e.saved == Some(m.src.content)))
            && (e.unpacked == d.unpacked || (Staged(d, m.src) && e.unpacked == Some(m.src.content)))
  {
    hide Reached, SenderScript, ReceiverScript, Meet, SenderSideRun, ReceiverSideRun, Inv, SenderSays, ReceiverSays, HsRun,
         ReceiverRun, SenderFrames, Staged, Shaped, KeyOf, Takes, Spoken, Agree;
    SessionParts(x, m, d, steps);
    ScriptLengths(x, m, d);
    var read := |Reached(x, m, d, steps).down.received|;
    ReceiverAt(x, m, d, read);
    if read >= 2 && Agree(m) {
      PrefixDisk(m, d, read - 2);
    }
  }

  /** The disk `k` frames into the stream. */
  lemma PrefixDisk(m: Ends, d: Disk, k: nat)
    requires (Takes(m) ==> Shaped(d, m.src)) && k <= |SenderFrames(m, d)|
    ensures var e := ReceiverRun(KeyOf(m), m.accept, d, SenderFrames(m, d)[..k]).disk;
            && (!Takes(m) ==> e == d)
            && (Shaped(d, m.src) ==> Shaped(e, m.src)) && (Staged(e, m.src) <==> Staged(d, m.src))
            && (e == d || e.stateFile.None? || Matches(e.stateFile.value, m.src.transferId, |m.src.content|, FRAME))
            && (if Takes(m) && k == |SenderFrames(m, d)| && Staged(d, m.src)
                then e.stateFile.None? && HandedOver(d, m.src, e)
                else e.saved == d.saved && e.unpacked == d.unpacked)
  {
    hide ReceiverRun, Transmission, Staged, Shaped, HandedOver, KeyOf, ManifestFrame, Results, StreamManifest;
    FrameCounts(m, d);
    if Takes(m) {
      PayloadPrefixDisk(KeyOf(m), m.accept, m.src, d, k);
    } else {
      ShortKind(m);
      ReceiverAtManifest(KeyOf(m), m.accept, m.src, d);
      ReceiverRunStart(KeyOf(m), m.accept, d);
      var fs := SenderFrames(m, d);
      assert fs[..0] == [] && fs[..1] == fs;
    }
  }

  /** The source came out, where its kind says, and the staging folder is gone. */
  predicate HandedOver(before: Disk, src: Source, after: Disk) {
    var tar := src.Blob? && src.kind == Tar;
    after == Disk([], None, NoTmp, if tar then before.saved else Some(src.content), if tar then Some(src.content) else before.unpacked)
  }

  lemma PayloadPrefixDisk(key: Key, accept: Manifest -> bool, src: Source, d: Disk, k: nat)
    requires Payload(src) && Shaped(d, src) && accept(StreamManifest(src)) && k <= |Transmission(key, src, d)|
    ensures var e := ReceiverRun(key, accept, d, Transmission(key, src, d)[..k]).disk;
            && Shaped(e, src) && (Staged(e, src) <==> Staged(d, src))
            && (e == d || e.stateFile.None? || Matches(e.stateFile.value, src.transferId, |src.content|, FRAME))
            && (if k == |Transmission(key, src, d)| && Staged(d, src)
                then e.stateFile.None? && HandedOver(d, src, e)
                else e.saved == d.saved && e.unpacked == d.unpacked)
  {
    hide ReceiverRun, Transmission, Faithful, LoadState, StageAll, ResumeAck, WritesOf, Missing, Shaped;
    TransmissionShape(key, src, d);
    HonestRun(key, accept, src, d, k);
    if k == 0 {
      ReceiverRunStart(key, accept, d);
      assert Transmission(key, src, d)[..0] == [];
    } else if k <= |Missing(d, src)| + 1 {
      InterruptedDisk(Resume.Session(key, k, None), src, accept, d);
    } else {
      AllStaged(d, src);
      HandoverClean(StageAll(OpenFor(d, src), src.content, Missing(d, src)), src);
    }
  }

  lemma HandoverClean(d: Disk, src: Source)
    requires src.Blob?
    ensures Handover(d, src).stateFile.None?
    ensures Staged(Handover(d, src), src) && Shaped(Handover(d, src), src)
  {
  }

  /** Every frame either side has to say is one the relay takes. */
  ghost predicate BothFit(x: Setup, m: Ends, d: Disk)
  {
    FramesFit(SenderScript(x, m, d)) && FramesFit(ReceiverScript(x, m, d))
  }

  predicate Fits(f: bytes) {
    |f| <= MAX_LOGICAL_FRAME
  }

  /** Of all the frames only two can outgrow the relay: the manifest and the receiver's reply to it,
      which grow with the number of entries and of staged runs. When the handshake frames and the
      sealed chunks, commit and result fit, as their bounded sizes make them, the sessions whose
      frames all fit are exactly those whose manifest and reply pass the sender's guard. */
  lemma GuardDecides(x: Setup, m: Ends, d: Disk)
    requires Agree(m) && Resumable(m, d) && FramesFit(Spoken(x.p, m.a, m.b)) && FramesFit(Spoken(x.p, m.b, m.a))
    requires Takes(m) ==>
               && (forall i :: 0 <= i < FrameCount(|m.src.content|) ==> Fits(x.wire(ChunkFrame(KeyOf(m), m.src.content, i))))
               && Fits(x.wire(CommitFrame(KeyOf(m), m.src.content)))
               && (forall ok :: Fits(x.wire(CommitAckFrame(KeyOf(m), ok))))
    ensures |ReceiverFrames(m, d)| >= 1
    ensures BothFit(x, m, d) <==> Fits(x.wire(ManifestFrame(KeyOf(m), m.src))) && Fits(x.wire(ReceiverFrames(m, d)[0]))
  {
    hide Takes, SenderFrames, ReceiverFrames, KeyOf, Shaped, Spoken, ManifestFrame, ChunkFrame, CommitFrame, CommitAckFrame;
    FrameCounts(m, d);
    var out, back := SenderFrames(m, d), ReceiverFrames(m, d);
    forall k | 1 <= k < |out|
      ensures Fits(x.wire(out[k]))
    {
      LaterFramesFit(x, m, d, k);
    }
    forall k | 1 <= k < |back|
      ensures Fits(x.wire(back[k]))
    {
      SecondReply(m, d);
    }
    ScriptFits(x, Spoken(x.p, m.a, m.b), out);
    ScriptFits(x, Spoken(x.p, m.b, m.a), back);
  }

  lemma LaterFramesFit(x: Setup, m: Ends, d: Disk, k: nat)
    requires Resumable(m, d) && Agree(m) && 1 <= k < |SenderFrames(m, d)|
    requires Takes(m) ==>
               && (forall i :: 0 <= i < FrameCount(|m.src.content|) ==> Fits(x.wire(ChunkFrame(KeyOf(m), m.src.content, i))))
               && Fits(x.wire(CommitFrame(KeyOf(m), m.src.content)))
    ensures Fits(x.wire(SenderFrames(m, d)[k]))
  {
    hide Shaped, KeyOf, Transmission, Missing, ChunkFrame, CommitFrame, ManifestFrame, Fits;
    TransmissionAt(KeyOf(m), m.src, d, k);
  }

  lemma SecondReply(m: Ends, d: Disk)
    requires |ReceiverFrames(m, d)| == 2
    ensures Takes(m) && ReceiverFrames(m, d)[1] == CommitAckFrame(KeyOf(m), Staged(d, m.src))
  {
  }

  lemma ScriptFits(x: Setup, hello: seq<bytes>, fs: seq<Frame>)
    requires FramesFit(hello)
    ensures FramesFit(hello + Wired(x, fs)) <==> forall k :: 0 <= k < |fs| ==> Fits(x.wire(fs[k]))
  {
    var script := hello + Wired(x, fs);
    forall k | 0 <= k < |fs|
      ensures x.wire(fs[k]) in script
    {
      assert script[|hello| + k] == x.wire(fs[k]);
    }
    assert forall f :: f in script ==> f in hello || f in Wired(x, fs);
  }

  ghost predicate Stopped(x: Setup, m: Ends, d: Disk, w: World)
  {
    Idle(SenderProcess(x, m.a, m.src), ReceiverProcess(x, m.b, m.accept, d), w)
  }

  /** A sender that has heard everything has been answered everything, so every frame fitted. */
  lemma HeardMeansFit(x: Setup, m: Ends, d: Disk, steps: seq<WorldStep>)
    requires Meet(x, m) && Resumable(m, d)
    requires |Reached(x, m, d, steps).up.received| == |ReceiverScript(x, m, d)|
    requires Agree(m) || |Reached(x, m, d, steps).down.received| == |SenderScript(x, m, d)|
    ensures BothFit(x, m, d)
    ensures Reached(x, m, d, steps).down.received == SenderScript(x, m, d)
  {
    hide Reached, Resumable, SenderScript, ReceiverScript, Inv, Meet, Takes, SenderFrames, Agree;
    var w := Reached(x, m, d, steps);
    var ia, ib := SenderScript(x, m, d), ReceiverScript(x, m, d);
    SessionParts(x, m, d, steps);
    ScriptLengths(x, m, d);
    SubmittedFits(w.up);
    SubmittedFits(w.down);
    assert |w.down.received| == |ia|;
    assert ib[..|ib|] == ib && ia[..|ia|] == ia;
  }

  lemma SubmittedFits(l: Link)
    requires Inv(l)
    ensures FramesFit(l.submitted) && FramesFit(l.received) && l.received <= l.submitted
  {
    InvAlive(l);
    Delivery(l);
  }

  /** Once nothing can move, everything has been read exactly when every frame fits the relay. */
  lemma StoppedReadsAll(x: Setup, m: Ends, d: Disk, steps: seq<WorldStep>)
    requires Meet(x, m) && Resumable(m, d) && Stopped(x, m, d, Reached(x, m, d, steps))
    ensures var w := Reached(x, m, d, steps);
            BothFit(x, m, d) <==> w.down.received == SenderScript(x, m, d) && w.up.received == ReceiverScript(x, m, d)
  {
    hide Reached, Resumable, SenderScript, ReceiverScript, Meet, BothFit, Stopped;
    var w := Reached(x, m, d, steps);
    if w.down.received == SenderScript(x, m, d) && w.up.received == ReceiverScript(x, m, d) {
      HeardMeansFit(x, m, d, steps);
    }
    if BothFit(x, m, d) {
      FittingIsRead(x, m, d, steps);
    }
  }

  lemma FittingIsRead(x: Setup, m: Ends, d: Disk, steps: seq<WorldStep>)
    requires Meet(x, m) && Resumable(m, d) && Stopped(x, m, d, Reached(x, m, d, steps)) && BothFit(x, m, d)
    ensures Reached(x, m, d, steps).down.received == SenderScript(x, m, d)
    ensures Reached(x, m, d, steps).up.received == ReceiverScript(x, m, d)
  {
    hide Reached, SenderScript, ReceiverScript, Meet, Resumable, SenderProcess, ReceiverProcess, Inv, Takes, SenderFrames,
         SenderSays, ReceiverSays, Agree;
    var w := Reached(x, m, d, steps);
    var ia, ib := SenderScript(x, m, d), ReceiverScript(x, m, d);
    StoppedCounts(x, m, d, steps);
    SessionParts(x, m, d, steps);
    SaysFixpoint(x, m, d, |w.up.received|, |w.down.received|);
    assert ib[..|ib|] == ib && ia[..|ia|] == ia;
  }

  /** With nothing left to move, each side has read all the other has said. */
  lemma StoppedCounts(x: Setup, m: Ends, d: Disk, steps: seq<WorldStep>)
    requires Meet(x, m) && Resumable(m, d) && Stopped(x, m, d, Reached(x, m, d, steps)) && BothFit(x, m, d)
    ensures var w := Reached(x, m, d, steps);
            && |w.down.received| == SenderSays(x, m, d, |w.up.received|)
            && |w.up.received| == ReceiverSays(x, m, d, |w.down.received|)
  {
    var w := Reached(x, m, d, steps);
    var ia, ib := SenderScript(x, m, d), ReceiverScript(x, m, d);
    SessionOnScript(x, m, d, steps);
    SessionParts(x, m, d, steps);
    ScriptLengths(x, m, d);
    SenderPlays(x, m, d);
    ReceiverPlays(x, m, d);
    NeverSwamped(x, m, d);
    hide SenderProcess, ReceiverProcess, Plays, NotSwamped, WorldInv, Reached, SenderScript, ReceiverScript, Meet, Resumable, Inv,
         SenderSays, ReceiverSays, SenderFrames, Takes, SenderSideRun, ReceiverSideRun, SenderSaid, ReceiverSaid;
    ProcessesSay(x, m, d, w.up.received, w.down.received);
    IdleIsFinished(SenderProcess(x, m.a, m.src), ReceiverProcess(x, m.b, m.accept, d), ia, ib, w);
    SenderOut(x, m, d, |w.up.received|);
    ReceiverOut(x, m, d, |w.down.received|);
  }

  lemma ProcessesSay(x: Setup, m: Ends, d: Disk, heardUp: seq<bytes>, heardDown: seq<bytes>)
    ensures SenderProcess(x, m.a, m.src).out(heardUp) == SenderSaid(x, SenderSideRun(x, m.a, m.src, heardUp))
    ensures ReceiverProcess(x, m.b, m.accept, d).out(heardDown)
         == ReceiverSaid(x, ReceiverSideRun(x, m.b, m.accept, d, heardDown))
  {
  }

  /** Two sides that wait for nothing have reached the ends of their scripts. */
  lemma SaysFixpoint(x: Setup, m: Ends, d: Disk, i: nat, j: nat)
    requires Resumable(m, d)
    requires j == SenderSays(x, m, d, i) && i == ReceiverSays(x, m, d, j)
    ensures i == |ReceiverScript(x, m, d)| && j == |SenderScript(x, m, d)|
  {
    hide SenderScript, ReceiverScript, Resumable, Takes, SenderFrames, Agree;
    ScriptLengths(x, m, d);
  }

  /** Where the two sides are when the session is over. */
  ghost predicate Over(x: Setup, m: Ends, d: Disk, s: SenderSide, r: ReceiverSide)
  {
    if Agree(m) then
      && s == SStream(KeyOf(m), Spoken(x.p, m.a, m.b), SenderTrace(SenderDone(Results(m, d).0), SenderFrames(m, d)))
      && r == RStream(KeyOf(m), Spoken(x.p, m.b, m.a), ReceiverRun(KeyOf(m), m.accept, d, SenderFrames(m, d)))
      && r.t.phase == ReceiverDone(Results(m, d).1)
    else
      && s == SHandshake(HsTrace(HsFailed(CodeMismatch), Spoken(x.p, m.a, m.b)))
      && r == RHandshake(HsTrace(HsFailed(CodeMismatch), Spoken(x.p, m.b, m.a)), d)
  }

  predicate NeitherReads(s: SenderSide, r: ReceiverSide) {
    !SenderReads(s) && !ReceiverReads(r)
  }

  /** Two sides that have read everything are where they should be. */
  lemma AllReadIsOver(x: Setup, m: Ends, d: Disk)
    requires Meet(x, m) && Resumable(m, d)
    ensures Over(x, m, d, SenderSideRun(x, m.a, m.src, ReceiverScript(x, m, d)),
                 ReceiverSideRun(x, m.b, m.accept, d, SenderScript(x, m, d)))
  {
    hide SenderRun, ReceiverRun, SenderSideRun, ReceiverSideRun, SenderFrames, ReceiverFrames, KeyOf, Results, Spoken, Shaped,
         HsRun, Takes, SenderScript, ReceiverScript, Meet, Agree;
    SenderAllRead(x, m, d);
    ReceiverAllRead(x, m, d);
    if Agree(m) {
      AllStreamed(m, d);
    } else {
      MismatchEnds(x, m, d);
    }
  }

  lemma SenderAllRead(x: Setup, m: Ends, d: Disk)
    requires Meet(x, m) && Resumable(m, d)
    ensures SenderSideRun(x, m.a, m.src, ReceiverScript(x, m, d))
         == if !Agree(m) then SHandshake(HsRun(x.p, m.a, ReceiverScript(x, m, d)))
            else SStream(KeyOf(m), Spoken(x.p, m.a, m.b),
                         SenderRun(KeyOf(m), m.src, ReceiverFrames(m, d)[..|ReceiverFrames(m, d)|]))
  {
    hide SenderRun, SenderSideRun, ReceiverFrames, KeyOf, Spoken, HsRun, Takes, ReceiverScript, Meet, Agree, SenderFrames;
    var ib := ReceiverScript(x, m, d);
    ScriptLengths(x, m, d);
    FrameCounts(m, d);
    SenderAt(x, m, d, |ib|);
    assert ib[..|ib|] == ib;
  }

  lemma ReceiverAllRead(x: Setup, m: Ends, d: Disk)
    requires Meet(x, m) && Resumable(m, d)
    ensures ReceiverSideRun(x, m.b, m.accept, d, SenderScript(x, m, d))
         == if !Agree(m) then RHandshake(HsRun(x.p, m.b, SenderScript(x, m, d)), d)
            else RStream(KeyOf(m), Spoken(x.p, m.b, m.a),
                         ReceiverRun(KeyOf(m), m.accept, d, SenderFrames(m, d)[..|SenderFrames(m, d)|]))
  {
    hide ReceiverRun, ReceiverSideRun, SenderFrames, ReceiverFrames, KeyOf, Spoken, HsRun, Takes, SenderScript, Meet, Agree, Resumable, Shaped;
    var ia := SenderScript(x, m, d);
    ScriptLengths(x, m, d);
    ReceiverAt(x, m, d, |ia|);
    assert ia[..|ia|] == ia;
  }

  lemma AllStreamed(m: Ends, d: Disk)
    requires (Takes(m) ==> Shaped(d, m.src))
    ensures SenderRun(KeyOf(m), m.src, ReceiverFrames(m, d)[..|ReceiverFrames(m, d)|])
         == SenderTrace(SenderDone(Results(m, d).0), SenderFrames(m, d))
    ensures ReceiverRun(KeyOf(m), m.accept, d, SenderFrames(m, d)).phase == ReceiverDone(Results(m, d).1)
    ensures SenderFrames(m, d)[..|SenderFrames(m, d)|] == SenderFrames(m, d)
  {
    FrameCounts(m, d);
    hide SenderRun, ReceiverRun, SenderFrames, ReceiverFrames, KeyOf, Results, Shaped, Takes;
    SenderAnswered(m, d, |ReceiverFrames(m, d)|);
    ReceiverAnswers(m, d, |SenderFrames(m, d)|);
    assert SenderFrames(m, d)[..|SenderFrames(m, d)|] == SenderFrames(m, d);
  }

  lemma MismatchEnds(x: Setup, m: Ends, d: Disk)
    requires Meet(x, m) && !Agree(m)
    ensures HsRun(x.p, m.a, ReceiverScript(x, m, d)) == HsTrace(HsFailed(CodeMismatch), Spoken(x.p, m.a, m.b))
    ensures HsRun(x.p, m.b, SenderScript(x, m, d)) == HsTrace(HsFailed(CodeMismatch), Spoken(x.p, m.b, m.a))
  {
    hide HsRun, Pair, Lossless;
    InOrder(x.p, m.a, m.b);
    PairBack(x.p, m.a, m.b);
    InOrder(x.p, m.b, m.a);
    var sa, sb := Spoken(x.p, m.a, m.b), Spoken(x.p, m.b, m.a);
    SpokenTwo(x.p, m.a, m.b);
    SpokenTwo(x.p, m.b, m.a);
    assert SenderScript(x, m, d) == sa[..2] && ReceiverScript(x, m, d) == sb[..2];
  }

  lemma DoneMeansAllRead(x: Setup, m: Ends, d: Disk, steps: seq<WorldStep>)
    requires Meet(x, m) && Resumable(m, d)
    ensures var w := Reached(x, m, d, steps);
            NeitherReads(SenderEnd(x, m, w), ReceiverEnd(x, m, d, w))
            <==> w.down.received == SenderScript(x, m, d) && w.up.received == ReceiverScript(x, m, d)
  {
    hide Reached, SenderScript, ReceiverScript, Meet, Resumable, SenderSideRun, ReceiverSideRun, Inv, SenderSays, ReceiverSays,
         SenderReads, ReceiverReads, SenderSaid, ReceiverSaid;
    var w := Reached(x, m, d, steps);
    var ia, ib := SenderScript(x, m, d), ReceiverScript(x, m, d);
    SessionParts(x, m, d, steps);
    assert ib[..|ib|] == ib && ia[..|ia|] == ia;
    SenderOut(x, m, d, |w.up.received|);
    ReceiverOut(x, m, d, |w.down.received|);
  }

  /** How every session ends that is not cut, whatever it carries: once nothing can move, both
      sides are done, with the results that the codes, the source and the receiver call for, if and
      only if every frame either side had to say is within the relay's frame limit. */
  lemma UncutSessionEnds(x: Setup, m: Ends, d: Disk, steps: seq<WorldStep>)
    requires Meet(x, m) && Resumable(m, d) && Stopped(x, m, d, Reached(x, m, d, steps))
    ensures var w := Reached(x, m, d, steps);
            var s, r := SenderEnd(x, m, w), ReceiverEnd(x, m, d, w);
            && (NeitherReads(s, r) <==> BothFit(x, m, d))
            && (BothFit(x, m, d) ==> Over(x, m, d, s, r) && |w.down.submitted| == |SenderScript(x, m, d)|)
  {
    StoppedReadsAll(x, m, d, steps);
    DoneMeansAllRead(x, m, d, steps);
    AllReadIsOver(x, m, d);
    SessionOnScript(x, m, d, steps);
    hide Reached, SenderScript, ReceiverScript, Meet, Resumable, SenderSideRun, ReceiverSideRun, Over, NeitherReads, BothFit,
         Stopped, SenderProcess, ReceiverProcess, Inv;
    SubmittedFits(Reached(x, m, d, steps).down);
  }

  predicate BothSucceed(m: Ends, s: SenderSide, r: ReceiverSide) {
    && s.SStream? && s.t.phase == SenderDone(SenderResult.Complete)
    && r.RStream? && r.t.phase == ReceiverDone(Finalized)
  }

  /** A payload session that is not cut, over any staging of the right shape: both sides succeed if and
      only if both scripts fit the relay and what was staged under this id is the source's; then they
      hold one key, exactly the missing chunks were sent, and the receiver has exactly the source. If
      the frames fit but the staging is wrong, the hash tells, both sides report the failure, nothing
      comes out, and the staging is complete and as wrong as before. */
  lemma UncutSessionDelivers(x: Setup, m: Ends, d: Disk, steps: seq<WorldStep>)
    requires Meet(x, m) && Agree(m) && Takes(m) && Shaped(d, m.src)
    requires Stopped(x, m, d, Reached(x, m, d, steps))
    ensures var w := Reached(x, m, d, steps);
            var s, r := SenderEnd(x, m, w), ReceiverEnd(x, m, d, w);
            && (BothSucceed(m, s, r) <==> BothFit(x, m, d) && Staged(d, m.src))
            && (BothSucceed(m, s, r) ==> HandedOver(d, m.src, r.t.disk))
            && (BothFit(x, m, d) ==>
                  && s.SStream? && r.RStream? && s.key == r.key == KeyOf(m)
                  && |w.down.submitted| == 2 + (2 + FrameCount(|m.src.content|) - |Start0(d, m.src).have|))
            && (BothFit(x, m, d) && !Staged(d, m.src) ==> BothReportMismatch(s, r) && StillWrong(d, m.src, r.t.disk))
  {
    hide Reached, SenderScript, ReceiverScript, Meet, SenderSideRun, ReceiverSideRun, BothFit, Staged, Shaped, Stopped, SenderFrames,
         KeyOf, Transmission, Over, BothSucceed, BothReportMismatch, StillWrong, NeitherReads, Agree, Takes, HandedOver;
    UncutSessionEnds(x, m, d, steps);
    ScriptLengths(x, m, d);
    FrameCounts(m, d);
    var w := Reached(x, m, d, steps);
    var s, r := SenderEnd(x, m, w), ReceiverEnd(x, m, d, w);
    if BothSucceed(m, s, r) {
      SuccessIsDone(m, s, r);
    }
    if BothFit(x, m, d) {
      OverPayload(x, m, d, s, r);
    }
  }

  predicate BothReportMismatch(s: SenderSide, r: ReceiverSide) {
    && s.SStream? && s.t.phase == SenderDone(FinalizeFailed)
    && r.RStream? && r.t.phase == ReceiverDone(HashMismatch)
  }

  /** Nothing came out, everything is staged, and it is not the source. */
  predicate StillWrong(before: Disk, src: Source, after: Disk)
    requires Payload(src)
  {
    && after.saved == before.saved && after.unpacked == before.unpacked
    && Shaped(after, src) && !Staged(after, src) && Missing(after, src) == []
  }

  lemma SuccessIsDone(m: Ends, s: SenderSide, r: ReceiverSide)
    requires BothSucceed(m, s, r)
    ensures NeitherReads(s, r)
  {
  }

  lemma OverPayload(x: Setup, m: Ends, d: Disk, s: SenderSide, r: ReceiverSide)
    requires Over(x, m, d, s, r) && Agree(m) && Takes(m) && Shaped(d, m.src)
    ensures s.SStream? && r.RStream? && s.key == r.key == KeyOf(m)
    ensures BothSucceed(m, s, r) <==> Staged(d, m.src)
    ensures Staged(d, m.src) ==> HandedOver(d, m.src, r.t.disk)
    ensures !Staged(d, m.src) ==> BothReportMismatch(s, r) && StillWrong(d, m.src, r.t.disk)
  {
    hide Staged, Shaped, KeyOf, ReceiverRun, SenderRun, Transmission, Spoken, HandedOver, Missing;
    var fs := SenderFrames(m, d);
    PayloadPrefixDisk(KeyOf(m), m.accept, m.src, d, |fs|);
    DeliversExactly(d, m.src, m.accept, KeyOf(m));
    assert fs[..|fs|] == fs;
  }

  /** A sender that reports success proves that every frame of the session fitted the relay, under
      any schedule, stopped or not. */
  lemma SuccessMeansFit(x: Setup, m: Ends, d: Disk, steps: seq<WorldStep>)
    requires Meet(x, m) && Resumable(m, d)
    requires var s := SenderEnd(x, m, Reached(x, m, d, steps)); s.SStream? && s.t.phase.SenderDone?
    ensures BothFit(x, m, d)
  {
    hide Reached, SenderScript, ReceiverScript, Meet, Resumable, SenderSideRun, Inv, SenderSays, ReceiverSays, Agree, KeyOf,
         BothFit;
    SessionParts(x, m, d, steps);
    KeysAgree(x, m, d, steps);
    SenderOut(x, m, d, |Reached(x, m, d, steps).up.received|);
    HeardMeansFit(x, m, d, steps);
  }

  /** A text, or a transfer the receiver declines: both sides learn so, and the disk stays. */
  lemma ShortSessionEnds(x: Setup, m: Ends, d: Disk, steps: seq<WorldStep>)
    requires Meet(x, m) && Agree(m) && !Takes(m)
    requires Stopped(x, m, d, Reached(x, m, d, steps)) && BothFit(x, m, d)
    ensures var w := Reached(x, m, d, steps);
            var s, r := SenderEnd(x, m, w), ReceiverEnd(x, m, d, w);
            && s.SStream? && r.RStream? && s.key == r.key == KeyOf(m) && r.t.disk == d
            && |w.down.submitted| == 3
            && (if m.accept(StreamManifest(m.src))
                then s.t.phase == SenderDone(TextDelivered) && r.t.phase == ReceiverDone(GotText(TextOf(m.src)))
                else s.t.phase == SenderDone(Declined) && r.t.phase == ReceiverDone(Refused))
  {
    hide Reached, SenderScript, ReceiverScript, Meet, SenderSideRun, ReceiverSideRun, BothFit, Stopped, SenderFrames, KeyOf,
         Over, NeitherReads, Agree, Takes, StreamManifest, TextOf;
    UncutSessionEnds(x, m, d, steps);
    ScriptLengths(x, m, d);
    var w := Reached(x, m, d, steps);
    OverShort(x, m, d, SenderEnd(x, m, w), ReceiverEnd(x, m, d, w));
  }

  lemma OverShort(x: Setup, m: Ends, d: Disk, s: SenderSide, r: ReceiverSide)
    requires Over(x, m, d, s, r) && Agree(m) && !Takes(m)
    ensures s.SStream? && r.RStream? && s.key == r.key == KeyOf(m) && r.t.disk == d
    ensures if m.accept(StreamManifest(m.src))
            then s.t.phase == SenderDone(TextDelivered) && r.t.phase == ReceiverDone(GotText(TextOf(m.src)))
            else s.t.phase == SenderDone(Declined) && r.t.phase == ReceiverDone(Refused)
  {
    hide KeyOf, ReceiverRun, Transmission, Spoken, StreamManifest, TextOf;
    var fs := SenderFrames(m, d);
    PrefixDisk(m, d, |fs|);
    assert fs[..|fs|] == fs;
  }

  /** Different codes: once nothing can move, both sides have reported the mismatch. */
  lemma DifferentCodesBothFail(x: Setup, m: Ends, d: Disk, steps: seq<WorldStep>)
    requires Meet(x, m) && !Agree(m) && Stopped(x, m, d, Reached(x, m, d, steps))
    ensures var w := Reached(x, m, d, steps);
            var s, r := SenderEnd(x, m, w), ReceiverEnd(x, m, d, w);
            && (s == SHandshake(HsTrace(HsFailed(CodeMismatch), Spoken(x.p, m.a, m.b)))
                && r == RHandshake(HsTrace(HsFailed(CodeMismatch), Spoken(x.p, m.b, m.a)), d)
                <==> FramesFit(Spoken(x.p, m.a, m.b)) && FramesFit(Spoken(x.p, m.b, m.a)))
  {
    assert BothFit(x, m, d) <==> FramesFit(Spoken(x.p, m.a, m.b)) && FramesFit(Spoken(x.p, m.b, m.a)) by {
      assert SenderScript(x, m, d) == Spoken(x.p, m.a, m.b) && ReceiverScript(x, m, d) == Spoken(x.p, m.b, m.a);
    }
    hide Reached, SenderScript, ReceiverScript, Meet, SenderSideRun, ReceiverSideRun, Stopped, Spoken, BothFit, FramesFit, Agree,
         NeitherReads, Over;
    UncutSessionEnds(x, m, d, steps);
    var w := Reached(x, m, d, steps);
    OverMismatch(x, m, d, SenderEnd(x, m, w), ReceiverEnd(x, m, d, w));
  }

  lemma OverMismatch(x: Setup, m: Ends, d: Disk, s: SenderSide, r: ReceiverSide)
    requires !Agree(m)
    ensures Over(x, m, d, s, r) ==> s == SHandshake(HsTrace(HsFailed(CodeMismatch), Spoken(x.p, m.a, m.b)))
                                    && r == RHandshake(HsTrace(HsFailed(CodeMismatch), Spoken(x.p, m.b, m.a)), d)
    ensures (s == SHandshake(HsTrace(HsFailed(CodeMismatch), Spoken(x.p, m.a, m.b)))
             && r == RHandshake(HsTrace(HsFailed(CodeMismatch), Spoken(x.p, m.b, m.a)), d)) ==> NeitherReads(s, r)
  {
    hide Spoken, SenderFrames, ReceiverRun, KeyOf;
  }

  /** And from any point of any session that has not been cut there is such an end. */
  lemma UncutSessionCanFinish(x: Setup, m: Ends, d: Disk, steps: seq<WorldStep>) returns (more: seq<WorldStep>)
    requires Meet(x, m) && Resumable(m, d)
    ensures Stopped(x, m, d, Reached(x, m, d, steps + more))
  {
    hide SenderProcess, ReceiverProcess, Plays, WorldInv, SenderScript, ReceiverScript, Resumable, WorldRun;
    var pa, pb := SenderProcess(x, m.a, m.src), ReceiverProcess(x, m.b, m.accept, d);
    SessionOnScript(x, m, d, steps);
    SenderPlays(x, m, d);
    ReceiverPlays(x, m, d);
    more := RunsOut(pa, pb, SenderScript(x, m, d), ReceiverScript(x, m, d), Reached(x, m, d, steps));
    WorldRunConcat(pa, pb, START, steps, more);
  }

  lemma {:induction false} WorldRunConcat(a: Process, b: Process, w: World, s: seq<WorldStep>, t: seq<WorldStep>)
    ensures WorldRun(a, b, w, s + t) == WorldRun(a, b, WorldRun(a, b, w, s), t)
    decreases |s|
  {
    hide WorldNext;
    if s == [] {
      assert s + t == t;
    } else {
      assert (s + t)[1..] == s[1..] + t;
      WorldRunConcat(a, b, WorldNext(a, b, w, s[0]), s[1..], t);
    }
  }
}
