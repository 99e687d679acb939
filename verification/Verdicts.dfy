/** What the two sides of the sealed transfer say and report for any frames whatsoever (src/stream.rs
    `send_source`, `recv_into`): every reply and every result, with the frames that lead to it. */
module Verdicts {
  import opened Bytes
  import opened Crypto
  import opened Chunks
  import opened Store
  import opened Runs
  import opened Transfer
  import opened Resume
  import Faults

  // ---------------------------------------------------------------- the sender

  /** `f` is the receiver's sealed reply to the manifest. */
  ghost predicate IsAck(key: Key, f: Frame, accepted: bool) {
    exists complete, runs :: f == Seal(key, StreamToSender, 0, "", AckMsg(accepted, complete, runs))
  }

  /** The receiver's sealed reply to the commit. */
  function CommitReply(key: Key, ok: bool): Frame {
    Seal(key, StreamToSender, 1, "", CommitAckMsg(ok))
  }

  lemma AckOpens(key: Key, f: Frame, accepted: bool)
    ensures IsAck(key, f, accepted) <==>
              var plain := Open<Plain>(key, StreamToSender, 0, "", f);
              plain.Some? && plain.value.AckMsg? && plain.value.accepted == accepted
  {
    hide MakeNonce;
    var plain := Open<Plain>(key, StreamToSender, 0, "", f);
    if plain.Some? && plain.value.AckMsg? && plain.value.accepted == accepted {
      OpensExactly(key, StreamToSender, 0, "", f, plain.value);
      assert f == Seal(key, StreamToSender, 0, "", AckMsg(accepted, plain.value.complete, plain.value.haveRuns));
    }
  }

  lemma CommitReplyOpens(key: Key, f: Frame, ok: bool)
    ensures f == CommitReply(key, ok) <==> Open<Plain>(key, StreamToSender, 1, "", f) == Some(CommitAckMsg(ok))
  {
    OpensExactly(key, StreamToSender, 1, "", f, CommitAckMsg(ok));
  }

  predicate IsText(src: Source)
    requires Sized(src)
  {
    StreamManifest(src).kind == Text
  }

  /** After two frames the sender is done, and stays so. */
  lemma {:induction false} SenderHearsTwo(key: Key, src: Source, inputs: seq<Frame>)
    requires Sized(src) && |inputs| >= 2
    ensures SenderRun(key, src, inputs) == SenderRun(key, src, inputs[..2]) && SenderRun(key, src, inputs).phase.SenderDone?
    decreases |inputs|
  {
    hide PayloadFrames, ManifestFrame, StreamManifest;
    if |inputs| == 2 {
      assert inputs[..2] == inputs;
      assert inputs[..1] == [inputs[0]] && inputs[..1][..0] == [];
    } else {
      var last := |inputs| - 1;
      assert inputs[..last][..2] == inputs[..2];
      SenderHearsTwo(key, src, inputs[..last]);
    }
  }

  lemma SenderFirst(key: Key, src: Source, f: Frame)
    requires Sized(src)
    ensures SenderRun(key, src, [f]) == SenderStep(key, src, SenderTrace(WantAck, [ManifestFrame(key, src)]), f)
    ensures SenderRun(key, src, []) == SenderTrace(WantAck, [ManifestFrame(key, src)])
  {
    hide SenderStep;
    SenderRunSnoc(key, src, [], f);
    assert [] + [f] == [f];
  }

  /** The phase after one frame, whatever it is. */
  lemma AfterOne(key: Key, src: Source, f: Frame)
    requires Sized(src)
    ensures var p := SenderRun(key, src, [f]).phase;
            p == if IsAck(key, f, false) then SenderDone(Declined)
                 else if !IsAck(key, f, true) then SenderDone(BadAck)
                 else if IsText(src) then SenderDone(TextDelivered)
                 else WantCommitAck
  {
    hide MakeNonce, PayloadFrames, StreamManifest, ManifestFrame, IsAck, Open;
    SenderFirst(key, src, f);
    AckOpens(key, f, false);
    AckOpens(key, f, true);
  }

  /** And after two. */
  lemma AfterTwo(key: Key, src: Source, f: Frame, g: Frame)
    requires Sized(src)
    ensures var p := SenderRun(key, src, [f, g]).phase;
            p == if !IsAck(key, f, true) || IsText(src) then SenderRun(key, src, [f]).phase
                 else if g == CommitReply(key, true) then SenderDone(SenderResult.Complete)
                 else if g == CommitReply(key, false) then SenderDone(FinalizeFailed)
                 else SenderDone(BadCommitAck)
  {
    hide MakeNonce, PayloadFrames, StreamManifest, ManifestFrame, IsAck, Open, CommitReply, SenderRun;
    AfterOne(key, src, f);
    OneAnswer(key, f);
    CommitReplyOpens(key, g, true);
    SenderRunSnoc(key, src, [f], g);
    assert [f] + [g] == [f, g];
    CommitReplyOpens(key, g, false);
  }

  /** What the sender reports, for any frames whatsoever: success exactly when an accepting
      acknowledgement of a payload is followed by the receiver's sealed yes, and each failure exactly
      when its own cause is there. */
  lemma SenderReports(key: Key, src: Source, inputs: seq<Frame>)
    requires Sized(src)
    ensures var p := SenderRun(key, src, inputs).phase;
            var said := |inputs| >= 1;
            var yes, no := said && IsAck(key, inputs[0], true), said && IsAck(key, inputs[0], false);
            var asked := |inputs| >= 2 && yes && !IsText(src);
            && (p == SenderDone(SenderResult.Complete) <==> asked && inputs[1] == CommitReply(key, true))
            && (p == SenderDone(FinalizeFailed) <==> asked && inputs[1] == CommitReply(key, false))
            && (p == SenderDone(BadCommitAck) <==>
                  asked && inputs[1] != CommitReply(key, true) && inputs[1] != CommitReply(key, false))
            && (p == SenderDone(Declined) <==> no)
            && (p == SenderDone(BadAck) <==> said && !yes && !no)
            && (p == SenderDone(TextDelivered) <==> yes && IsText(src))
            && (p == WantAck <==> !said)
            && (p == WantCommitAck <==> |inputs| == 1 && yes && !IsText(src))
  {
    hide MakeNonce, IsAck, CommitReply, SenderRun, IsText;
    if |inputs| == 0 {
      assert inputs == [];
      SenderFirst(key, src, Forged([]));
    } else {
      OneAnswer(key, inputs[0]);
      AfterOne(key, src, inputs[0]);
      TwoAnswersDiffer(key);
      if |inputs| == 1 {
        assert inputs == [inputs[0]];
      } else {
        SenderHearsTwo(key, src, inputs);
        assert inputs[..2] == [inputs[0], inputs[1]];
        AfterTwo(key, src, inputs[0], inputs[1]);
      }
    }
  }

  lemma OneAnswer(key: Key, f: Frame)
    ensures !(IsAck(key, f, true) && IsAck(key, f, false))
  {
    AckOpens(key, f, true);
    AckOpens(key, f, false);
  }

  lemma TwoAnswersDiffer(key: Key)
    ensures CommitReply(key, true) != CommitReply(key, false)
  {
  }

  /** A chunk is left out exactly when the acknowledgement says all are there or names it in a run. */
  predicate LeftOut(complete: bool, runs: seq<IndexRun>, i: nat) {
    complete || exists k :: 0 <= k < |runs| && runs[k].start <= i < runs[k].start + runs[k].len
  }

  lemma {:induction false} SentExactly(ack: Plain, i: nat, n: nat)
    requires ack.AckMsg? && i <= n
    ensures forall j: nat :: j in SentFrom(ack, i, n) <==> i <= j < n && !LeftOut(ack.complete, ack.haveRuns, j)
    decreases n - i
  {
    if i < n {
      SentExactly(ack, i + 1, n);
      var rest := SentFrom(ack, i + 1, n);
      assert Skips(ack, i) <==> LeftOut(ack.complete, ack.haveRuns, i);
      hide LeftOut;
      assert forall j :: j in [i] + rest <==> j == i || j in rest;
    }
  }

  /** What the sender transmits, for any acknowledgement whatsoever: the manifest, and if it is accepted
      and a payload, the chunks not left out, each once and in order, and the commit. */
  lemma SenderSends(key: Key, src: Source, inputs: seq<Frame>) returns (sent: seq<nat>)
    requires Sized(src)
    ensures AllBelow(sent, FrameCount(|src.content|)) && Ascending(sent)
    ensures SenderRun(key, src, inputs).out
         == if inputs == [] || !IsAck(key, inputs[0], true) || IsText(src) then [ManifestFrame(key, src)]
            else [ManifestFrame(key, src)] + ChunkFrames(key, src.content, sent) + [CommitFrame(key, src.content)]
    ensures forall complete, runs :: inputs != [] && inputs[0] == Seal(key, StreamToSender, 0, "", AckMsg(true, complete, runs)) ==>
              forall j: nat :: j in sent <==> j < FrameCount(|src.content|) && !LeftOut(complete, runs, j)
  {
    hide MakeNonce, ChunkFrames, CommitFrame, ManifestFrame, TotalChunks, LeftOut, IsAck, SenderRun;
    var n := FrameCount(|src.content|);
    sent := [];
    if inputs == [] {
      SenderFirst(key, src, Forged([]));
    } else {
      var plain := Open<Plain>(key, StreamToSender, 0, "", inputs[0]);
      AckOpens(key, inputs[0], true);
      OutAfterFirst(key, src, inputs);
      SenderFirst(key, src, inputs[0]);
      if plain.Some? && plain.value.AckMsg? {
        sent := SentFrom(plain.value, 0, n);
        SentInRange(plain.value, 0, n);
        SentExactly(plain.value, 0, n);
      }
      forall complete, runs | inputs[0] == Seal(key, StreamToSender, 0, "", AckMsg(true, complete, runs))
        ensures plain == Some(AckMsg(true, complete, runs))
      {
        OpensExactly(key, StreamToSender, 0, "", inputs[0], AckMsg(true, complete, runs));
      }
    }
  }

  /** The second and later frames make the sender send nothing more. */
  lemma {:induction false} OutAfterFirst(key: Key, src: Source, inputs: seq<Frame>)
    requires Sized(src) && inputs != []
    ensures SenderRun(key, src, inputs).out == SenderRun(key, src, [inputs[0]]).out
    ensures !SenderRun(key, src, inputs).phase.WantAck?
    decreases |inputs|
  {
    hide PayloadFrames, ManifestFrame, StreamManifest, Open;
    if |inputs| == 1 {
      assert inputs == [inputs[0]];
      SenderFirst(key, src, inputs[0]);
    } else {
      var last := |inputs| - 1;
      OutAfterFirst(key, src, inputs[..last]);
    }
  }

  // ---------------------------------------------------------------- the receiver, step by step

  function ManifestSeal(key: Key, m: Manifest): Frame {
    Seal(key, StreamToReceiver, 0, "", ManifestMsg(m))
  }

  function Reply(key: Key, plain: Plain): Frame {
    Seal(key, StreamToSender, 0, "", plain)
  }

  ghost predicate IsManifest(key: Key, f: Frame) {
    exists m :: f == ManifestSeal(key, m)
  }

  /** The manifests that are not turned away. */
  predicate Acceptable(accept: Manifest -> bool, m: Manifest) {
    m.version == 1 && (m.kind == Text || m.chunkSize == 16 * 1024) && accept(m)
  }

  /** Why a manifest is turned away, in the order the checks are made. */
  function Refusal(m: Manifest): ReceiverResult {
    if m.version != 1 then VersionMismatch
    else if m.kind != Text && m.chunkSize != 16 * 1024 then BadFrameSize
    else Refused
  }

  /** Waiting for the least chunk not yet there, from `from` on, or for the commit. */
  ghost predicate Awaits(phase: ReceiverPhase, m: Manifest, have: set<nat>, from: nat) {
    var n := FrameCount(m.totalSize);
    if forall j: nat :: from <= j < n ==> j in have then phase == WantCommit(m)
    else
      && phase.WantChunk? && phase.manifest == m && phase.have == have
      && from <= phase.next < n && phase.next !in have
      && forall j: nat :: from <= j < phase.next ==> j in have
  }

  lemma AwaitAwaits(m: Manifest, have: set<nat>, from: nat)
    requires from <= FrameCount(m.totalSize)
    ensures Awaits(Await(m, have, from), m, have, from)
  {
    hide TotalChunks;
    var n := FrameCount(m.totalSize);
    var j := NextMissing(have, from, n);
    assert j < n ==> j !in have;
  }

  lemma ManifestOpens(key: Key, f: Frame)
    ensures IsManifest(key, f) <==>
              var plain := Open<Plain>(key, StreamToReceiver, 0, "", f);
              plain.Some? && plain.value.ManifestMsg?
    ensures forall m :: f == ManifestSeal(key, m) <==> Open<Plain>(key, StreamToReceiver, 0, "", f) == Some(ManifestMsg(m))
  {
    hide MakeNonce, Open;
    forall m
      ensures f == ManifestSeal(key, m) <==> Open<Plain>(key, StreamToReceiver, 0, "", f) == Some(ManifestMsg(m))
    {
      OpensExactly(key, StreamToReceiver, 0, "", f, ManifestMsg(m));
    }
    var plain := Open<Plain>(key, StreamToReceiver, 0, "", f);
    if plain.Some? && plain.value.ManifestMsg? {
      assert f == ManifestSeal(key, plain.value.manifest);
    }
  }

  /** A first frame that is no manifest gets no reply and touches nothing. */
  lemma AtNoManifest(key: Key, accept: Manifest -> bool, d: Disk, f: Frame)
    requires !IsManifest(key, f)
    ensures ReceiverRun(key, accept, d, [f]) == ReceiverTrace(ReceiverDone(BadManifest), d, [], [])
  {
    hide MakeNonce, OnManifest, Open, ReceiverRun, IsManifest;
    ManifestOpens(key, f);
    ReceiverFirst(key, accept, d, f);
  }

  lemma ReceiverFirst(key: Key, accept: Manifest -> bool, d: Disk, f: Frame)
    ensures ReceiverRun(key, accept, d, [f]) == ReceiverStep(key, accept, ReceiverStart(d), f)
  {
    hide ReceiverStep;
    ReceiverRunSnoc(key, accept, d, [], f);
    assert [] + [f] == [f];
  }

  /** A manifest that is turned away gets exactly the refusal, for its own reason, and touches nothing. */
  lemma AtRefused(key: Key, accept: Manifest -> bool, d: Disk, m: Manifest)
    requires !Acceptable(accept, m)
    ensures ReceiverRun(key, accept, d, [ManifestSeal(key, m)])
         == ReceiverTrace(ReceiverDone(Refusal(m)), d, [], [Reply(key, AckMsg(false, false, []))])
  {
    hide MakeNonce, ReceiverRun, OpenOrCreate, Await, ResumeAck;
    ReceiverFirst(key, accept, d, ManifestSeal(key, m));
  }

  /** An acceptable text is delivered with the manifest and touches nothing. */
  lemma AtText(key: Key, accept: Manifest -> bool, d: Disk, m: Manifest)
    requires Acceptable(accept, m) && m.kind == Text
    ensures ReceiverRun(key, accept, d, [ManifestSeal(key, m)])
         == ReceiverTrace(ReceiverDone(GotText(if m.text.Some? then m.text.value else [])), d, [],
                          [Reply(key, AckMsg(true, false, []))])
  {
    hide MakeNonce, ReceiverRun, OpenOrCreate, Await, ResumeAck;
    ReceiverFirst(key, accept, d, ManifestSeal(key, m));
  }

  /** An acceptable payload opens the store, and the reply says exactly what is staged there. */
  lemma AtPayload(key: Key, accept: Manifest -> bool, d: Disk, m: Manifest)
    requires Acceptable(accept, m) && m.kind != Text
    ensures var e := ReceiverRun(key, accept, d, [ManifestSeal(key, m)]);
            var s := LoadState(d, m.transferId, m.totalSize, FRAME);
            && e.disk == OpenOrCreate(d, m.transferId, m.totalSize, FRAME) && e.writes == []
            && Awaits(e.phase, m, s.have, 0)
            && exists complete, runs ::
                 && e.out == [Reply(key, AckMsg(true, complete, runs))]
                 && (complete <==> |s.have| == FrameCount(m.totalSize))
                 && Canonical(runs) && forall i: nat :: Contains(runs, i) <==> i in s.have
  {
    hide MakeNonce, ReceiverRun, Await, TotalChunks, SetLen, Contains, Canonical, Sorted, RunsOf;
    ReceiverFirst(key, accept, d, ManifestSeal(key, m));
    var s := LoadState(d, m.transferId, m.totalSize, FRAME);
    AwaitAwaits(m, s.have, 0);
    SortedExact(s.have);
    RunsExact(Sorted(s.have));
    assert ReceiverRun(key, accept, d, [ManifestSeal(key, m)]).out
        == [Reply(key, AckMsg(true, Store.Complete(s), RunsOf(Sorted(s.have))))];
  }

  function ChunkSeal(key: Key, i: nat, total: u64, pt: bytes): Frame
    requires i < FrameCount(total)
  {
    Seal(key, StreamToReceiver, PayloadIndex(i, total), "", ChunkMsg(pt))
  }

  /** A frame where chunk `i` is due: the right chunk is written there, recorded, and the next missing
      one awaited; one of the wrong length, and any other frame, ends the transfer with nothing done.
      No reply is sent either way. */
  lemma AtChunk(key: Key, accept: Manifest -> bool, t: ReceiverTrace, f: Frame)
    requires Staging(t) && t.phase.WantChunk?
    ensures var e := ReceiverStep(key, accept, t, f);
            var m, i, have := t.phase.manifest, t.phase.next, t.phase.have;
            && (forall pt :: f == ChunkSeal(key, i, m.totalSize, pt) && |pt| == ChunkLen(i, m.totalSize, FRAME) ==>
                  && e.disk == WriteChunk(t.disk, i, pt) && CheckWrite(t.disk.stateFile.value, i, pt) == Written
                  && e.writes == t.writes + [(i, pt)] && e.out == t.out && Awaits(e.phase, m, have, i + 1))
            && (forall pt :: f == ChunkSeal(key, i, m.totalSize, pt) && |pt| != ChunkLen(i, m.totalSize, FRAME) ==>
                  e == t.(phase := ReceiverDone(WriteFailed)))
            && ((forall pt :: f != ChunkSeal(key, i, m.totalSize, pt)) ==> e == t.(phase := ReceiverDone(BadChunk)))
  {
    hide MakeNonce, Open, Await, TotalChunks, ExpectedLen, DiskAt, ChunkLen, PayloadIndex;
    var m, i := t.phase.manifest, t.phase.next;
    var index := PayloadIndex(i, m.totalSize);
    var plain := Open<Plain>(key, StreamToReceiver, index, "", f);
    AwaitAwaits(m, t.phase.have, i + 1);
    ChunkBounds(i, m.totalSize, FRAME);
    forall pt
      ensures f == ChunkSeal(key, i, m.totalSize, pt) <==> plain == Some(ChunkMsg(pt))
    {
      OpensExactly(key, StreamToReceiver, index, "", f, ChunkMsg(pt));
    }
  }

  function CommitSeal(key: Key, total: u64, hash: Digest): Frame {
    Seal(key, StreamToReceiver, PayloadIndex(FrameCount(total), total), "", CommitMsg(hash))
  }

  /** How a commit is judged: all chunks there, and the file of that hash. */
  function Judgement(d: Disk, hash: Digest): ReceiverResult
    requires Opened(d)
  {
    if |d.stateFile.value.have| != TotalChunks(d.stateFile.value.totalSize, d.stateFile.value.chunkSize) then Incomplete
    else if Digest(d.data) != hash then HashMismatch
    else Finalized
  }

  /** A frame where the commit is due: the commit is judged and answered with the verdict, and only a
      yes hands the file over; any other frame ends the transfer without a reply. */
  lemma AtCommit(key: Key, accept: Manifest -> bool, t: ReceiverTrace, f: Frame)
    requires Staging(t) && t.phase.WantCommit?
    ensures var e := ReceiverStep(key, accept, t, f);
            var m := t.phase.manifest;
            && (forall hash :: f == CommitSeal(key, m.totalSize, hash) ==>
                  var verdict := Judgement(t.disk, hash);
                  && e.phase == ReceiverDone(verdict) && e.writes == t.writes
                  && e.out == t.out + [CommitReply(key, verdict == Finalized)]
                  && (verdict != Finalized ==> e.disk == t.disk)
                  && (verdict == Finalized ==>
                        e.disk == Disk([], None, NoTmp,
                                       if m.kind == Tar then t.disk.saved else Some(t.disk.data),
                                       if m.kind == Tar then Some(t.disk.data) else t.disk.unpacked)))
            && ((forall hash :: f != CommitSeal(key, m.totalSize, hash)) ==> e == t.(phase := ReceiverDone(BadCommit)))
  {
    hide MakeNonce, Open, TotalChunks, PayloadIndex;
    var m := t.phase.manifest;
    var index := PayloadIndex(FrameCount(m.totalSize), m.totalSize);
    var plain := Open<Plain>(key, StreamToReceiver, index, "", f);
    forall hash
      ensures f == CommitSeal(key, m.totalSize, hash) <==> plain == Some(CommitMsg(hash))
    {
      OpensExactly(key, StreamToReceiver, index, "", f, CommitMsg(hash));
    }
  }

  // ---------------------------------------------------------------- the receiver, whole runs

  /** The commit was reached and judged. */
  predicate Judged(phase: ReceiverPhase) {
    phase == ReceiverDone(Finalized) || phase == ReceiverDone(Incomplete) || phase == ReceiverDone(HashMismatch)
  }

  /** The replies so far, given what the first frame drew. */
  ghost predicate RepliesSoFar(key: Key, first: ReceiverTrace, t: ReceiverTrace) {
    && (first.phase.ReceiverDone? ==> t == first)
    && (first.phase.ReceiverDone? ==> !Judged(t.phase))
    && !t.phase.WantManifest?
    && t.out == first.out + (if Judged(t.phase) then [CommitReply(key, t.phase == ReceiverDone(Finalized))] else [])
  }

  lemma RepliesStep(key: Key, accept: Manifest -> bool, first: ReceiverTrace, t: ReceiverTrace, f: Frame)
    requires Staging(t) && RepliesSoFar(key, first, t)
    ensures RepliesSoFar(key, first, ReceiverStep(key, accept, t, f))
    ensures Judged(ReceiverStep(key, accept, t, f).phase) && !Judged(t.phase) ==>
              t.phase.WantCommit? && exists hash :: f == CommitSeal(key, t.phase.manifest.totalSize, hash)
    ensures t.phase.WantCommit? && (exists hash :: f == CommitSeal(key, t.phase.manifest.totalSize, hash)) ==>
              Judged(ReceiverStep(key, accept, t, f).phase)
  {
    hide CommitReply, CommitSeal, ChunkSeal, Judgement, Awaits, WriteChunk, CheckWrite;
    match t.phase {
      case WantChunk(_, _, _) =>
        StepFromChunk(key, accept, t, f);
      case WantCommit(m) =>
        hide ReceiverStep;
        AtCommit(key, accept, t, f);
        if hash :| f == CommitSeal(key, m.totalSize, hash) {
          JudgementIs(t.disk, hash);
        }
      case ReceiverDone(_) =>
      case WantManifest =>
    }
  }

  lemma JudgementIs(d: Disk, hash: Digest)
    requires Opened(d)
    ensures Judged(ReceiverDone(Judgement(d, hash)))
  {
  }

  lemma StepFromChunk(key: Key, accept: Manifest -> bool, t: ReceiverTrace, f: Frame)
    requires Staging(t) && t.phase.WantChunk?
    ensures var e := ReceiverStep(key, accept, t, f); e.out == t.out && !Judged(e.phase) && !e.phase.WantManifest?
  {
    hide Open, MakeNonce, WriteChunk, CheckWrite, NextMissing;
  }

  /** All the replies, for any frames whatsoever: none unless the first frame is a manifest; then its own
      reply; and a second one if and only if a commit was judged, saying exactly whether the verdict was
      yes. A refused manifest, a text and a bad first frame end everything there. */
  lemma {:induction false} RepliesExactly(key: Key, accept: Manifest -> bool, d: Disk, inputs: seq<Frame>)
    requires inputs != []
    ensures RepliesSoFar(key, ReceiverRun(key, accept, d, [inputs[0]]), ReceiverRun(key, accept, d, inputs))
    decreases |inputs|
  {
    hide ReceiverStep, RepliesSoFar;
    if |inputs| == 1 {
      assert inputs == [inputs[0]];
      FirstReplies(key, accept, d, inputs[0]);
    } else {
      var last := |inputs| - 1;
      RepliesExactly(key, accept, d, inputs[..last]);
      RepliesStep(key, accept, ReceiverRun(key, accept, d, [inputs[0]]), ReceiverRun(key, accept, d, inputs[..last]), inputs[last]);
    }
  }

  lemma FirstReplies(key: Key, accept: Manifest -> bool, d: Disk, f: Frame)
    ensures var t := ReceiverRun(key, accept, d, [f]); RepliesSoFar(key, t, t)
  {
    hide Open, MakeNonce, NextMissing, OpenOrCreate, ResumeAck, ReceiverRun, CommitReply;
    ReceiverFirst(key, accept, d, f);
    var t := ReceiverRun(key, accept, d, [f]);
    assert t.out + [] == t.out;
  }

  /** The first reply, for any frames: it exists exactly when the first frame is a manifest, and it accepts
      exactly when that manifest has the protocol's version, the stream's frame size unless it is a text,
      and the receiver's consent; a manifest that is turned away draws the refusal and touches nothing. */
  lemma FirstReplyExactly(key: Key, accept: Manifest -> bool, d: Disk, inputs: seq<Frame>)
    requires inputs != []
    ensures var t := ReceiverRun(key, accept, d, inputs);
            && (t.out != [] <==> IsManifest(key, inputs[0]))
            && (t.out == [] ==> t.disk == d && t.writes == [] && t.phase == ReceiverDone(BadManifest))
            && forall m :: inputs[0] == ManifestSeal(key, m) ==>
                 && (IsAck(key, t.out[0], true) <==> Acceptable(accept, m))
                 && (!Acceptable(accept, m) ==>
                       t == ReceiverTrace(ReceiverDone(Refusal(m)), d, [], [Reply(key, AckMsg(false, false, []))]))
  {
    hide ReceiverRun, ReceiverStep, IsAck, IsManifest, ManifestSeal, Acceptable, Refusal, Reply, CommitReply, Awaits;
    RepliesExactly(key, accept, d, inputs);
    var f := inputs[0];
    if !IsManifest(key, f) {
      AtNoManifest(key, accept, d, f);
      assert forall m :: f != ManifestSeal(key, m) by { NotAManifest(key, f); }
    } else {
      var m := SomeManifest(key, f);
      OneManifest(key, f, m);
      AnswerTo(key, accept, d, m);
    }
  }

  lemma NotAManifest(key: Key, f: Frame)
    requires !IsManifest(key, f)
    ensures forall m :: f != ManifestSeal(key, m)
  {
  }

  lemma SomeManifest(key: Key, f: Frame) returns (m: Manifest)
    requires IsManifest(key, f)
    ensures f == ManifestSeal(key, m)
  {
    m :| f == ManifestSeal(key, m);
  }

  lemma OneManifest(key: Key, f: Frame, m: Manifest)
    requires f == ManifestSeal(key, m)
    ensures forall n :: f == ManifestSeal(key, n) ==> n == m
  {
    hide MakeNonce;
  }

  lemma AnswerTo(key: Key, accept: Manifest -> bool, d: Disk, m: Manifest)
    ensures var t := ReceiverRun(key, accept, d, [ManifestSeal(key, m)]);
            && |t.out| == 1 && (IsAck(key, t.out[0], true) <==> Acceptable(accept, m))
            && (!Acceptable(accept, m) ==>
                  t == ReceiverTrace(ReceiverDone(Refusal(m)), d, [], [Reply(key, AckMsg(false, false, []))]))
  {
    hide ReceiverRun, ManifestSeal, Acceptable, Refusal, Awaits, Canonical, Contains, OpenOrCreate, MakeNonce;
    if !Acceptable(accept, m) {
      AtRefused(key, accept, d, m);
      IsAckOf(key, AckMsg(false, false, []));
    } else if m.kind == Text {
      AtText(key, accept, d, m);
      IsAckOf(key, AckMsg(true, false, []));
    } else {
      AtPayload(key, accept, d, m);
      var complete, runs :| ReceiverRun(key, accept, d, [ManifestSeal(key, m)]).out == [Reply(key, AckMsg(true, complete, runs))];
      IsAckOf(key, AckMsg(true, complete, runs));
    }
  }

  lemma IsAckOf(key: Key, ack: Plain)
    requires ack.AckMsg?
    ensures IsAck(key, Reply(key, ack), true) <==> ack.accepted
  {
    hide MakeNonce;
  }

  /** The second reply, for any frames: there are never more than two, the second exists exactly when a
      commit was judged, and it says yes exactly when the file was handed over. */
  lemma SecondReplyExactly(key: Key, accept: Manifest -> bool, d: Disk, inputs: seq<Frame>)
    ensures var t := ReceiverRun(key, accept, d, inputs);
            && |t.out| <= 2
            && (|t.out| == 2 <==> Judged(t.phase))
            && (|t.out| == 2 ==> t.out[1] == CommitReply(key, t.phase == ReceiverDone(Finalized)))
  {
    hide ReceiverRun, CommitReply;
    if inputs == [] {
      ReceiverRunStart(key, accept, d);
    } else {
      RepliesExactly(key, accept, d, inputs);
      FirstReplyCount(key, accept, d, inputs[0]);
    }
  }

  lemma FirstReplyCount(key: Key, accept: Manifest -> bool, d: Disk, f: Frame)
    ensures var t := ReceiverRun(key, accept, d, [f]);
      |t.out| <= 1 && (!t.phase.ReceiverDone? ==> |t.out| == 1)
  {
    hide Open, MakeNonce, NextMissing, OpenOrCreate, ResumeAck, ReceiverRun;
    ReceiverFirst(key, accept, d, f);
  }

  /** A verdict is reached exactly when a commit comes where it is due. */
  lemma {:induction false} JudgedExactly(key: Key, accept: Manifest -> bool, d: Disk, inputs: seq<Frame>)
    ensures Judged(ReceiverRun(key, accept, d, inputs).phase) <==>
              exists k, hash :: CommitDue(key, accept, d, inputs, k, hash)
    decreases |inputs|
  {
    hide ReceiverStep, RepliesSoFar, CommitSeal, CommitReply;
    if inputs == [] {
      ReceiverRunStart(key, accept, d);
    } else {
      var last := |inputs| - 1;
      var init, f := inputs[..last], inputs[last];
      var t := ReceiverRun(key, accept, d, init);
      JudgedExactly(key, accept, d, init);
      forall k, hash
        ensures CommitDue(key, accept, d, inputs, k, hash) <==>
                  CommitDue(key, accept, d, init, k, hash)
                  || (k == last && t.phase.WantCommit? && f == CommitSeal(key, t.phase.manifest.totalSize, hash))
      {
        if 0 <= k < last {
          assert inputs[..k] == init[..k];
        }
      }
      JudgedStep(key, accept, t, f, d, init);
      if hash :| t.phase.WantCommit? && f == CommitSeal(key, t.phase.manifest.totalSize, hash) {
        assert CommitDue(key, accept, d, inputs, last, hash);
      }
    }
  }

  /** Frame `k` is the commit, and is due. */
  ghost predicate CommitDue(key: Key, accept: Manifest -> bool, d: Disk, inputs: seq<Frame>, k: int, hash: Digest) {
    0 <= k < |inputs|
    && var t := ReceiverRun(key, accept, d, inputs[..k]);
       t.phase.WantCommit? && inputs[k] == CommitSeal(key, t.phase.manifest.totalSize, hash)
  }

  lemma JudgedStep(key: Key, accept: Manifest -> bool, t: ReceiverTrace, f: Frame, d: Disk, init: seq<Frame>)
    requires t == ReceiverRun(key, accept, d, init)
    ensures Judged(ReceiverStep(key, accept, t, f).phase) <==>
              Judged(t.phase) || (t.phase.WantCommit? && exists hash :: f == CommitSeal(key, t.phase.manifest.totalSize, hash))
  {
    hide ReceiverRun, CommitSeal, CommitReply;
    if init != [] {
      RepliesExactly(key, accept, d, init);
      RepliesStep(key, accept, ReceiverRun(key, accept, d, [init[0]]), t, f);
      if Judged(t.phase) {
        Faults.DoneStays(key, accept, t, f);
      }
    } else {
      ReceiverRunStart(key, accept, d);
      ReceiverFirst(key, accept, d, f);
      FirstReplies(key, accept, d, f);
      FirstNotJudged(key, accept, d, f);
    }
  }

  lemma FirstNotJudged(key: Key, accept: Manifest -> bool, d: Disk, f: Frame)
    ensures !Judged(ReceiverRun(key, accept, d, [f]).phase)
  {
    hide Open, MakeNonce, NextMissing, OpenOrCreate, ResumeAck, ReceiverRun;
    ReceiverFirst(key, accept, d, f);
  }

  // ---------------------------------------------------------------- the two together

  /** The frames that can reach the sender when only the two ends hold `key`: not sealed under it, the
      sender's own direction, or something the receiver said. */
  ghost predicate PossibleReply(key: Key, t: ReceiverTrace, f: Frame) {
    || f.Forged?
    || f.key != key
    || (exists i: u64 :: f.nonce == MakeNonce(StreamToReceiver, i))
    || f in t.out
  }

  /** A sender that reports success is right: whatever was dropped, repeated, reordered, echoed or forged
      on the way, the receiver has judged the commit and handed the file over. */
  lemma CompleteMeansFinalized(key: Key, src: Source, accept: Manifest -> bool, d: Disk, toReceiver: seq<Frame>, toSender: seq<Frame>)
    requires Sized(src)
    requires forall f :: f in toSender ==> PossibleReply(key, ReceiverRun(key, accept, d, toReceiver), f)
    requires SenderRun(key, src, toSender).phase == SenderDone(SenderResult.Complete)
    ensures ReceiverRun(key, accept, d, toReceiver).phase == ReceiverDone(Finalized)
  {
    hide SenderRun, ReceiverRun, IsAck, IsText, PossibleReply;
    var t := ReceiverRun(key, accept, d, toReceiver);
    SenderReports(key, src, toSender);
    var f := toSender[1];
    assert f in toSender && f == CommitReply(key, true);
    YesWasSaid(key, t, f);
    SecondReplyExactly(key, accept, d, toReceiver);
    if toReceiver == [] {
      ReceiverRunStart(key, accept, d);
    } else {
      RepliesExactly(key, accept, d, toReceiver);
      FirstIsNoCommitReply(key, accept, d, toReceiver[0]);
      TwoAnswersDiffer(key);
    }
  }

  lemma YesWasSaid(key: Key, t: ReceiverTrace, f: Frame)
    requires PossibleReply(key, t, f) && f == CommitReply(key, true)
    ensures f in t.out
  {
    if i: u64 :| f.nonce == MakeNonce(StreamToReceiver, i) {
      NonceInjective(StreamToReceiver, i, StreamToSender, 1);
    }
  }

  lemma FirstIsNoCommitReply(key: Key, accept: Manifest -> bool, d: Disk, f: Frame)
    ensures CommitReply(key, true) !in ReceiverRun(key, accept, d, [f]).out
  {
    hide Open, MakeNonce, NextMissing, OpenOrCreate, ResumeAck, ReceiverRun;
    ReceiverFirst(key, accept, d, f);
    NonceInjective(StreamToSender, 0, StreamToSender, 1);
  }
}
