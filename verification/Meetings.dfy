/** Any number of sessions one after another (src/session.rs), each with its own parties, codes,
    source and receiver, each cut by the network or by a crash of the receiver. */
module Meetings {
  import opened Bytes
  import opened Crypto
  import opened Handshake
  import opened Store
  import opened Chunks
  import opened Transfer
  import opened Resume
  import opened RelayLink
  import opened Duplex
  import opened EndToEnd
  import Faults

  /** One attempt: the two ends, the schedule up to where the pairing died, and, if it died because
      the receiver crashed while handling the last frame it read, how far that got. */
  datatype Meeting = Meeting(ends: Ends, steps: seq<WorldStep>, crash: Option<CrashPoint>)

  /** A crash while `frame` is handled: inside the chunk write if it brings a chunk, else before it
      has any effect. */
  function CrashedDisk(x: Setup, s: ReceiverSide, frame: bytes, at: CrashPoint): Disk
    requires StagingSide(s)
  {
    match s
    case RStream(key, _, t) => CrashedStream(key, t, x.unwire(frame), at)
    case RHandshake(_, disk) => disk
  }

  function CrashedStream(key: Key, t: ReceiverTrace, f: Frame, at: CrashPoint): Disk
    requires Staging(t)
  {
    if !t.phase.WantChunk? then t.disk
    else
      match Open<Plain>(key, StreamToReceiver, PayloadIndex(t.phase.next, t.phase.manifest.totalSize), "", f)
      case Some(ChunkMsg(pt)) =>
        if CheckWrite(t.disk.stateFile.value, t.phase.next, pt) == Written && (at.DuringData? ==> at.written <= |pt|)
        then DiskAt(t.disk, t.phase.next, pt, at) else t.disk
      case _ => t.disk
  }

  /** The frames the receiver read in a meeting. */
  function Heard(x: Setup, m: Meeting, d: Disk): seq<bytes> {
    Reached(x, m.ends, d, m.steps).down.received
  }

  function DiskAfter(x: Setup, m: Meeting, d: Disk): Disk {
    var heard, e := Heard(x, m, d), m.ends;
    if m.crash.None? || heard == [] then DiskOf(ReceiverSideRun(x, e.b, e.accept, d, heard))
    else
      CrashedDisk(x, ReceiverSideRun(x, e.b, e.accept, d, heard[..|heard| - 1]), heard[|heard| - 1], m.crash.value)
  }

  function DiskAfterAll(x: Setup, meetings: seq<Meeting>, d: Disk): Disk
    decreases |meetings|
  {
    if meetings == [] then d else DiskAfterAll(x, meetings[1..], DiskAfter(x, meetings[0], d))
  }

  /** The receiver took the commit, and so decided the transfer. */
  predicate Committed(x: Setup, m: Meeting, d: Disk) {
    Agree(m.ends) && Takes(m.ends) && m.crash.None? && |Heard(x, m, d)| == |SenderScript(x, m.ends, d)|
  }

  // ---------------------------------------------------------------- a meeting is an interrupted session

  lemma HeardParts(x: Setup, m: Meeting, d: Disk)
    requires Meet(x, m.ends) && Resumable(m.ends, d)
    ensures |Heard(x, m, d)| <= |SenderScript(x, m.ends, d)|
    ensures Heard(x, m, d) == SenderScript(x, m.ends, d)[..|Heard(x, m, d)|]
  {
    hide Reached, SenderScript, ReceiverScript, Meet, Resumable, Inv, SenderSays, ReceiverSays;
    SessionParts(x, m.ends, d, m.steps);
  }

  /** Without agreement, or with nothing to stage, a meeting leaves the disk alone. */
  lemma IdleMeeting(x: Setup, m: Meeting, d: Disk)
    requires Meet(x, m.ends) && Resumable(m.ends, d) && (!Agree(m.ends) || !Takes(m.ends))
    ensures DiskAfter(x, m, d) == d
  {
    hide SenderScript, Meet, Heard, ReceiverSideRun, ReceiverRun, SenderFrames, KeyOf, HsRun, Agree, Takes, Spoken;
    HeardParts(x, m, d);
    ScriptLengths(x, m.ends, d);
    FrameCounts(m.ends, d);
    var n, ia := |Heard(x, m, d)|, SenderScript(x, m.ends, d);
    ReceiverAt(x, m.ends, d, n);
    if n > 0 {
      ReceiverAt(x, m.ends, d, n - 1);
      assert ia[..n][..n - 1] == ia[..n - 1];
    }
    if Agree(m.ends) && n >= 2 {
      PrefixDisk(m.ends, d, n - 2);
      if n == 3 {
        FirstPhase(m.ends, d);
      }
    }
  }

  /** Before the manifest the receiver waits for it. */
  lemma FirstPhase(m: Ends, d: Disk)
    ensures ReceiverRun(KeyOf(m), m.accept, d, SenderFrames(m, d)[..0]) == ReceiverStart(d)
  {
  }

  /** The state of an agreeing receiver that has read `k` frames of the stream. */
  lemma StreamStage(m: Ends, d: Disk, k: nat)
    requires Takes(m) && Shaped(d, m.src) && k <= |Missing(d, m.src)| + 1
    ensures k <= |SenderFrames(m, d)| && SenderFrames(m, d) == Transmission(KeyOf(m), m.src, d)
    ensures |SenderFrames(m, d)| == |Missing(d, m.src)| + 2
    ensures AllBelow(Missing(d, m.src), FrameCount(|m.src.content|))
    ensures var t := ReceiverRun(KeyOf(m), m.accept, d, SenderFrames(m, d)[..k]);
            && (if k == 0 then t.phase.WantManifest?
                else if k <= |Missing(d, m.src)| then
                  t.phase.WantChunk? && t.phase.next == Missing(d, m.src)[k - 1] && t.phase.manifest == StreamManifest(m.src)
                else t.phase.WantCommit?)
    ensures 1 <= k <= |Missing(d, m.src)| ==> SenderFrames(m, d)[k] == ChunkFrame(KeyOf(m), m.src.content, Missing(d, m.src)[k - 1])
  {
    hide ReceiverRun, Shaped, KeyOf, StageAll, WritesOf, ResumeAck, MissingFrom, ChunkFrames, ManifestFrame, CommitFrame, ChunkFrame,
         StreamManifest, Transmission;
    TransmissionShape(KeyOf(m), m.src, d);
    HonestRun(KeyOf(m), m.accept, m.src, d, k);
    if 1 <= k <= |Missing(d, m.src)| {
      ChunkFramesAt(KeyOf(m), m.src.content, Missing(d, m.src), k - 1);
    }
  }

  lemma CutLeftover(key: Key, src: Source, accept: Manifest -> bool, d: Disk, k: nat)
    requires Payload(src) && accept(StreamManifest(src)) && Shaped(d, src) && k <= |Missing(d, src)| + 1
    ensures Interrupted(Resume.Session(key, k, None), src, d) && k <= |Transmission(key, src, d)|
    ensures Leftover(Resume.Session(key, k, None), src, accept, d)
         == ReceiverRun(key, accept, d, Transmission(key, src, d)[..k]).disk
  {
    hide ReceiverRun, Transmission, Shaped, MissingFrom;
    InterruptedDisk(Resume.Session(key, k, None), src, accept, d);
  }

  /** A crash `k` frames into the stream leaves what an interrupted session leaves. */
  lemma CrashStage(m: Ends, d: Disk, k: nat, at: CrashPoint) returns (s: Resume.Session)
    requires Takes(m) && Shaped(d, m.src) && k <= |Missing(d, m.src)| + 1
    ensures k < |SenderFrames(m, d)| && Interrupted(s, m.src, d)
    ensures var t := ReceiverRun(KeyOf(m), m.accept, d, SenderFrames(m, d)[..k]);
      CrashedStream(KeyOf(m), t, SenderFrames(m, d)[k], at) == Leftover(s, m.src, m.accept, d)
  {
    hide ReceiverRun, SenderFrames, Shaped, KeyOf, Missing, Transmission, StreamManifest, DiskAt, ChunkOf, ChunkFrame, TotalChunks,
         Leftover, Interrupted, Payload;
    StreamStage(m, d, k);
    if 1 <= k <= |Missing(d, m.src)| {
      s := CrashInChunk(KeyOf(m), m.src, m.accept, d, k, at);
    } else {
      s := Resume.Session(KeyOf(m), k, None);
      CutLeftover(KeyOf(m), m.src, m.accept, d, k);
    }
  }

  lemma CrashInChunk(key: Key, src: Source, accept: Manifest -> bool, d: Disk, k: nat, at: CrashPoint) returns (s: Resume.Session)
    requires Payload(src) && accept(StreamManifest(src)) && Shaped(d, src) && 1 <= k <= |Missing(d, src)|
    ensures k <= |Transmission(key, src, d)| && AllBelow(Missing(d, src), FrameCount(|src.content|)) && Interrupted(s, src, d)
    ensures var t, i := ReceiverRun(key, accept, d, Transmission(key, src, d)[..k]), Missing(d, src)[k - 1];
            t.phase.WantChunk? && t.phase.next == i && t.phase.manifest == StreamManifest(src) ==>
              CrashedStream(key, t, ChunkFrame(key, src.content, i), at) == Leftover(s, src, accept, d)
  {
    hide ReceiverRun, Faithful, Shaped, MissingFrom, Transmission, StreamManifest, DiskAt, ChunkOf, ChunkFrame, TotalChunks, Honest, LoadState;
    s := Resume.Session(key, k, None);
    CutLeftover(key, src, accept, d, k);
    InterruptedDisk(s, src, accept, d);
    MissingExact(Start0(d, src).have, 0, FrameCount(|src.content|));
    var t, i := ReceiverRun(key, accept, d, Transmission(key, src, d)[..k]), Missing(d, src)[k - 1];
    ChunkOpens(key, src, i);
    if at.DuringData? ==> at.written <= |ChunkOf(src.content, i, FRAME)| {
      s := Resume.Session(key, k, Some(at));
      NextIsFresh(s, src, d);
      CrashLeaves(t.disk, src, i, at);
    }
  }

  lemma ChunkOpens(key: Key, src: Source, i: nat)
    requires Payload(src) && i < FrameCount(|src.content|)
    ensures StreamManifest(src).totalSize == |src.content|
    ensures Open(key, StreamToReceiver, PayloadIndex(i, |src.content|), "", ChunkFrame(key, src.content, i))
         == Some(ChunkMsg(ChunkOf(src.content, i, FRAME)))
  {
  }

  /** An agreeing payload meeting that delivers nothing is one of the interrupted sessions whose
      whole runs `Resume` follows. */
  lemma MeetingIsSession(x: Setup, m: Meeting, d: Disk) returns (s: Resume.Session)
    requires Meet(x, m.ends) && Agree(m.ends) && Takes(m.ends) && Shaped(d, m.ends.src) && !Committed(x, m, d)
    ensures Interrupted(s, m.ends.src, d)
    ensures DiskAfter(x, m, d) == Leftover(s, m.ends.src, m.ends.accept, d)
  {
    hide SenderScript, Meet, Heard, ReceiverSideRun, ReceiverRun, SenderFrames, KeyOf, HsRun, Agree, Spoken, Shaped, Transmission,
         CrashedStream, Missing, Leftover, Interrupted;
    var e, n := m.ends, |Heard(x, m, d)|;
    HeardParts(x, m, d);
    ScriptLengths(x, e, d);
    StreamStage(e, d, 0);
    StreamStage(e, d, if n < 2 then 0 else if n - 2 <= |Missing(d, e.src)| + 1 then n - 2 else 0);
    if m.crash.None? || n == 0 {
      var k := if n < 2 then 0 else n - 2;
      s := Resume.Session(KeyOf(e), k, None);
      CutLeftover(KeyOf(e), e.src, e.accept, d, k);
      ReceiverAt(x, e, d, n);
      FirstPhase(e, d);
    } else if n < 3 {
      s := Resume.Session(KeyOf(e), 0, None);
      CutLeftover(KeyOf(e), e.src, e.accept, d, 0);
      BeforeLast(x, m, d);
      FirstPhase(e, d);
    } else {
      BeforeLast(x, m, d);
      s := CrashStage(e, d, n - 3, m.crash.value);
    }
  }

  /** The receiver before the last frame it read, and that frame. */
  lemma BeforeLast(x: Setup, m: Meeting, d: Disk)
    requires Meet(x, m.ends) && Resumable(m.ends, d) && Heard(x, m, d) != [] && Agree(m.ends)
    ensures var e, heard, n := m.ends, Heard(x, m, d), |Heard(x, m, d)|;
            var s := ReceiverSideRun(x, e.b, e.accept, d, heard[..n - 1]);
            if n < 3 then s.RHandshake? && s.disk == d
            else && n - 3 < |SenderFrames(e, d)| && x.unwire(heard[n - 1]) == SenderFrames(e, d)[n - 3]
                 && s.RStream? && s.key == KeyOf(e)
                 && s.t == ReceiverRun(KeyOf(e), e.accept, d, SenderFrames(e, d)[..n - 3])
  {
    hide Heard, ReceiverSideRun, ReceiverRun, SenderFrames, KeyOf, HsRun, Pair;
    var e, heard, n := m.ends, Heard(x, m, d), |Heard(x, m, d)|;
    var ia := SenderScript(x, e, d);
    HeardParts(x, m, d);
    SpokenTwo(x.p, e.a, e.b);
    assert ia[..n][..n - 1] == ia[..n - 1];
    ReceiverAt(x, e, d, n - 1);
    if n >= 3 {
      assert heard[n - 1] == ia[n - 1] == Wired(x, SenderFrames(e, d))[n - 3];
    }
  }

  // ---------------------------------------------------------------- runs of meetings

  /** One transfer: every meeting offers the same source, and none takes delivery. */
  ghost predicate SameTransfer(x: Setup, src: Source, accept: Manifest -> bool, meetings: seq<Meeting>, d: Disk)
    requires Payload(src) && accept(StreamManifest(src))
    decreases |meetings|
  {
    meetings == [] ||
    (&& Meet(x, meetings[0].ends) && meetings[0].ends.src == src && meetings[0].ends.accept == accept
     && !Committed(x, meetings[0], d)
     && SameTransfer(x, src, accept, meetings[1..], DiskAfter(x, meetings[0], d)))
  }

  /** Over any such meetings, with right and wrong codes, any schedules, cuts and crashes: they are
      a run of interrupted sessions, so staging is as right as it was, exactly the logged chunks were
      added, and no chunk write was completed twice. */
  lemma {:induction false} MeetingsNeverRepeat(x: Setup, src: Source, accept: Manifest -> bool, meetings: seq<Meeting>, d: Disk)
      returns (sessions: seq<Resume.Session>, log: seq<nat>)
    requires Payload(src) && accept(StreamManifest(src)) && Shaped(d, src)
    requires SameTransfer(x, src, accept, meetings, d)
    ensures var e := DiskAfterAll(x, meetings, d);
            && Leads(d, sessions, src, accept, e, log)
            && Shaped(e, src) && (Staged(e, src) <==> Staged(d, src)) && e.saved == d.saved && e.unpacked == d.unpacked
            && Start0(e, src).have == Start0(d, src).have + SetOf(log)
            && NoRepeats(log) && (forall i :: i in log ==> i !in Start0(d, src).have)
    decreases |meetings|
  {
    hide DiskAfter, Staged, Shaped, Meet, Committed, Leftover, Interrupted, Completed, StreamManifest, ReceiverRun, Transmission, WritesOf;
    sessions, log := [], [];
    if meetings != [] {
      var m := meetings[0];
      var d' := DiskAfter(x, m, d);
      if Agree(m.ends) {
        var s := MeetingIsSession(x, m, d);
        SessionKeeps(s, src, accept, d);
        var rest, more := MeetingsNeverRepeat(x, src, accept, meetings[1..], d');
        sessions, log := [s] + rest, Completed(s, src, d) + more;
        assert sessions[1..] == rest;
      } else {
        IdleMeeting(x, m, d);
        sessions, log := MeetingsNeverRepeat(x, src, accept, meetings[1..], d');
      }
    }
    InterruptedRuns(d, sessions, src, accept, DiskAfterAll(x, meetings, d), log);
  }

  /** Whatever stream transfer the disk holds state for, its shape is right. */
  predicate Tidy(d: Disk) {
    d.stateFile.Some? && d.stateFile.value.chunkSize == FRAME ==>
      && |d.data| == d.stateFile.value.totalSize
      && Below(d.stateFile.value.have, TotalChunks(d.stateFile.value.totalSize, FRAME))
  }

  lemma TidyIsShaped(d: Disk, src: Source)
    requires Tidy(d)
    ensures Shaped(d, src)
  {
  }

  /** What one meeting may do to the disk of a receiver, whatever it carries. */
  ghost predicate MeetingStep(src: Source, d: Disk, e: Disk) {
    && (Shaped(d, src) ==> Shaped(e, src)) && (Staged(e, src) <==> Staged(d, src))
    && (e == d || e.stateFile.None? || Matches(e.stateFile.value, src.transferId, |src.content|, FRAME))
    && ((e.saved == d.saved && e.unpacked == d.unpacked) || (Staged(d, src) && HandedOver(d, src, e)))
  }

  /** Staging stays as right or as wrong about the meeting's source as it was, is otherwise about that
      source or gone, and the source comes out only if its staging was right. */
  lemma OneMeeting(x: Setup, m: Meeting, d: Disk)
    requires Meet(x, m.ends) && Shaped(d, m.ends.src)
    ensures MeetingStep(m.ends.src, d, DiskAfter(x, m, d))
  {
    hide DiskAfter, Meet, Committed, Leftover, Interrupted, Faithful, Shaped, Agree, HandedOver;
    var src := m.ends.src;
    if !Agree(m.ends) || !Takes(m.ends) {
      IdleMeeting(x, m, d);
    } else if Committed(x, m, d) {
      CommittedDisk(x, m, d);
    } else {
      var s := MeetingIsSession(x, m, d);
      SessionStep(s, src, m.ends.accept, d);
    }
  }

  lemma SessionStep(s: Resume.Session, src: Source, accept: Manifest -> bool, d: Disk)
    requires Payload(src) && accept(StreamManifest(src)) && Shaped(d, src) && Interrupted(s, src, d)
    ensures MeetingStep(src, d, Leftover(s, src, accept, d))
  {
    hide Leftover, Shaped, Faithful, Completed, HandedOver, WritesOf, ReceiverRun, Transmission, LoadState;
    SessionKeeps(s, src, accept, d);
    SessionTransfer(s, src, accept, d);
  }

  lemma CommittedDisk(x: Setup, m: Meeting, d: Disk)
    requires Meet(x, m.ends) && Shaped(d, m.ends.src) && Committed(x, m, d)
    ensures MeetingStep(m.ends.src, d, DiskAfter(x, m, d))
  {
    hide ReceiverRun, SenderFrames, KeyOf, Meet, Staged, Shaped, Agree, DiskAfter, Committed, Takes, HandedOver;
    CommittedReadsAll(x, m, d);
    PrefixDisk(m.ends, d, |SenderFrames(m.ends, d)|);
  }

  lemma CommittedReadsAll(x: Setup, m: Meeting, d: Disk)
    requires Meet(x, m.ends) && Shaped(d, m.ends.src) && Committed(x, m, d)
    ensures var e := m.ends;
      Takes(e) && DiskAfter(x, m, d) == ReceiverRun(KeyOf(e), e.accept, d, SenderFrames(e, d)[..|SenderFrames(e, d)|]).disk
  {
    hide Heard, ReceiverSideRun, ReceiverRun, SenderFrames, KeyOf, HsRun, Meet, Shaped, SenderScript, Spoken, Agree, Takes;
    HeardParts(x, m, d);
    ReceiverAllRead(x, m.ends, d);
    var ia := SenderScript(x, m.ends, d);
    assert ia[..|ia|] == ia;
  }

  /** A session that opened the store left its own transfer there. */
  lemma SessionTransfer(s: Resume.Session, src: Source, accept: Manifest -> bool, d: Disk)
    requires Payload(src) && accept(StreamManifest(src)) && Shaped(d, src) && Interrupted(s, src, d)
    ensures var e := Leftover(s, src, accept, d);
            e == d || (e.stateFile.Some? && Matches(e.stateFile.value, src.transferId, |src.content|, FRAME))
  {
    hide ReceiverRun, Transmission, ChunkOf, TotalChunks, MissingFrom, Honest, Faithful, Shaped, DiskAt, LoadState;
    InterruptedDisk(s, src, accept, d);
    if s.frames == 0 {
      NothingReceived(s.key, accept, src, d);
    } else if s.crash.Some? {
      var t := ReceiverRun(s.key, accept, d, Transmission(s.key, src, d)[..s.frames]);
      NextIsFresh(s, src, d);
      CrashLeaves(t.disk, src, Missing(d, src)[s.frames - 1], s.crash.value);
    }
  }

  lemma StepTidy(src: Source, d: Disk, e: Disk)
    requires MeetingStep(src, d, e) && Tidy(d)
    ensures Tidy(e)
  {
    hide Faithful, HandedOver;
    TidyIsShaped(d, src);
  }

  /** A file came out of these meetings only if one of them offered it. */
  ghost predicate FromMeetings(out: Option<bytes>, before: Option<bytes>, meetings: seq<Meeting>) {
    out == before || exists k :: 0 <= k < |meetings| && out == Some(meetings[k].ends.src.content)
  }

  /** Any number of meetings, each with its own source, receiver, codes, schedule, cut and crash, and
      whatever transfer ids they use: the disk keeps its shape, and the only files that can come out
      are ones that were offered. */
  lemma {:induction false} AnyMeetings(x: Setup, meetings: seq<Meeting>, d: Disk)
    requires Tidy(d) && forall k :: 0 <= k < |meetings| ==> Meet(x, meetings[k].ends)
    ensures var e := DiskAfterAll(x, meetings, d);
            Tidy(e) && FromMeetings(e.saved, d.saved, meetings) && FromMeetings(e.unpacked, d.unpacked, meetings)
    decreases |meetings|
  {
    hide DiskAfter, Tidy, Meet, Faithful, Shaped;
    if meetings != [] {
      var m := meetings[0];
      TidyIsShaped(d, m.ends.src);
      OneMeeting(x, m, d);
      StepTidy(m.ends.src, d, DiskAfter(x, m, d));
      AnyMeetings(x, meetings[1..], DiskAfter(x, m, d));
      assert forall k :: 0 <= k < |meetings[1..]| ==> meetings[1..][k] == meetings[k + 1];
    }
  }

  /** Under `src`'s id and size this source offers `src`'s bytes. */
  predicate SameBytes(other: Source, src: Source) {
    other.transferId == src.transferId && |other.content| == |src.content| ==> other.content == src.content
  }

  /** As long as nothing else was offered under a source's id and size, its staging stays right. */
  lemma {:induction false} StagingStaysRight(x: Setup, src: Source, meetings: seq<Meeting>, d: Disk)
    requires Tidy(d) && Staged(d, src)
    requires forall k :: 0 <= k < |meetings| ==> Meet(x, meetings[k].ends) && SameBytes(meetings[k].ends.src, src)
    ensures Staged(DiskAfterAll(x, meetings, d), src)
    decreases |meetings|
  {
    hide DiskAfter, Tidy, Meet, Faithful, Shaped, SameBytes, HandedOver;
    if meetings != [] {
      var m := meetings[0];
      TidyIsShaped(d, m.ends.src);
      OneMeeting(x, m, d);
      StepTidy(m.ends.src, d, DiskAfter(x, m, d));
      StepStaysRight(m.ends.src, src, d, DiskAfter(x, m, d));
      StagingStaysRight(x, src, meetings[1..], DiskAfter(x, m, d));
    }
  }

  lemma StepStaysRight(other: Source, src: Source, d: Disk, e: Disk)
    requires MeetingStep(other, d, e) && SameBytes(other, src) && Staged(d, src)
    ensures Staged(e, src)
  {
    hide ChunkOf, TotalChunks, HandedOver, Shaped;
  }

  /** Wrong staging never recovers: over any further meetings on the source, with any schedules, cuts,
      crashes and commits, it stays wrong and nothing comes out. */
  lemma {:induction false} WrongStagingStays(x: Setup, src: Source, meetings: seq<Meeting>, d: Disk)
    requires Shaped(d, src) && !Staged(d, src)
    requires forall k :: 0 <= k < |meetings| ==> Meet(x, meetings[k].ends) && meetings[k].ends.src == src
    ensures var e := DiskAfterAll(x, meetings, d);
            Shaped(e, src) && !Staged(e, src) && e.saved == d.saved && e.unpacked == d.unpacked
    decreases |meetings|
  {
    hide DiskAfter, Meet, Faithful, Shaped, HandedOver;
    if meetings != [] {
      OneMeeting(x, meetings[0], d);
      WrongStagingStays(x, src, meetings[1..], DiskAfter(x, meetings[0], d));
    }
  }

  /** From an empty folder, whatever meetings came before, a last one that is not cut: both sides
      succeed if and only if its frames fit the relay and what the earlier ones staged under its id
      is its own. */
  lemma LastMeetingDelivers(x: Setup, meetings: seq<Meeting>, m: Ends, steps: seq<WorldStep>)
    requires forall k :: 0 <= k < |meetings| ==> Meet(x, meetings[k].ends)
    requires Meet(x, m) && Agree(m) && Takes(m)
    requires var d := DiskAfterAll(x, meetings, EMPTY_DISK); Stopped(x, m, d, Reached(x, m, d, steps))
    ensures var d := DiskAfterAll(x, meetings, EMPTY_DISK);
            var w := Reached(x, m, d, steps);
            var s, r := SenderEnd(x, m, w), ReceiverEnd(x, m, d, w);
            && (BothSucceed(m, s, r) <==> BothFit(x, m, d) && Staged(d, m.src))
            && (BothSucceed(m, s, r) ==> HandedOver(d, m.src, r.t.disk))
            && ((forall k :: 0 <= k < |meetings| ==> SameBytes(meetings[k].ends.src, m.src)) ==> Staged(d, m.src))
  {
    var d := DiskAfterAll(x, meetings, EMPTY_DISK);
    assert Tidy(EMPTY_DISK) && Staged(EMPTY_DISK, m.src);
    hide DiskAfterAll, Meet, Reached, Stopped, BothFit, SenderEnd, ReceiverEnd, Agree, Takes, BothSucceed, Staged, Shaped, Tidy,
         SameBytes, HandedOver, BothReportMismatch, StillWrong, KeyOf;
    AnyMeetings(x, meetings, EMPTY_DISK);
    TidyIsShaped(d, m.src);
    if forall k :: 0 <= k < |meetings| ==> SameBytes(meetings[k].ends.src, m.src) {
      StagingStaysRight(x, m.src, meetings, EMPTY_DISK);
    }
    UncutSessionDelivers(x, m, d, steps);
  }

  // ---------------------------------------------------------------- keys and nonces over meetings

  /** Two runs of the handshake whose SPAKE2 messages differ give different stream keys. */
  lemma FreshMessagesFreshKeys(m: Ends, n: Ends)
    requires multiset{m.a.msg, m.b.msg} != multiset{n.a.msg, n.b.msg}
    ensures KeyOf(m) != KeyOf(n)
  {
  }

  lemma {:induction false} AllKeysDiffer(attempts: seq<Faults.Attempt>, ends: seq<Ends>)
    requires |attempts| == |ends|
    requires forall k :: 0 <= k < |ends| ==> attempts[k].key == KeyOf(ends[k])
    requires forall j, k :: 0 <= j < k < |ends| ==>
               multiset{ends[j].a.msg, ends[j].b.msg} != multiset{ends[k].a.msg, ends[k].b.msg}
    ensures forall j, k :: 0 <= j < k < |attempts| ==> attempts[j].key != attempts[k].key
  {
    forall j, k | 0 <= j < k < |ends|
      ensures attempts[j].key != attempts[k].key
    {
      FreshMessagesFreshKeys(ends[j], ends[k]);
    }
  }

  /** Over any attempts, one for each handshake, with anything at all arriving on either side: when no
      two handshakes drew the same two messages, no key and nonce are used for two seals. */
  lemma {:induction false} NoncesNeverRepeatOverMeetings(attempts: seq<Faults.Attempt>, ends: seq<Ends>)
    requires |attempts| == |ends|
    requires forall k :: 0 <= k < |ends| ==> attempts[k].key == KeyOf(ends[k])
    requires forall k :: 0 <= k < |attempts| ==> Sized(attempts[k].src)
    requires forall j, k :: 0 <= j < k < |ends| ==>
               multiset{ends[j].a.msg, ends[j].b.msg} != multiset{ends[k].a.msg, ends[k].b.msg}
    ensures Faults.AllFresh(Faults.AllSeals(attempts))
  {
    AllKeysDiffer(attempts, ends);
    Faults.NoncesNeverRepeat(attempts);
  }
}
