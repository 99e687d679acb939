/** Resuming a transfer (src/stream.rs over src/store.rs): the two sides skip the same chunks, and
    what interrupted sessions leave behind adds up to the file. */
module Resume {
  import opened Bytes
  import opened Crypto
  import opened Chunks
  import opened Store
  import opened Runs
  import opened Transfer

  /** A file or archive with sizes the protocol can carry. */
  predicate Payload(src: Source) {
    src.Blob? && src.kind != Text && Sized(src)
  }

  const FRAME := STREAM_FRAME_SIZE as nat

  /** Every chunk staged under this transfer's id and size is the source's. */
  predicate Staged(d: Disk, src: Source) {
    Faithful(d, src.content, src.transferId, FRAME)
  }

  /** Staging under this transfer's id and size has the right length and names chunks in range;
      what the chunks hold is another matter, for the id does not cover the content. */
  predicate Shaped(d: Disk, src: Source) {
    d.stateFile.Some? && Matches(d.stateFile.value, src.transferId, |src.content|, FRAME) ==>
      && |d.data| == |src.content|
      && Below(d.stateFile.value.have, TotalChunks(|src.content|, FRAME))
  }

  /** The staging state the receiver starts this transfer from. */
  function Start0(d: Disk, src: Source): State
    requires Sized(src)
  {
    LoadState(d, src.transferId, |src.content|, FRAME)
  }

  predicate Below(have: set<nat>, n: nat) {
    forall i :: i in have ==> i < n
  }

  // ---------------------------------------------------------------- lockstep

  lemma SkipsExactly(s: State, i: nat)
    requires s.chunkSize > 0 && Below(s.have, Total(s)) && i < Total(s)
    ensures Skips(ResumeAck(s), i) <==> i in s.have
  {
    hide TotalChunks, Sorted, RunsOf, Contains, Canonical, Ascending;
    SortedExact(s.have);
    RunsExact(Sorted(s.have));
    FullIsEverything(s.have, Total(s));
  }

  lemma {:induction false} LockstepFrom(s: State, i: nat)
    requires s.chunkSize > 0 && Below(s.have, Total(s)) && i <= Total(s)
    ensures SentFrom(ResumeAck(s), i, Total(s)) == MissingFrom(s.have, i, Total(s))
    decreases Total(s) - i
  {
    hide TotalChunks, ResumeAck, Skips;
    if i < Total(s) {
      SkipsExactly(s, i);
      LockstepFrom(s, i + 1);
    }
  }

  /** The sender skips by the acknowledgement's flag or runs, the receiver by its own set; they
      skip the same chunks, so every frame is awaited at the index it was sealed with. */
  lemma Lockstep(s: State)
    requires s.chunkSize > 0 && Below(s.have, Total(s))
    ensures SentFrom(ResumeAck(s), 0, Total(s)) == MissingFrom(s.have, 0, Total(s))
  {
    LockstepFrom(s, 0);
  }

  // ---------------------------------------------------------------- progress

  /** Plaintext bytes of the chunks at `indices`. */
  function ChunkBytes(content: bytes, indices: seq<nat>): nat
    requires AllBelow(indices, FrameCount(|content|))
  {
    if indices == [] then 0 else |ChunkOf(content, indices[0], FRAME)| + ChunkBytes(content, indices[1..])
  }

  /** The bytes the sender's progress bar is moved by for chunks it skips, from chunk `i` on. */
  function SkippedBytes(content: bytes, ack: Plain, i: nat): nat
    requires ack.AckMsg? && i <= FrameCount(|content|)
    decreases FrameCount(|content|) - i
  {
    if i == FrameCount(|content|) then 0
    else (if Skips(ack, i) then |ChunkOf(content, i, FRAME)| else 0) + SkippedBytes(content, ack, i + 1)
  }

  lemma {:induction false} SkippedPlusSentFrom(content: bytes, ack: Plain, i: nat)
    requires ack.AckMsg? && i <= FrameCount(|content|)
    ensures AllBelow(SentFrom(ack, i, FrameCount(|content|)), FrameCount(|content|))
    ensures SkippedBytes(content, ack, i) + ChunkBytes(content, SentFrom(ack, i, FrameCount(|content|)))
         == if i == FrameCount(|content|) then 0 else |content| - Start(i, FRAME)
    decreases FrameCount(|content|) - i
  {
    hide TotalChunks, ChunkOf, Skips, Start, ChunkLen, ExpectedLen, ChunkBytes, Ascending;
    var n := FrameCount(|content|);
    SentInRange(ack, i, n);
    if i < n {
      SkippedPlusSentFrom(content, ack, i + 1);
      ChunkBounds(i, |content|, FRAME);
      SentInRange(ack, i + 1, n);
      ChunkBytesCons(content, i, SentFrom(ack, i + 1, n));
    } else {
      NoChunkBytes(content);
    }
  }

  lemma NoChunkBytes(content: bytes)
    ensures ChunkBytes(content, []) == 0
  {
  }

  lemma ChunkBytesCons(content: bytes, i: nat, rest: seq<nat>)
    requires i < FrameCount(|content|) && AllBelow(rest, FrameCount(|content|))
    ensures AllBelow([i] + rest, FrameCount(|content|))
    ensures ChunkBytes(content, [i] + rest) == |ChunkOf(content, i, FRAME)| + ChunkBytes(content, rest)
    ensures [] + rest == rest
  {
    hide ChunkOf, TotalChunks;
    assert ([i] + rest)[1..] == rest;
  }

  /** Whatever the acknowledgement says, the bytes the sender skips and the bytes of the chunks it
      sends add up to the file, so its progress ends exactly at the end. */
  lemma SkippedPlusSent(content: bytes, ack: Plain)
    requires ack.AckMsg?
    ensures AllBelow(SentFrom(ack, 0, FrameCount(|content|)), FrameCount(|content|))
    ensures SkippedBytes(content, ack, 0) + ChunkBytes(content, SentFrom(ack, 0, FrameCount(|content|))) == |content|
  {
    SkippedPlusSentFrom(content, ack, 0);
    StartIsProduct(0, FRAME);
  }

  // ---------------------------------------------------------------- what is missing

  lemma ConsExact(have: set<nat>, i: nat, n: nat, rest: seq<nat>)
    requires i < n && i !in have && AllBelow(rest, n) && Ascending(rest)
    requires forall k :: 0 <= k < |rest| ==> rest[k] >= i + 1
    requires forall j: nat :: j in rest <==> i + 1 <= j < n && j !in have
    ensures AllBelow([i] + rest, n) && Ascending([i] + rest)
    ensures forall k :: 0 <= k < |[i] + rest| ==> ([i] + rest)[k] >= i
    ensures forall j: nat :: j in [i] + rest <==> i <= j < n && j !in have
  {
  }

  lemma {:induction false} MissingExact(have: set<nat>, i: nat, n: nat)
    requires i <= n
    ensures AllBelow(MissingFrom(have, i, n), n) && Ascending(MissingFrom(have, i, n))
    ensures forall k :: 0 <= k < |MissingFrom(have, i, n)| ==> MissingFrom(have, i, n)[k] >= i
    ensures forall j: nat :: j in MissingFrom(have, i, n) <==> i <= j < n && j !in have
    decreases n - i
  {
    if i < n {
      MissingExact(have, i + 1, n);
      if i !in have {
        ConsExact(have, i, n, MissingFrom(have, i + 1, n));
      }
    }
  }

  lemma {:induction false} MissingCount(have: set<nat>, n: nat, i: nat)
    requires Below(have, n) && i <= n
    ensures |MissingFrom(have, i, n)| + |set j | j in have && j >= i| == n - i
    decreases n - i
  {
    var here := set j | j in have && j >= i;
    if i < n {
      MissingCount(have, n, i + 1);
      var later := set j | j in have && j >= i + 1;
      assert here == if i in have then later + {i} else later;
    } else {
      assert here == {};
    }
  }

  lemma {:induction false} NextIsHead(have: set<nat>, i: nat, n: nat)
    requires i <= n
    ensures MissingFrom(have, i, n)
         == if NextMissing(have, i, n) == n then []
            else [NextMissing(have, i, n)] + MissingFrom(have, NextMissing(have, i, n) + 1, n)
    decreases n - i
  {
    if i < n && i in have {
      NextIsHead(have, i + 1, n);
    }
  }

  /** The receiver walks the missing indices one by one. */
  lemma {:induction false} NextOf(have: set<nat>, i: nat, n: nat, c: nat)
    requires i <= n && c < |MissingFrom(have, i, n)| && AllBelow(MissingFrom(have, i, n), n)
    ensures MissingFrom(have, MissingFrom(have, i, n)[c] + 1, n) == MissingFrom(have, i, n)[c + 1..]
    decreases c
  {
    hide MissingFrom, NextMissing;
    NextIsHead(have, i, n);
    var all := MissingFrom(have, i, n);
    var j := all[0];
    assert all == [j] + MissingFrom(have, j + 1, n);
    assert all[1..] == MissingFrom(have, j + 1, n);
    if c > 0 {
      MissingExact(have, j + 1, n);
      NextOf(have, j + 1, n, c - 1);
    }
  }

  // ---------------------------------------------------------------- one honest session

  /** Everything an honest sender transmits to a receiver whose disk is `d`. */
  function Transmission(key: Key, src: Source, d: Disk): seq<Frame>
    requires Payload(src)
  {
    [ManifestFrame(key, src)] + PayloadFrames(key, src.content, ResumeAck(Start0(d, src)))
  }

  function Missing(d: Disk, src: Source): seq<nat>
    requires Payload(src)
  {
    MissingFrom(Start0(d, src).have, 0, FrameCount(|src.content|))
  }

  /** The staging area with some more of the source's chunks written to it. */
  function StageAll(d: Disk, content: bytes, indices: seq<nat>): Disk
    requires Opened(d) && Matches(d.stateFile.value, d.stateFile.value.transferId, |content|, FRAME)
    requires AllBelow(indices, FrameCount(|content|))
    ensures Opened(StageAll(d, content, indices))
    ensures StageAll(d, content, indices).stateFile.value
         == d.stateFile.value.(have := StageAll(d, content, indices).stateFile.value.have)
  {
    if indices == [] then d
    else
      var last := |indices| - 1;
      WriteChunk(StageAll(d, content, indices[..last]), indices[last], ChunkOf(content, indices[last], FRAME))
  }

  function SetOf(indices: seq<nat>): set<nat> {
    set i | i in indices
  }

  predicate NoRepeats(s: seq<nat>) {
    forall i, j :: 0 <= i < j < |s| ==> s[i] != s[j]
  }

  /** Indices in range, each once, none staged yet. */
  predicate Fresh(indices: seq<nat>, have: set<nat>, n: nat) {
    AllBelow(indices, n) && NoRepeats(indices) && forall i :: i in indices ==> i !in have
  }

  /** Staging chunks that were not staged adds exactly those, and leaves staging as right or as
      wrong as it was. */
  lemma {:induction false} StageAllKeeps(d: Disk, src: Source, indices: seq<nat>)
    requires Payload(src) && Shaped(d, src) && Opened(d)
    requires Matches(d.stateFile.value, src.transferId, |src.content|, FRAME)
    requires Fresh(indices, d.stateFile.value.have, FrameCount(|src.content|))
    ensures var e := StageAll(d, src.content, indices);
            && Shaped(e, src) && (Staged(e, src) <==> Staged(d, src))
            && e.stateFile.value.have == d.stateFile.value.have + SetOf(indices)
            && e.saved == d.saved && e.unpacked == d.unpacked
    decreases |indices|
  {
    hide WriteChunk, Faithful, TotalChunks;
    if indices != [] {
      var last := |indices| - 1;
      var before := StageAll(d, src.content, indices[..last]);
      StageAllKeeps(d, src, indices[..last]);
      StageOneKeeps(before, src, indices[last]);
      assert indices == indices[..last] + [indices[last]];
    }
  }

  lemma StageOneKeeps(d: Disk, src: Source, i: nat)
    requires Payload(src) && Shaped(d, src) && Opened(d)
    requires Matches(d.stateFile.value, src.transferId, |src.content|, FRAME)
    requires i < FrameCount(|src.content|) && i !in d.stateFile.value.have
    ensures var e := WriteChunk(d, i, ChunkOf(src.content, i, FRAME));
            && Shaped(e, src) && (Staged(e, src) <==> Staged(d, src))
            && e.stateFile.value.have == d.stateFile.value.have + {i}
            && e.saved == d.saved && e.unpacked == d.unpacked
  {
    hide Faithful, TotalChunks, DiskAt;
    FreshWriteKeepsTruth(d, src.content, src.transferId, FRAME, i, CrashPoint.Finished);
  }

  function OpenFor(d: Disk, src: Source): Disk
    requires Payload(src)
  {
    OpenOrCreate(d, src.transferId, |src.content|, FRAME)
  }

  /** Opening for this transfer: what was staged for it stays, right or wrong. */
  lemma OpenForKeeps(d: Disk, src: Source)
    requires Payload(src) && Shaped(d, src)
    ensures var o := OpenFor(d, src);
            && Opened(o) && Matches(o.stateFile.value, src.transferId, |src.content|, FRAME)
            && o.stateFile.value.have == Start0(d, src).have
            && Shaped(o, src) && (Staged(o, src) <==> Staged(d, src))
            && o.saved == d.saved && o.unpacked == d.unpacked
  {
    hide TotalChunks, ChunkOf;
  }

  lemma MissingFresh(d: Disk, src: Source, k: nat)
    requires Payload(src) && k <= |Missing(d, src)|
    ensures Fresh(Missing(d, src)[..k], Start0(d, src).have, FrameCount(|src.content|))
    ensures Missing(d, src)[..|Missing(d, src)|] == Missing(d, src)
  {
    hide MissingFrom, TotalChunks, LoadState;
    MissingExact(Start0(d, src).have, 0, FrameCount(|src.content|));
  }

  function WritesOf(content: bytes, indices: seq<nat>): seq<(nat, bytes)>
    requires AllBelow(indices, FrameCount(|content|))
  {
    if indices == [] then []
    else
      var last := |indices| - 1;
      WritesOf(content, indices[..last]) + [(indices[last], ChunkOf(content, indices[last], FRAME))]
  }

  function Handover(d: Disk, src: Source): Disk
    requires src.Blob?
  {
    if src.kind == Tar then UnpackAndClean(d) else FinalizeFile(d)
  }

  /** What the commit leaves: the file handed over if the staging was right, else all of it staged. */
  function AfterCommit(d: Disk, src: Source): Disk
    requires Payload(src) && AllBelow(Missing(d, src), FrameCount(|src.content|))
  {
    var full := StageAll(OpenFor(d, src), src.content, Missing(d, src));
    if Staged(d, src) then Handover(full, src) else full
  }

  /** Where an honest receiver stands after the first `k` frames of the transmission. */
  ghost predicate Honest(key: Key, src: Source, d: Disk, k: nat, t: ReceiverTrace)
    requires Payload(src)
  {
    var miss := Missing(d, src);
    var m := StreamManifest(src);
    var s := Start0(d, src);
    var n := FrameCount(|src.content|);
    AllBelow(miss, n) &&
    if k == 0 then t == ReceiverStart(d)
    else if k <= |miss| + 1 then
      && t.out == [AckFrame(key, ResumeAck(s))]
      && t.disk == StageAll(OpenFor(d, src), src.content, miss[..k - 1])
      && t.writes == WritesOf(src.content, miss[..k - 1])
      && t.phase == if k - 1 < |miss| then WantChunk(m, s.have, miss[k - 1]) else WantCommit(m)
    else
      && t.out == [AckFrame(key, ResumeAck(s)), CommitAckFrame(key, Staged(d, src))]
      && t.disk == AfterCommit(d, src)
      && t.writes == WritesOf(src.content, miss)
      && t.phase == ReceiverDone(if Staged(d, src) then Finalized else HashMismatch)
  }

  lemma TransmissionShape(key: Key, src: Source, d: Disk)
    requires Payload(src) && Shaped(d, src)
    ensures var miss := Missing(d, src);
            && AllBelow(miss, FrameCount(|src.content|))
            && Transmission(key, src, d) == [ManifestFrame(key, src)] + ChunkFrames(key, src.content, miss) + [CommitFrame(key, src.content)]
            && |miss| == FrameCount(|src.content|) - |Start0(d, src).have|
            && Below(Start0(d, src).have, FrameCount(|src.content|))
  {
    hide TotalChunks, SentFrom, MissingFrom, ChunkFrames, ChunkOf, Sorted, RunsOf;
    StartBelow(d, src);
    var s := Start0(d, src);
    Lockstep(s);
    MissingExact(s.have, 0, Total(s));
    MissingCount(s.have, Total(s), 0);
    assert (set j | j in s.have && j >= 0) == s.have;
    var ack := ResumeAck(s);
    assert [ManifestFrame(key, src)] + (ChunkFrames(key, src.content, SentFrom(ack, 0, Total(s))) + [CommitFrame(key, src.content)])
        == [ManifestFrame(key, src)] + ChunkFrames(key, src.content, SentFrom(ack, 0, Total(s))) + [CommitFrame(key, src.content)];
  }

  lemma {:induction false} ChunkFramesAt(key: Key, content: bytes, indices: seq<nat>, c: nat)
    requires |content| < TWO_POW_64 && AllBelow(indices, FrameCount(|content|)) && c < |indices|
    ensures ChunkFrames(key, content, indices)[c] == ChunkFrame(key, content, indices[c])
    decreases |indices|
  {
    if c < |indices| - 1 {
      ChunkFramesAt(key, content, indices[..|indices| - 1], c);
    }
  }

  lemma HonestManifest(key: Key, accept: Manifest -> bool, src: Source, d: Disk)
    requires Payload(src) && accept(StreamManifest(src)) && Shaped(d, src)
    ensures Honest(key, src, d, 1, ReceiverStep(key, accept, ReceiverStart(d), ManifestFrame(key, src)))
  {
    hide TotalChunks, ResumeAck, MissingFrom, NextMissing, Transmission, SetLen, ChunkFrames, MakeNonce;
    TransmissionShape(key, src, d);
    NextIsHead(Start0(d, src).have, 0, FrameCount(|src.content|));
    var miss := Missing(d, src);
    assert miss[..0] == [];
  }

  /** After each missing index the receiver waits for the next one, and then for the commit. */
  lemma AwaitsNext(src: Source, d: Disk, k: nat)
    requires Payload(src) && Shaped(d, src) && 1 <= k <= |Missing(d, src)|
    ensures var miss, m, have := Missing(d, src), StreamManifest(src), Start0(d, src).have;
            && AllBelow(miss, FrameCount(|src.content|))
            && Await(m, have, miss[k - 1] + 1) == if k < |miss| then WantChunk(m, have, miss[k]) else WantCommit(m)
  {
    hide TotalChunks, LoadState, MissingFrom, NextMissing, Shaped;
    var miss, n := Missing(d, src), FrameCount(|src.content|);
    var have := Start0(d, src).have;
    MissingExact(have, 0, n);
    NextOf(have, 0, n, k - 1);
    NextIsHead(have, miss[k - 1] + 1, n);
  }

  /** An honest chunk opens where the receiver waits for it, and is written. */
  lemma ChunkLands(key: Key, src: Source, t: ReceiverTrace, i: nat)
    requires Payload(src) && Opened(t.disk) && i < FrameCount(|src.content|)
    requires t.phase.WantChunk? && t.phase.next == i && t.phase.manifest == StreamManifest(src)
    requires Matches(t.disk.stateFile.value, src.transferId, |src.content|, FRAME)
    ensures OnChunk(key, t, ChunkFrame(key, src.content, i))
         == ReceiverTrace(Await(StreamManifest(src), t.phase.have, i + 1),
                          WriteChunk(t.disk, i, ChunkOf(src.content, i, FRAME)),
                          t.writes + [(i, ChunkOf(src.content, i, FRAME))], t.out)
  {
    hide TotalChunks, ChunkOf, MakeNonce, Await, WriteChunk, ExpectedLen;
  }

  lemma StageSnoc(d: Disk, content: bytes, indices: seq<nat>, k: nat)
    requires Opened(d) && Matches(d.stateFile.value, d.stateFile.value.transferId, |content|, FRAME)
    requires AllBelow(indices, FrameCount(|content|)) && 1 <= k <= |indices|
    ensures StageAll(d, content, indices[..k])
         == WriteChunk(StageAll(d, content, indices[..k - 1]), indices[k - 1], ChunkOf(content, indices[k - 1], FRAME))
    ensures WritesOf(content, indices[..k])
         == WritesOf(content, indices[..k - 1]) + [(indices[k - 1], ChunkOf(content, indices[k - 1], FRAME))]
  {
    hide WriteChunk, ChunkOf, TotalChunks;
    assert indices[..k][..k - 1] == indices[..k - 1];
  }

  lemma HonestChunk(key: Key, accept: Manifest -> bool, src: Source, d: Disk, k: nat, t: ReceiverTrace)
    requires Payload(src) && Shaped(d, src)
    requires 1 <= k <= |Missing(d, src)| && Honest(key, src, d, k, t) && Staging(t)
    ensures Honest(key, src, d, k + 1, ReceiverStep(key, accept, t, ChunkFrame(key, src.content, Missing(d, src)[k - 1])))
  {
    hide TotalChunks, ResumeAck, LoadState, SetLen, OnChunk, Await, WriteChunk, ChunkOf, StageAll, WritesOf, Shaped, Start0, MissingFrom, ChunkFrame;
    var miss := Missing(d, src);
    AwaitsNext(src, d, k);
    ChunkLands(key, src, t, miss[k - 1]);
    StageSnoc(OpenFor(d, src), src.content, miss, k);
  }

  /** Staging every missing chunk completes the file, which is the source exactly when what was
      staged before is right. */
  lemma AllStaged(d: Disk, src: Source)
    requires Payload(src) && Shaped(d, src)
    ensures AllBelow(Missing(d, src), FrameCount(|src.content|))
    ensures var e := StageAll(OpenFor(d, src), src.content, Missing(d, src));
            && Opened(e) && Matches(e.stateFile.value, src.transferId, |src.content|, FRAME)
            && Store.Complete(e.stateFile.value)
            && e.stateFile.value.have == UpTo(FrameCount(|src.content|))
            && (e.data == src.content <==> Staged(d, src))
            && Shaped(e, src) && (Staged(e, src) <==> Staged(d, src))
            && e.saved == d.saved && e.unpacked == d.unpacked
  {
    hide TotalChunks, StageAll, LoadState, Faithful, ChunkFrames, Transmission, SetLen;
    var miss, n := Missing(d, src), FrameCount(|src.content|);
    OpenForKeeps(d, src);
    MissingFresh(d, src, |miss|);
    StageAllKeeps(OpenFor(d, src), src, miss);
    var e := StageAll(OpenFor(d, src), src.content, miss);
    StartBelow(d, src);
    MissingExact(Start0(d, src).have, 0, n);
    assert forall i: nat :: i in Start0(d, src).have + SetOf(miss) <==> i < n;
    assert e.stateFile.value.have == UpTo(n);
    FullIsContent(e, src);
  }

  lemma StartBelow(d: Disk, src: Source)
    requires Payload(src) && Shaped(d, src)
    ensures Below(Start0(d, src).have, FrameCount(|src.content|))
  {
    hide TotalChunks;
  }

  /** A full staging area holds the source exactly when it is right. */
  lemma FullIsContent(e: Disk, src: Source)
    requires Payload(src) && Opened(e) && Matches(e.stateFile.value, src.transferId, |src.content|, FRAME)
    requires e.stateFile.value.have == UpTo(FrameCount(|src.content|))
    ensures Store.Complete(e.stateFile.value)
    ensures e.data == src.content <==> Staged(e, src)
  {
    hide TotalChunks, ChunkOf;
    FullIsEverything(e.stateFile.value.have, FrameCount(|src.content|));
    if Staged(e, src) {
      CompleteIsContent(e, src.content, src.transferId, FRAME);
    }
  }

  /** An honest commit opens where the receiver waits for it, and the file is judged by its hash. */
  lemma CommitLands(key: Key, src: Source, t: ReceiverTrace)
    requires Payload(src) && Opened(t.disk) && t.phase == WantCommit(StreamManifest(src))
    ensures OnCommit(key, t, CommitFrame(key, src.content))
         == var (result, disk) := Finalize(t.disk, StreamManifest(src), Digest(src.content));
            ReceiverTrace(ReceiverDone(result), disk, t.writes, t.out + [CommitAckFrame(key, result == Finalized)])
  {
    hide MakeNonce, TotalChunks, CommitAckFrame, Finalize;
  }

  lemma HonestCommit(key: Key, accept: Manifest -> bool, src: Source, d: Disk, t: ReceiverTrace)
    requires Payload(src) && Shaped(d, src)
    requires Honest(key, src, d, |Missing(d, src)| + 1, t) && Staging(t)
    ensures Honest(key, src, d, |Missing(d, src)| + 2, ReceiverStep(key, accept, t, CommitFrame(key, src.content)))
  {
    hide TotalChunks, StageAll, LoadState, Faithful, Shaped, Missing, ResumeAck, Store.Complete, WritesOf, SetLen, OnCommit, CommitFrame,
         CommitAckFrame, AckFrame;
    AllStaged(d, src);
    CommitLands(key, src, t);
    var miss := Missing(d, src);
    assert miss[..|miss|] == miss;
  }

  lemma HonestAtStart(key: Key, src: Source, d: Disk, t: ReceiverTrace)
    requires Payload(src)
    ensures Honest(key, src, d, 0, t) ==> t == ReceiverStart(d)
  {
  }

  /** The frames of a transmission, one by one. */
  lemma TransmissionAt(key: Key, src: Source, d: Disk, k: nat)
    requires Payload(src) && Shaped(d, src)
    ensures |Transmission(key, src, d)| == |Missing(d, src)| + 2
    ensures AllBelow(Missing(d, src), FrameCount(|src.content|))
    ensures k < |Transmission(key, src, d)| ==>
              Transmission(key, src, d)[k]
              == if k == 0 then ManifestFrame(key, src)
                 else if k <= |Missing(d, src)| then ChunkFrame(key, src.content, Missing(d, src)[k - 1])
                 else CommitFrame(key, src.content)
  {
    hide ChunkFrames, Transmission, Missing, Shaped, ManifestFrame, CommitFrame, ChunkFrame;
    TransmissionShape(key, src, d);
    if 1 <= k <= |Missing(d, src)| {
      ChunkFramesAt(key, src.content, Missing(d, src), k - 1);
    }
  }

  lemma HonestStep(key: Key, accept: Manifest -> bool, src: Source, d: Disk, k: nat, t: ReceiverTrace)
    requires Payload(src) && accept(StreamManifest(src)) && Shaped(d, src)
    requires k < |Transmission(key, src, d)| && Honest(key, src, d, k, t) && Staging(t)
    ensures Honest(key, src, d, k + 1, ReceiverStep(key, accept, t, Transmission(key, src, d)[k]))
  {
    hide ReceiverStep, Transmission, Missing, Honest, Shaped, Staging, Payload, ManifestFrame, CommitFrame, ChunkFrame;
    TransmissionAt(key, src, d, k);
    if k == 0 {
      HonestAtStart(key, src, d, t);
      HonestManifest(key, accept, src, d);
    } else if k <= |Missing(d, src)| {
      HonestChunk(key, accept, src, d, k, t);
    } else {
      HonestCommit(key, accept, src, d, t);
    }
  }

  /** However far the transmission gets, the receiver is exactly where it should be: it has
      staged the missing chunks received so far, and after the commit it has handed over the file. */
  lemma {:induction false} HonestRun(key: Key, accept: Manifest -> bool, src: Source, d: Disk, k: nat)
    requires Payload(src) && accept(StreamManifest(src)) && Shaped(d, src)
    requires k <= |Transmission(key, src, d)|
    ensures Honest(key, src, d, k, ReceiverRun(key, accept, d, Transmission(key, src, d)[..k]))
    decreases k
  {
    hide ReceiverStep, ReceiverRun, Transmission, Shaped, Honest, TotalChunks;
    var all := Transmission(key, src, d);
    if k == 0 {
      HonestStart(key, accept, src, d);
      assert all[..0] == [];
    } else {
      HonestRun(key, accept, src, d, k - 1);
      var t := ReceiverRun(key, accept, d, all[..k - 1]);
      HonestStep(key, accept, src, d, k - 1, t);
      ReceiverRunSnoc(key, accept, d, all[..k - 1], all[k - 1]);
      assert all[..k] == all[..k - 1] + [all[k - 1]];
    }
  }

  lemma HonestStart(key: Key, accept: Manifest -> bool, src: Source, d: Disk)
    requires Payload(src) && Shaped(d, src)
    ensures Honest(key, src, d, 0, ReceiverRun(key, accept, d, []))
  {
    hide TotalChunks, MissingFrom, Shaped;
    TransmissionShape(key, src, d);
  }

  /** And the sender, reading the receiver's two replies, transmits exactly that and reports what it hears. */
  lemma HonestSender(key: Key, src: Source, d: Disk, ok: bool)
    requires Payload(src)
    ensures var ack, cack := AckFrame(key, ResumeAck(Start0(d, src))), CommitAckFrame(key, ok);
            && SenderRun(key, src, []) == SenderTrace(WantAck, [ManifestFrame(key, src)])
            && SenderRun(key, src, [ack]) == SenderTrace(WantCommitAck, Transmission(key, src, d))
            && SenderRun(key, src, [ack, cack])
               == SenderTrace(SenderDone(if ok then SenderResult.Complete else FinalizeFailed), Transmission(key, src, d))
  {
    hide PayloadFrames, ResumeAck;
    var ack, cack := AckFrame(key, ResumeAck(Start0(d, src))), CommitAckFrame(key, ok);
    SenderRunSnoc(key, src, [], ack);
    SenderRunSnoc(key, src, [ack], cack);
    assert [] + [ack] == [ack] && [ack] + [cack] == [ack, cack];
    assert ResumeAck(Start0(d, src)).accepted by { AckAccepts(Start0(d, src)); }
  }

  lemma AckAccepts(s: State)
    requires s.chunkSize > 0
    ensures ResumeAck(s).AckMsg? && ResumeAck(s).accepted
  {
  }

  // ---------------------------------------------------------------- whole runs

  /** One session: its key, how many frames got through, and where the receiving process died
      if it was killed while writing the next chunk. */
  datatype Session = Session(key: Key, frames: nat, crash: Option<CrashPoint>)

  /** A session that never got its commit through; a crash hits a chunk write, at a real point. */
  predicate Interrupted(s: Session, src: Source, d: Disk)
    requires Payload(src)
  {
    && s.frames <= |Missing(d, src)| + 1
    && (s.crash.Some? ==>
          && 1 <= s.frames <= |Missing(d, src)|
          && AllBelow(Missing(d, src), FrameCount(|src.content|))
          && (s.crash.value.DuringData? ==>
                s.crash.value.written <= |ChunkOf(src.content, Missing(d, src)[s.frames - 1], FRAME)|))
  }

  lemma InterruptedDisk(s: Session, src: Source, accept: Manifest -> bool, d: Disk)
    requires Payload(src) && accept(StreamManifest(src)) && Shaped(d, src) && Interrupted(s, src, d)
    ensures var all := Transmission(s.key, src, d);
            && s.frames <= |all|
            && Honest(s.key, src, d, s.frames, ReceiverRun(s.key, accept, d, all[..s.frames]))
    ensures s.frames > 0 ==>
              var e := ReceiverRun(s.key, accept, d, Transmission(s.key, src, d)[..s.frames]).disk;
              && Opened(e) && Matches(e.stateFile.value, src.transferId, |src.content|, FRAME)
              && Shaped(e, src) && (Staged(e, src) <==> Staged(d, src))
              && e.stateFile.value.have == Start0(d, src).have + SetOf(Missing(d, src)[..s.frames - 1])
              && e.saved == d.saved && e.unpacked == d.unpacked
  {
    hide ReceiverRun, ChunkFrames, Transmission, Faithful, Shaped, MissingFrom, LoadState, TotalChunks, StageAll, WritesOf, Fresh;
    TransmissionShape(s.key, src, d);
    HonestRun(s.key, accept, src, d, s.frames);
    if s.frames > 0 {
      OpenForKeeps(d, src);
      MissingFresh(d, src, s.frames - 1);
      StageAllKeeps(OpenFor(d, src), src, Missing(d, src)[..s.frames - 1]);
    }
  }

  /** The chunk whose write is next is not among the ones written. */
  lemma NextIsFresh(s: Session, src: Source, d: Disk)
    requires Payload(src) && Interrupted(s, src, d) && s.crash.Some?
    ensures var miss, i := Missing(d, src), Missing(d, src)[s.frames - 1];
      i < FrameCount(|src.content|) && i !in Start0(d, src).have + SetOf(miss[..s.frames - 1])
  {
    hide LoadState, TotalChunks;
    MissingFresh(d, src, |Missing(d, src)|);
    hide MissingFrom;
  }

  lemma CrashLeaves(e: Disk, src: Source, i: nat, at: CrashPoint)
    requires Payload(src) && Shaped(e, src) && Opened(e)
    requires Matches(e.stateFile.value, src.transferId, |src.content|, FRAME)
    requires i < FrameCount(|src.content|) && i !in e.stateFile.value.have
    requires at.DuringData? ==> at.written <= |ChunkOf(src.content, i, FRAME)|
    ensures CheckWrite(e.stateFile.value, i, ChunkOf(src.content, i, FRAME)) == Written
    ensures var c := DiskAt(e, i, ChunkOf(src.content, i, FRAME), at);
            && Shaped(c, src) && (Staged(c, src) <==> Staged(e, src)) && c.saved == e.saved && c.unpacked == e.unpacked
            && c.stateFile.Some? && Matches(c.stateFile.value, src.transferId, |src.content|, FRAME)
            && Start0(c, src).have == e.stateFile.value.have + (if at.Finished? then {i} else {})
  {
    hide Faithful, TotalChunks, ChunkOf, ExpectedLen, DiskAt;
    FreshWriteKeepsTruth(e, src.content, src.transferId, FRAME, i, at);
  }

  /** The disk an interrupted session leaves behind. */
  function Leftover(s: Session, src: Source, accept: Manifest -> bool, d: Disk): Disk
    requires Payload(src) && accept(StreamManifest(src)) && Shaped(d, src) && Interrupted(s, src, d)
  {
    InterruptedDisk(s, src, accept, d);
    var t := ReceiverRun(s.key, accept, d, Transmission(s.key, src, d)[..s.frames]);
    if s.crash.None? then t.disk
    else
      var i := Missing(d, src)[s.frames - 1];
      NextIsFresh(s, src, d);
      CrashLeaves(t.disk, src, i, s.crash.value);
      DiskAt(t.disk, i, ChunkOf(src.content, i, FRAME), s.crash.value)
  }

  /** The chunk writes a session completed. */
  function Completed(s: Session, src: Source, d: Disk): seq<nat>
    requires Payload(src) && Interrupted(s, src, d)
  {
    if s.frames == 0 then []
    else if s.crash == Some(CrashPoint.Finished) then Missing(d, src)[..s.frames]
    else Missing(d, src)[..s.frames - 1]
  }

  lemma SessionKeeps(s: Session, src: Source, accept: Manifest -> bool, d: Disk)
    requires Payload(src) && accept(StreamManifest(src)) && Shaped(d, src) && Interrupted(s, src, d)
    ensures var e := Leftover(s, src, accept, d);
            && Shaped(e, src) && (Staged(e, src) <==> Staged(d, src)) && e.saved == d.saved && e.unpacked == d.unpacked
            && Start0(e, src).have == Start0(d, src).have + SetOf(Completed(s, src, d))
    ensures NoRepeats(Completed(s, src, d))
    ensures forall i :: i in Completed(s, src, d) ==> i !in Start0(d, src).have
    ensures s.frames <= |Transmission(s.key, src, d)| && AllBelow(Completed(s, src, d), FrameCount(|src.content|))
    ensures s.crash.None? ==>
              ReceiverRun(s.key, accept, d, Transmission(s.key, src, d)[..s.frames]).writes
              == WritesOf(src.content, Completed(s, src, d))
  {
    hide MissingFrom, LoadState, TotalChunks, Faithful, Shaped, WritesOf, NoRepeats, ReceiverRun, Transmission, DiskAt;
    if s.frames > 0 {
      if s.crash.Some? {
        CrashedSession(s, src, accept, d);
      } else {
        CutSession(s, src, accept, d);
      }
    } else {
      NothingReceived(s.key, accept, src, d);
    }
    CompletedFresh(s, src, d);
    CompletedIsWritten(s, src, accept, d);
  }

  lemma NothingReceived(key: Key, accept: Manifest -> bool, src: Source, d: Disk)
    requires Payload(src)
    ensures ReceiverRun(key, accept, d, Transmission(key, src, d)[..0]).disk == d
  {
  }

  /** The log of a session that was cut is what the receiver recorded as written. */
  lemma CompletedIsWritten(s: Session, src: Source, accept: Manifest -> bool, d: Disk)
    requires Payload(src) && accept(StreamManifest(src)) && Shaped(d, src) && Interrupted(s, src, d)
    ensures s.frames <= |Transmission(s.key, src, d)| && AllBelow(Completed(s, src, d), FrameCount(|src.content|))
    ensures s.crash.None? ==>
              ReceiverRun(s.key, accept, d, Transmission(s.key, src, d)[..s.frames]).writes
              == WritesOf(src.content, Completed(s, src, d))
  {
    hide MissingFrom, LoadState, TotalChunks, Faithful, Shaped, ReceiverRun, Transmission, StageAll;
    InterruptedDisk(s, src, accept, d);
  }

  /** What a session completes it completes once, and it was not staged before. */
  lemma CompletedFresh(s: Session, src: Source, d: Disk)
    requires Payload(src) && Interrupted(s, src, d)
    ensures NoRepeats(Completed(s, src, d))
    ensures forall i :: i in Completed(s, src, d) ==> i !in Start0(d, src).have
  {
    hide MissingFrom, LoadState, TotalChunks;
    MissingExact(Start0(d, src).have, 0, FrameCount(|src.content|));
  }

  lemma CutSession(s: Session, src: Source, accept: Manifest -> bool, d: Disk)
    requires Payload(src) && accept(StreamManifest(src)) && Shaped(d, src) && Interrupted(s, src, d)
    requires s.frames > 0 && s.crash.None?
    ensures var e := Leftover(s, src, accept, d);
            && Shaped(e, src) && (Staged(e, src) <==> Staged(d, src)) && e.saved == d.saved && e.unpacked == d.unpacked
            && Start0(e, src).have == Start0(d, src).have + SetOf(Missing(d, src)[..s.frames - 1])
  {
    hide ReceiverRun, Transmission, MissingFrom, TotalChunks, Faithful, Shaped;
    InterruptedDisk(s, src, accept, d);
  }

  lemma CrashedSession(s: Session, src: Source, accept: Manifest -> bool, d: Disk)
    requires Payload(src) && accept(StreamManifest(src)) && Shaped(d, src) && Interrupted(s, src, d)
    requires s.crash.Some?
    ensures var e := Leftover(s, src, accept, d);
            && Shaped(e, src) && (Staged(e, src) <==> Staged(d, src)) && e.saved == d.saved && e.unpacked == d.unpacked
            && Start0(e, src).have == Start0(d, src).have
                 + SetOf(Missing(d, src)[..if s.crash.value.Finished? then s.frames else s.frames - 1])
  {
    hide ReceiverRun, Transmission, MissingFrom, TotalChunks, Faithful, Shaped, DiskAt, ChunkOf, Honest, LoadState, StageAll;
    InterruptedDisk(s, src, accept, d);
    NextIsFresh(s, src, d);
    var miss := Missing(d, src);
    var t := ReceiverRun(s.key, accept, d, Transmission(s.key, src, d)[..s.frames]);
    var i := miss[s.frames - 1];
    CrashLeaves(t.disk, src, i, s.crash.value);
    assert SetOf(miss[..s.frames]) == SetOf(miss[..s.frames - 1]) + {i} by {
      assert miss[..s.frames] == miss[..s.frames - 1] + [i];
    }
  }

  lemma NoRepeatsConcat(a: seq<nat>, b: seq<nat>)
    requires NoRepeats(a) && NoRepeats(b)
    requires forall i :: i in a ==> i !in b
    ensures NoRepeats(a + b)
  {
    forall i, j | 0 <= i < j < |a + b|
      ensures (a + b)[i] != (a + b)[j]
    {
      if i < |a| <= j {
        assert a[i] in a && b[j - |a|] in b;
      }
    }
  }

  /** The disk and the log of completed chunk writes after any number of interrupted sessions. */
  ghost predicate Leads(d: Disk, sessions: seq<Session>, src: Source, accept: Manifest -> bool, e: Disk, log: seq<nat>)
    requires Payload(src) && accept(StreamManifest(src))
    decreases |sessions|
  {
    if sessions == [] then e == d && log == []
    else
      && Shaped(d, src) && Interrupted(sessions[0], src, d)
      && exists rest ::
           && log == Completed(sessions[0], src, d) + rest
           && Leads(Leftover(sessions[0], src, accept, d), sessions[1..], src, accept, e, rest)
  }

  /** Whole runs: after any sequence of sessions, each cut after any frame or killed in the middle
      of a chunk write, the chunks that were not staged before are the source's and the others are
      as right or as wrong as they were, nothing was handed over, and no chunk write was ever
      completed twice. */
  lemma {:induction false} InterruptedRuns(d: Disk, sessions: seq<Session>, src: Source, accept: Manifest -> bool, e: Disk, log: seq<nat>)
    requires Payload(src) && accept(StreamManifest(src)) && Shaped(d, src)
    requires Leads(d, sessions, src, accept, e, log)
    ensures Shaped(e, src) && (Staged(e, src) <==> Staged(d, src)) && e.saved == d.saved && e.unpacked == d.unpacked
    ensures Start0(e, src).have == Start0(d, src).have + SetOf(log)
    ensures NoRepeats(log)
    ensures forall i :: i in log ==> i !in Start0(d, src).have
    decreases |sessions|
  {
    hide Interrupted, Completed, Leftover, Faithful, Shaped, LoadState, ReceiverRun, Transmission, WritesOf;
    if sessions != [] {
      var s := sessions[0];
      var rest :|
        && log == Completed(s, src, d) + rest
        && Leads(Leftover(s, src, accept, d), sessions[1..], src, accept, e, rest);
      var mid := Leftover(s, src, accept, d);
      SessionKeeps(s, src, accept, d);
      InterruptedRuns(mid, sessions[1..], src, accept, e, rest);
      assert forall i :: i in Completed(s, src, d) ==> i in Start0(mid, src).have;
      NoRepeatsConcat(Completed(s, src, d), rest);
      assert SetOf(log) == SetOf(Completed(s, src, d)) + SetOf(rest);
    }
  }

  /** One uncut session over any staging of the right shape. It sends one frame for each chunk not
      yet staged plus the manifest and the commit, and delivers exactly the source if and only if
      what was staged under this id is the source's. If not, the hash tells: both sides report the
      failure, nothing is handed over, and everything stays staged, as wrong as it was. */
  lemma DeliversExactly(e: Disk, src: Source, accept: Manifest -> bool, key: Key)
    requires Payload(src) && accept(StreamManifest(src)) && Shaped(e, src)
    ensures var frames := Transmission(key, src, e);
            var t := ReceiverRun(key, accept, e, frames);
            var r := SenderRun(key, src, t.out);
            && |frames| == 2 + FrameCount(|src.content|) - |Start0(e, src).have|
            && r.out == frames
            && (t.phase == ReceiverDone(Finalized) <==> Staged(e, src))
            && (r.phase == SenderDone(SenderResult.Complete) <==> Staged(e, src))
            && (if Staged(e, src) then
                  && t.disk.data == [] && t.disk.stateFile.None? && t.disk.tmp == NoTmp
                  && (src.kind == File ==> t.disk.saved == Some(src.content) && t.disk.unpacked == e.unpacked)
                  && (src.kind == Tar ==> t.disk.unpacked == Some(src.content) && t.disk.saved == e.saved)
                else
                  && t.phase == ReceiverDone(HashMismatch) && r.phase == SenderDone(FinalizeFailed)
                  && t.disk.saved == e.saved && t.disk.unpacked == e.unpacked
                  && Shaped(t.disk, src) && !Staged(t.disk, src) && Missing(t.disk, src) == [])
  {
    hide ReceiverRun, SenderRun, ResumeAck, StageAll, Transmission, Faithful, Shaped, Missing, LoadState;
    var frames := Transmission(key, src, e);
    TransmissionShape(key, src, e);
    HonestRun(key, accept, src, e, |frames|);
    HonestSender(key, src, e, Staged(e, src));
    AllStaged(e, src);
    NothingMissing(StageAll(OpenFor(e, src), src.content, Missing(e, src)), src);
    assert frames[..|frames|] == frames;
  }

  lemma NothingMissing(e: Disk, src: Source)
    requires Payload(src) && Opened(e) && Matches(e.stateFile.value, src.transferId, |src.content|, FRAME)
    requires e.stateFile.value.have == UpTo(FrameCount(|src.content|))
    ensures Missing(e, src) == []
  {
    hide TotalChunks, MissingFrom;
    var have := Start0(e, src).have;
    MissingCount(have, FrameCount(|src.content|), 0);
    assert (set j | j in have && j >= 0) == have;
  }

  /** The first session that is not cut, after any run of interrupted ones. */
  lemma FirstUncutSession(d: Disk, sessions: seq<Session>, src: Source, accept: Manifest -> bool, e: Disk, log: seq<nat>, key: Key)
    requires Payload(src) && accept(StreamManifest(src)) && Shaped(d, src)
    requires Leads(d, sessions, src, accept, e, log)
    ensures var frames := Transmission(key, src, e);
            var t := ReceiverRun(key, accept, e, frames);
            var r := SenderRun(key, src, t.out);
            && |frames| == 2 + FrameCount(|src.content|) - |Start0(e, src).have|
            && r.out == frames
            && (t.phase == ReceiverDone(Finalized) <==> Staged(d, src))
            && (r.phase == SenderDone(SenderResult.Complete) <==> Staged(d, src))
            && (Staged(d, src) && src.kind == File ==> t.disk.saved == Some(src.content) && t.disk.unpacked == d.unpacked)
            && (Staged(d, src) && src.kind == Tar ==> t.disk.unpacked == Some(src.content) && t.disk.saved == d.saved)
            && (!Staged(d, src) ==> t.disk.saved == d.saved && t.disk.unpacked == d.unpacked)
  {
    hide ReceiverRun, SenderRun, Transmission, Faithful, Shaped, LoadState, Missing, Leads;
    InterruptedRuns(d, sessions, src, accept, e, log);
    DeliversExactly(e, src, accept, key);
  }

  /** The disk after uncut retries of one source, each with its own key. */
  function AfterRetries(d: Disk, src: Source, accept: Manifest -> bool, keys: seq<Key>): Disk
    requires Payload(src)
  {
    if keys == [] then d
    else
      var e := AfterRetries(d, src, accept, keys[..|keys| - 1]);
      var key := keys[|keys| - 1];
      ReceiverRun(key, accept, e, Transmission(key, src, e)).disk
  }

  /** Wrong staging under the id never recovers: every retry, however often, fails on the hash, and
      every one after the first sends the manifest and the commit and nothing between. */
  lemma {:induction false} NeverRecovers(d: Disk, src: Source, accept: Manifest -> bool, keys: seq<Key>, key: Key)
    requires Payload(src) && accept(StreamManifest(src)) && Shaped(d, src) && !Staged(d, src)
    ensures var e := AfterRetries(d, src, accept, keys);
            var frames := Transmission(key, src, e);
            && Shaped(e, src) && !Staged(e, src) && e.saved == d.saved && e.unpacked == d.unpacked
            && ReceiverRun(key, accept, e, frames).phase == ReceiverDone(HashMismatch)
            && (keys != [] ==> |frames| == 2)
    decreases |keys|
  {
    hide ReceiverRun, SenderRun, Transmission, Faithful, Shaped, Missing;
    if keys != [] {
      var last := |keys| - 1;
      NeverRecovers(d, src, accept, keys[..last], keys[last]);
      DeliversExactly(AfterRetries(d, src, accept, keys[..last]), src, accept, keys[last]);
    }
    var e := AfterRetries(d, src, accept, keys);
    DeliversExactly(e, src, accept, key);
    TransmissionAt(key, src, e, 0);
  }

  /** It does happen: the id covers names, sizes and whole seconds of modification times. A source whose
      first chunk changes under one id, after an attempt that got one chunk through, is staged wrong. */
  lemma EditedBetweenAttempts(before: Source, after: Source, accept: Manifest -> bool, key: Key)
    requires Payload(before) && Payload(after) && accept(StreamManifest(before))
    requires before.transferId == after.transferId && |before.content| == |after.content| > 0
    requires 0 < FrameCount(|before.content|)
    requires ChunkOf(before.content, 0, FRAME) != ChunkOf(after.content, 0, FRAME)
    ensures Shaped(EMPTY_DISK, before) && Interrupted(Session(key, 2, None), before, EMPTY_DISK)
    ensures var e := Leftover(Session(key, 2, None), before, accept, EMPTY_DISK);
      Shaped(e, after) && !Staged(e, after)
  {
    var s := Session(key, 2, None);
    var n := FrameCount(|before.content|);
    FirstMissing(before);
    hide ReceiverRun, Transmission, ChunkOf, MissingFrom, TotalChunks, WritesOf;
    InterruptedDisk(s, before, accept, EMPTY_DISK);
    var e := Leftover(s, before, accept, EMPTY_DISK);
    assert Missing(EMPTY_DISK, before)[..1] == [0];
    assert 0 in SetOf([0]) by { assert [0][0] == 0; }
    assert 0 in e.stateFile.value.have;
    assert ChunkOf(e.data, 0, FRAME) == ChunkOf(before.content, 0, FRAME);
  }

  lemma FirstMissing(src: Source)
    requires Payload(src) && 0 < FrameCount(|src.content|)
    ensures Missing(EMPTY_DISK, src) != [] && Missing(EMPTY_DISK, src)[0] == 0
  {
    hide TotalChunks;
  }

  // ---------------------------------------------------------------- sessions that end at the manifest

  function TextOf(src: Source): bytes {
    if src.TextSource? then src.content else []
  }

  /** The receiver's reply to a manifest that brings no payload. */
  function ShortReply(accept: Manifest -> bool, src: Source): Plain
    requires Sized(src)
  {
    if accept(StreamManifest(src)) then AckMsg(true, false, []) else REFUSAL
  }

  function ShortResults(accept: Manifest -> bool, src: Source): (SenderResult, ReceiverResult)
    requires Sized(src)
  {
    if accept(StreamManifest(src)) then (TextDelivered, GotText(TextOf(src))) else (Declined, Refused)
  }

  lemma ReceiverAtManifest(key: Key, accept: Manifest -> bool, src: Source, d: Disk)
    requires Sized(src) && (StreamManifest(src).kind == Text || !accept(StreamManifest(src)))
    ensures ReceiverRun(key, accept, d, [ManifestFrame(key, src)])
         == ReceiverTrace(ReceiverDone(ShortResults(accept, src).1), d, [], [AckFrame(key, ShortReply(accept, src))])
  {
    hide MakeNonce, ReceiverRun, OpenOrCreate, Await, ResumeAck;
    ReceiverRunSnoc(key, accept, d, [], ManifestFrame(key, src));
    assert [] + [ManifestFrame(key, src)] == [ManifestFrame(key, src)];
    assert ReceiverRun(key, accept, d, []) == ReceiverStart(d) by { ReceiverRunStart(key, accept, d); }
  }

  lemma ReceiverRunStart(key: Key, accept: Manifest -> bool, d: Disk)
    ensures ReceiverRun(key, accept, d, []) == ReceiverStart(d)
  {
  }

  lemma SenderAtReply(key: Key, accept: Manifest -> bool, src: Source)
    requires Sized(src) && (StreamManifest(src).kind == Text || !accept(StreamManifest(src)))
    ensures SenderRun(key, src, []) == SenderTrace(WantAck, [ManifestFrame(key, src)])
    ensures SenderRun(key, src, [AckFrame(key, ShortReply(accept, src))])
         == SenderTrace(SenderDone(ShortResults(accept, src).0), [ManifestFrame(key, src)])
  {
    hide MakeNonce, PayloadFrames, ManifestFrame;
    var reply := AckFrame(key, ShortReply(accept, src));
    SenderRunSnoc(key, src, [], reply);
    assert [] + [reply] == [reply];
  }

  /** A refused transfer, and a text, end at the manifest on both sides: one frame each way, the
      text arrives as it was sent, and the disk is not touched. */
  lemma ManifestEnds(key: Key, accept: Manifest -> bool, src: Source, d: Disk)
    requires Sized(src) && (StreamManifest(src).kind == Text || !accept(StreamManifest(src)))
    ensures var t := ReceiverRun(key, accept, d, SenderRun(key, src, []).out);
            var s := SenderRun(key, src, t.out);
            && t.disk == d && t.writes == [] && |t.out| == 1 && s.out == [ManifestFrame(key, src)]
            && (if accept(StreamManifest(src))
                then t.phase == ReceiverDone(GotText(TextOf(src))) && s.phase == SenderDone(TextDelivered)
                else t.phase == ReceiverDone(Refused) && s.phase == SenderDone(Declined))
  {
    hide ReceiverRun, SenderRun;
    ReceiverAtManifest(key, accept, src, d);
    SenderAtReply(key, accept, src);
  }
}
