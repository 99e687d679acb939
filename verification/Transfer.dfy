/** The resumable sealed transfer (src/stream.rs): the sender and the receiver as they run, and
    the two reactive machines that say what they send and stage for the frames they are given. */
module Transfer {
  import opened Bytes
  import opened Crypto
  import opened Chunks
  import opened Store
  import opened Runs

  const STREAM_FRAME_SIZE: u64 := 16 * 1024
  const PROTOCOL_VERSION: nat := 1

  datatype Kind = File | Tar | Text

  datatype Source =
    | Blob(kind: Kind, name: string, content: bytes, transferId: string)
    | TextSource(content: bytes, transferId: string)

  /** Sizes are 64-bit in the protocol. */
  predicate Sized(src: Source) {
    |src.content| < TWO_POW_64
  }

  datatype Manifest = Manifest(version: nat, transferId: string, kind: Kind, name: string,
                               totalSize: u64, chunkSize: u64, text: Option<bytes>)

  /** Plaintexts, one constructor for each JSON message and one for chunk bytes. */
  datatype Plain =
    | ManifestMsg(manifest: Manifest)
    | AckMsg(accepted: bool, complete: bool, haveRuns: seq<IndexRun>)
    | ChunkMsg(data: bytes)
    | CommitMsg(hash: Digest)
    | CommitAckMsg(ok: bool)

  type Frame = Cipher<Plain>

  function StreamManifest(src: Source): Manifest
    requires Sized(src)
  {
    match src
    case Blob(kind, name, content, tid) =>
      Manifest(PROTOCOL_VERSION, tid, kind, name, |content|, STREAM_FRAME_SIZE, None)
    case TextSource(content, tid) =>
      Manifest(PROTOCOL_VERSION, tid, Text, "", |content|, STREAM_FRAME_SIZE, Some(content))
  }

  function FrameCount(total: nat): nat {
    TotalChunks(total, STREAM_FRAME_SIZE)
  }

  lemma {:induction false} FrameCountBound(total: nat)
    ensures FrameCount(total) * 16384 < total + 16384
    decreases total
  {
    if total > 16384 {
      FrameCountBound(total - 16384);
    }
  }

  /** The nonce index of chunk `i`, and of the commit for `i == FrameCount(total)`. */
  function PayloadIndex(i: nat, total: u64): u64
    requires i <= FrameCount(total)
  {
    FrameCountBound(total);
    1 + i
  }

  // ---------------------------------------------------------------- the sender

  /** The sender's skip rule, read off the receiver's acknowledgement. */
  predicate Skips(ack: Plain, i: nat)
    requires ack.AckMsg?
  {
    ack.complete || Contains(ack.haveRuns, i)
  }

  /** Indices from `i` on that the sender transmits. */
  function SentFrom(ack: Plain, i: nat, n: nat): seq<nat>
    requires ack.AckMsg? && i <= n
    decreases n - i
  {
    if i == n then []
    else (if Skips(ack, i) then [] else [i]) + SentFrom(ack, i + 1, n)
  }

  function ChunkFrame(key: Key, content: bytes, i: nat): Frame
    requires |content| < TWO_POW_64 && i < FrameCount(|content|)
  {
    Seal(key, StreamToReceiver, PayloadIndex(i, |content|), "",
         ChunkMsg(ChunkOf(content, i, STREAM_FRAME_SIZE)))
  }

  predicate AllBelow(indices: seq<nat>, n: nat) {
    forall k :: 0 <= k < |indices| ==> indices[k] < n
  }

  function ChunkFrames(key: Key, content: bytes, indices: seq<nat>): (fs: seq<Frame>)
    requires |content| < TWO_POW_64 && AllBelow(indices, FrameCount(|content|))
    ensures |fs| == |indices|
  {
    if indices == [] then []
    else
      var last := |indices| - 1;
      ChunkFrames(key, content, indices[..last]) + [ChunkFrame(key, content, indices[last])]
  }

  function CommitFrame(key: Key, content: bytes): Frame
    requires |content| < TWO_POW_64
  {
    Seal(key, StreamToReceiver, PayloadIndex(FrameCount(|content|), |content|), "", CommitMsg(Digest(content)))
  }

  function ManifestFrame(key: Key, src: Source): Frame
    requires Sized(src)
  {
    Seal(key, StreamToReceiver, 0, "", ManifestMsg(StreamManifest(src)))
  }

  /** Everything the sender transmits for an accepting acknowledgement. */
  function PayloadFrames(key: Key, content: bytes, ack: Plain): seq<Frame>
    requires |content| < TWO_POW_64 && ack.AckMsg?
  {
    SentInRange(ack, 0, FrameCount(|content|));
    ChunkFrames(key, content, SentFrom(ack, 0, FrameCount(|content|))) + [CommitFrame(key, content)]
  }

  datatype SenderResult = Complete | TextDelivered | Declined | BadAck | BadCommitAck | FinalizeFailed
  datatype SenderPhase = WantAck | WantCommitAck | SenderDone(result: SenderResult)
  datatype SenderTrace = SenderTrace(phase: SenderPhase, out: seq<Frame>)

  function SenderStep(key: Key, src: Source, t: SenderTrace, f: Frame): SenderTrace
    requires Sized(src)
  {
    match t.phase
    case WantAck =>
      (match Open<Plain>(key, StreamToSender, 0, "", f)
       case Some(AckMsg(accepted, complete, runs)) =>
         if !accepted then t.(phase := SenderDone(Declined))
         else if StreamManifest(src).kind == Text then t.(phase := SenderDone(TextDelivered))
         else SenderTrace(WantCommitAck, t.out + PayloadFrames(key, src.content, AckMsg(accepted, complete, runs)))
       case _ => t.(phase := SenderDone(BadAck)))
    case WantCommitAck =>
      (match Open<Plain>(key, StreamToSender, 1, "", f)
       case Some(CommitAckMsg(ok)) => t.(phase := SenderDone(if ok then Complete else FinalizeFailed))
       case _ => t.(phase := SenderDone(BadCommitAck)))
    case SenderDone(_) => t
  }

  /** What `send_source` has sent, and where it stands, after reading `inputs`. */
  function SenderRun(key: Key, src: Source, inputs: seq<Frame>): SenderTrace
    requires Sized(src)
  {
    if inputs == [] then SenderTrace(WantAck, [ManifestFrame(key, src)])
    else SenderStep(key, src, SenderRun(key, src, inputs[..|inputs| - 1]), inputs[|inputs| - 1])
  }

  lemma {:induction false} SentInRange(ack: Plain, i: nat, n: nat)
    requires ack.AckMsg? && i <= n
    ensures forall k :: 0 <= k < |SentFrom(ack, i, n)| ==> i <= SentFrom(ack, i, n)[k] < n
    ensures AllBelow(SentFrom(ack, i, n), n)
    ensures Ascending(SentFrom(ack, i, n))
    decreases n - i
  {
    if i < n {
      SentInRange(ack, i + 1, n);
    }
  }

  // ---------------------------------------------------------------- the receiver

  /** The next index the receiver waits for, `n` when none is missing. */
  function NextMissing(have: set<nat>, i: nat, n: nat): (j: nat)
    requires i <= n
    ensures i <= j <= n
    ensures j < n ==> j !in have
    ensures forall k :: i <= k < j ==> k in have
    decreases n - i
  {
    if i == n || i !in have then i else NextMissing(have, i + 1, n)
  }

  /** Indices from `i` on that the receiver waits for. */
  function MissingFrom(have: set<nat>, i: nat, n: nat): seq<nat>
    requires i <= n
    decreases n - i
  {
    if i == n then [] else (if i in have then [] else [i]) + MissingFrom(have, i + 1, n)
  }

  datatype ReceiverResult =
    | GotText(text: bytes) | Finalized
    | BadManifest | VersionMismatch | BadFrameSize | Refused | BadChunk | WriteFailed
    | BadCommit | Incomplete | HashMismatch

  datatype ReceiverPhase =
    | WantManifest
    | WantChunk(manifest: Manifest, have: set<nat>, next: nat)
    | WantCommit(manifest: Manifest)
    | ReceiverDone(result: ReceiverResult)

  /** `writes` records the chunk writes, in order. */
  datatype ReceiverTrace = ReceiverTrace(phase: ReceiverPhase, disk: Disk, writes: seq<(nat, bytes)>, out: seq<Frame>)

  function Await(m: Manifest, have: set<nat>, i: nat): ReceiverPhase
    requires i <= FrameCount(m.totalSize)
  {
    var j := NextMissing(have, i, FrameCount(m.totalSize));
    if j < FrameCount(m.totalSize) then WantChunk(m, have, j) else WantCommit(m)
  }

  function AckFrame(key: Key, ack: Plain): Frame {
    Seal(key, StreamToSender, 0, "", ack)
  }

  const REFUSAL := AckMsg(false, false, [])

  /** The acknowledgement that carries what is staged. */
  function ResumeAck(s: State): Plain
    requires s.chunkSize > 0
  {
    AckMsg(true, Store.Complete(s), RunsOf(Sorted(s.have)))
  }

  function CommitAckFrame(key: Key, ok: bool): Frame {
    Seal(key, StreamToSender, 1, "", CommitAckMsg(ok))
  }

  function OnManifest(key: Key, accept: Manifest -> bool, t: ReceiverTrace, m: Manifest): ReceiverTrace {
    if m.version != PROTOCOL_VERSION then
      t.(phase := ReceiverDone(VersionMismatch), out := t.out + [AckFrame(key, REFUSAL)])
    else if m.kind != Text && m.chunkSize != STREAM_FRAME_SIZE then
      t.(phase := ReceiverDone(BadFrameSize), out := t.out + [AckFrame(key, REFUSAL)])
    else if !accept(m) then
      t.(phase := ReceiverDone(Refused), out := t.out + [AckFrame(key, REFUSAL)])
    else if m.kind == Text then
      t.(phase := ReceiverDone(GotText(if m.text.Some? then m.text.value else [])),
         out := t.out + [AckFrame(key, AckMsg(true, false, []))])
    else
      var d := OpenOrCreate(t.disk, m.transferId, m.totalSize, m.chunkSize);
      var s := d.stateFile.value;
      ReceiverTrace(Await(m, s.have, 0), d, t.writes, t.out + [AckFrame(key, ResumeAck(s))])
  }

  /** `finalize`: the file is handed over only if it is complete and hashes to the commit. */
  function Finalize(d: Disk, m: Manifest, hash: Digest): (ReceiverResult, Disk)
    requires Opened(d)
  {
    if !Store.Complete(d.stateFile.value) then (Incomplete, d)
    else if Digest(d.data) != hash then (HashMismatch, d)
    else if m.kind == Tar then (Finalized, UnpackAndClean(d))
    else (Finalized, FinalizeFile(d))
  }

  function OnChunk(key: Key, t: ReceiverTrace, f: Frame): ReceiverTrace
    requires t.phase.WantChunk? && Opened(t.disk) && t.phase.next < FrameCount(t.phase.manifest.totalSize)
  {
    var i := t.phase.next;
    match Open<Plain>(key, StreamToReceiver, PayloadIndex(i, t.phase.manifest.totalSize), "", f)
    case Some(ChunkMsg(pt)) =>
      if CheckWrite(t.disk.stateFile.value, i, pt) != Written then t.(phase := ReceiverDone(WriteFailed))
      else ReceiverTrace(Await(t.phase.manifest, t.phase.have, i + 1), WriteChunk(t.disk, i, pt), t.writes + [(i, pt)], t.out)
    case _ => t.(phase := ReceiverDone(BadChunk))
  }

  function OnCommit(key: Key, t: ReceiverTrace, f: Frame): ReceiverTrace
    requires t.phase.WantCommit? && Opened(t.disk)
  {
    var m := t.phase.manifest;
    match Open<Plain>(key, StreamToReceiver, PayloadIndex(FrameCount(m.totalSize), m.totalSize), "", f)
    case Some(CommitMsg(hash)) =>
      var (result, disk) := Finalize(t.disk, m, hash);
      t.(phase := ReceiverDone(result), disk := disk, out := t.out + [CommitAckFrame(key, result == Finalized)])
    case _ => t.(phase := ReceiverDone(BadCommit))
  }

  /** While payload frames are awaited, the staging area is open for this transfer. */
  predicate Staging(t: ReceiverTrace) {
    && (t.phase.WantChunk? || t.phase.WantCommit? ==>
          Opened(t.disk)
          && t.phase.manifest.kind != Text && t.phase.manifest.chunkSize == STREAM_FRAME_SIZE
          && Matches(t.disk.stateFile.value, t.phase.manifest.transferId, t.phase.manifest.totalSize, STREAM_FRAME_SIZE))
    && (t.phase.WantChunk? ==> t.phase.next < FrameCount(t.phase.manifest.totalSize) && t.phase.next !in t.phase.have)
  }

  function ReceiverStep(key: Key, accept: Manifest -> bool, t: ReceiverTrace, f: Frame): (t': ReceiverTrace)
    requires Staging(t)
    ensures Staging(t')
    ensures t.out <= t'.out && t.writes <= t'.writes
  {
    match t.phase
    case WantManifest =>
      (match Open<Plain>(key, StreamToReceiver, 0, "", f)
       case Some(ManifestMsg(m)) => OnManifest(key, accept, t, m)
       case _ => t.(phase := ReceiverDone(BadManifest)))
    case WantChunk(_, _, _) => OnChunk(key, t, f)
    case WantCommit(_) => OnCommit(key, t, f)
    case ReceiverDone(_) => t
  }

  function ReceiverStart(disk: Disk): ReceiverTrace {
    ReceiverTrace(WantManifest, disk, [], [])
  }

  /** What `recv_into` has sent and staged, and where it stands, after reading `inputs`. */
  function ReceiverRun(key: Key, accept: Manifest -> bool, disk: Disk, inputs: seq<Frame>): (t: ReceiverTrace)
    ensures Staging(t)
  {
    if inputs == [] then ReceiverStart(disk)
    else ReceiverStep(key, accept, ReceiverRun(key, accept, disk, inputs[..|inputs| - 1]), inputs[|inputs| - 1])
  }

  lemma ReceiverRunSnoc(key: Key, accept: Manifest -> bool, disk: Disk, inputs: seq<Frame>, f: Frame)
    ensures ReceiverRun(key, accept, disk, inputs + [f])
         == ReceiverStep(key, accept, ReceiverRun(key, accept, disk, inputs), f)
  {
    assert (inputs + [f])[..|inputs|] == inputs;
  }

  lemma SenderRunSnoc(key: Key, src: Source, inputs: seq<Frame>, f: Frame)
    requires Sized(src)
    ensures SenderRun(key, src, inputs + [f]) == SenderStep(key, src, SenderRun(key, src, inputs), f)
  {
    assert (inputs + [f])[..|inputs|] == inputs;
  }

  // ---------------------------------------------------------------- the code as it runs

  /** A reliable ordered message channel. `inbox` is what will still arrive before the
      connection is lost, `got` what was taken from it. */
  class Channel {
    var inbox: seq<Frame>
    var got: seq<Frame>
    var outbox: seq<Frame>

    constructor (inbox: seq<Frame>)
      ensures this.inbox == inbox && got == [] && outbox == []
    {
      this.inbox, got, outbox := inbox, [], [];
    }

    method Send(f: Frame)
      modifies this`outbox
      ensures outbox == old(outbox) + [f]
    {
      outbox := outbox + [f];
    }

    /** `None` is the connection lost. */
    method Recv() returns (f: Option<Frame>)
      modifies this`inbox, this`got
      ensures f.None? ==> old(inbox) == [] && inbox == [] && got == old(got)
      ensures f.Some? ==> old(inbox) == [f.value] + inbox && got == old(got) + [f.value]
    {
      if inbox == [] {
        return None;
      }
      f := Some(inbox[0]);
      got := got + [inbox[0]];
      inbox := inbox[1..];
    }
  }

  /** It still waited for the last frame it read: it reads no further than it must. */
  ghost predicate SenderReadOn(key: Key, src: Source, got: seq<Frame>)
    requires Sized(src)
  {
    got != [] && !SenderRun(key, src, got[..|got| - 1]).phase.SenderDone?
  }

  ghost predicate ReceiverReadOn(key: Key, accept: Manifest -> bool, disk: Disk, got: seq<Frame>) {
    got != [] && !ReceiverRun(key, accept, disk, got[..|got| - 1]).phase.ReceiverDone?
  }

  /** src/stream.rs `send_source`. `None` is the connection lost while waiting. */
  method SendSource(ch: Channel, key: Key, src: Source) returns (r: Option<SenderResult>)
    requires Sized(src) && ch.got == [] && ch.outbox == []
    modifies ch
    ensures ch.outbox == SenderRun(key, src, ch.got).out
    ensures ch.got + ch.inbox == old(ch.inbox)
    ensures r.Some? ==> SenderRun(key, src, ch.got).phase == SenderDone(r.value)
    ensures r.Some? ==> SenderReadOn(key, src, ch.got)
    ensures r.None? ==> ch.inbox == [] && !SenderRun(key, src, ch.got).phase.SenderDone?
  {
    ch.Send(ManifestFrame(key, src));
    var reply := ch.Recv();
    if reply.None? {
      return None;
    }
    SenderRunSnoc(key, src, [], reply.value);
    assert SenderReadOn(key, src, ch.got) by { assert ch.got[..|ch.got| - 1] == []; }
    hide SenderReadOn, SenderRun;
    r := FollowAck(ch, key, src, reply.value);
  }

  /** The rest of `send_source`, once the receiver has answered the manifest. */
  method FollowAck(ch: Channel, key: Key, src: Source, reply: Frame) returns (r: Option<SenderResult>)
    requires Sized(src) && ch.outbox == [ManifestFrame(key, src)]
    requires SenderRun(key, src, ch.got) == SenderStep(key, src, SenderTrace(WantAck, ch.outbox), reply)
    requires SenderReadOn(key, src, ch.got)
    modifies ch
    ensures ch.got + ch.inbox == old(ch.got) + old(ch.inbox)
    ensures ch.outbox == SenderRun(key, src, ch.got).out
    ensures r.Some? ==> SenderRun(key, src, ch.got).phase == SenderDone(r.value)
    ensures r.Some? ==> SenderReadOn(key, src, ch.got)
    ensures r.None? ==> ch.inbox == [] && !SenderRun(key, src, ch.got).phase.SenderDone?
  {
    hide SenderRun, PayloadFrames;
    var plain := Open(key, StreamToSender, 0, "", reply);
    if plain.None? || !plain.value.AckMsg? {
      return Some(BadAck);
    }
    if !plain.value.accepted {
      return Some(Declined);
    }
    if StreamManifest(src).kind == Text {
      return Some(TextDelivered);
    }
    SendPayload(ch, key, src.content, plain.value);
    r := AwaitCommitAck(ch, key, src);
  }

  method AwaitCommitAck(ch: Channel, key: Key, src: Source) returns (r: Option<SenderResult>)
    requires Sized(src) && SenderRun(key, src, ch.got).phase == WantCommitAck
    modifies ch`inbox, ch`got
    ensures ch.got + ch.inbox == old(ch.got) + old(ch.inbox)
    ensures SenderRun(key, src, ch.got).out == SenderRun(key, src, old(ch.got)).out
    ensures r.Some? ==> SenderRun(key, src, ch.got).phase == SenderDone(r.value)
    ensures r.Some? ==> SenderReadOn(key, src, ch.got)
    ensures r.None? ==> ch.inbox == [] && !SenderRun(key, src, ch.got).phase.SenderDone?
  {
    hide SenderRun, PayloadFrames, StreamManifest, MakeNonce;
    ghost var before := ch.got;
    var reply := ch.Recv();
    if reply.None? {
      return None;
    }
    SenderRunSnoc(key, src, before, reply.value);
    assert SenderReadOn(key, src, ch.got) by { assert ch.got[..|ch.got| - 1] == before; }
    hide SenderReadOn;
    var plain := Open(key, StreamToSender, 1, "", reply.value);
    if plain.None? || !plain.value.CommitAckMsg? {
      return Some(BadCommitAck);
    }
    r := Some(if plain.value.ok then Complete else FinalizeFailed);
  }

  lemma SentFromStep(ack: Plain, sent: seq<nat>, i: nat, n: nat)
    requires ack.AckMsg? && i < n
    ensures sent + SentFrom(ack, i, n) == (if Skips(ack, i) then sent else sent + [i]) + SentFrom(ack, i + 1, n)
  {
  }

  lemma ChunkFramesSnoc(key: Key, content: bytes, sent: seq<nat>, i: nat)
    requires |content| < TWO_POW_64 && i < FrameCount(|content|) && AllBelow(sent, FrameCount(|content|))
    ensures AllBelow(sent + [i], FrameCount(|content|))
    ensures ChunkFrames(key, content, sent + [i]) == ChunkFrames(key, content, sent) + [ChunkFrame(key, content, i)]
  {
    assert (sent + [i])[..|sent|] == sent;
  }

  /** The payload loop of `send_source`, every chunk the acknowledgement does not cover, and the
      commit after it. */
  method SendPayload(ch: Channel, key: Key, content: bytes, ack: Plain)
    requires |content| < TWO_POW_64 && ack.AckMsg?
    modifies ch`outbox
    ensures ch.outbox == old(ch.outbox) + PayloadFrames(key, content, ack)
  {
    hide ChunkFrames, TotalChunks, Contains;
    var n := FrameCount(|content|);
    var i := 0;
    ghost var sent: seq<nat> := [];
    assert [] + SentFrom(ack, 0, n) == SentFrom(ack, 0, n);
    while i < n
      invariant 0 <= i <= n && AllBelow(sent, n)
      invariant sent + SentFrom(ack, i, n) == SentFrom(ack, 0, n)
      invariant ch.outbox == old(ch.outbox) + ChunkFrames(key, content, sent)
    {
      SentFromStep(ack, sent, i, n);
      if !Skips(ack, i) {
        ch.Send(ChunkFrame(key, content, i));
        ChunkFramesSnoc(key, content, sent, i);
        sent := sent + [i];
      }
      i := i + 1;
    }
    assert sent == SentFrom(ack, 0, n);
    ch.Send(CommitFrame(key, content));
  }

  /** src/stream.rs `recv_into`. `None` is the connection lost while waiting. */
  method RecvInto(ch: Channel, key: Key, folder: Folder, accept: Manifest -> bool) returns (r: Option<ReceiverResult>)
    requires ch.got == [] && ch.outbox == []
    modifies ch, folder
    ensures ch.outbox == ReceiverRun(key, accept, old(folder.Contents()), ch.got).out
    ensures folder.Contents() == ReceiverRun(key, accept, old(folder.Contents()), ch.got).disk
    ensures ch.got + ch.inbox == old(ch.inbox)
    ensures r.Some? ==> ReceiverRun(key, accept, old(folder.Contents()), ch.got).phase == ReceiverDone(r.value)
    ensures r.Some? ==> ReceiverReadOn(key, accept, old(folder.Contents()), ch.got)
    ensures r.None? ==> ch.inbox == [] && !ReceiverRun(key, accept, old(folder.Contents()), ch.got).phase.ReceiverDone?
  {
    ghost var disk := folder.Contents();
    var first := ch.Recv();
    if first.None? {
      return None;
    }
    ReceiverRunSnoc(key, accept, disk, [], first.value);
    assert ReceiverRun(key, accept, disk, []) == ReceiverStart(disk);
    assert ReceiverReadOn(key, accept, disk, ch.got) by { assert ch.got[..|ch.got| - 1] == []; }
    hide ReceiverRun, ReceiverReadOn, OpenOrCreate, Await, ResumeAck, MakeNonce;
    var plain := Open(key, StreamToReceiver, 0, "", first.value);
    if plain.None? || !plain.value.ManifestMsg? {
      return Some(BadManifest);
    }
    var m := plain.value.manifest;
    if m.version != PROTOCOL_VERSION {
      ch.Send(AckFrame(key, REFUSAL));
      return Some(VersionMismatch);
    }
    if m.kind != Text && m.chunkSize != STREAM_FRAME_SIZE {
      ch.Send(AckFrame(key, REFUSAL));
      return Some(BadFrameSize);
    }
    if !accept(m) {
      ch.Send(AckFrame(key, REFUSAL));
      return Some(Refused);
    }
    if m.kind == Text {
      ch.Send(AckFrame(key, AckMsg(true, false, [])));
      return Some(GotText(if m.text.Some? then m.text.value else []));
    }
    r := ReceivePayload(ch, key, folder, accept, disk, m);
  }

  /** The rest of `recv_into` once a payload is accepted: open the store, acknowledge, receive. */
  method ReceivePayload(ch: Channel, key: Key, folder: Folder, accept: Manifest -> bool, ghost disk: Disk,
                        m: Manifest) returns (r: Option<ReceiverResult>)
    requires ch.outbox == [] && folder.Contents() == disk && accept(m)
    requires m.version == PROTOCOL_VERSION && m.kind != Text && m.chunkSize == STREAM_FRAME_SIZE
    requires ReceiverRun(key, accept, disk, ch.got) == OnManifest(key, accept, ReceiverStart(disk), m)
    modifies ch, folder
    ensures ch.outbox == ReceiverRun(key, accept, disk, ch.got).out
    ensures folder.Contents() == ReceiverRun(key, accept, disk, ch.got).disk
    ensures ch.got + ch.inbox == old(ch.got) + old(ch.inbox)
    ensures r.Some? ==> ReceiverRun(key, accept, disk, ch.got).phase == ReceiverDone(r.value)
    ensures r.Some? ==> ReceiverReadOn(key, accept, disk, ch.got)
    ensures r.None? ==> ch.inbox == [] && !ReceiverRun(key, accept, disk, ch.got).phase.ReceiverDone?
  {
    hide ReceiverRun, TotalChunks, NextMissing, RunsOf, Sorted, SetLen;
    var store := new StagingStore(folder, m.transferId, m.totalSize, m.chunkSize);
    var sorted := store.Have();
    var complete := store.IsComplete();
    var runs := RunsFromSorted(sorted);
    ch.Send(AckFrame(key, AckMsg(true, complete, runs)));
    var have := store.state.have;
    var end := ReceiveChunks(ch, key, store, accept, disk, m, have);
    match end {
      case Lost => return None;
      case Failed(result) => return Some(result);
      case AllIn =>
    }
    r := ReceiveCommit(ch, key, store, accept, disk, m);
  }

  datatype PayloadEnd = AllIn | Lost | Failed(result: ReceiverResult)

  /** The payload loop of `recv_into`, from a trace `t0` that awaits its first missing chunk. */
  method ReceiveChunks(ch: Channel, key: Key, store: StagingStore, accept: Manifest -> bool, ghost disk: Disk,
                       m: Manifest, have: set<nat>) returns (end: PayloadEnd)
    requires store.Valid() && store.state.chunkSize > 0
    requires InStep(ReceiverRun(key, accept, disk, ch.got), store.folder.Contents(), ch.outbox, Await(m, have, 0))
    modifies ch`inbox, ch`got, store`state, store.folder
    ensures store.Valid() && store.state.chunkSize > 0
    ensures ch.got + ch.inbox == old(ch.got) + old(ch.inbox)
    ensures var t := ReceiverRun(key, accept, disk, ch.got);
            && InStep(t, store.folder.Contents(), ch.outbox, t.phase)
            && (end.Failed? ==> t.phase == ReceiverDone(end.result) && ReceiverReadOn(key, accept, disk, ch.got))
            && (end.Lost? ==> t.phase.WantChunk? && ch.inbox == [])
            && (end.AllIn? ==> t.phase == WantCommit(m))
  {
    hide ReceiverRun, OnChunk, TotalChunks, OnManifest, OnCommit;
    var n := FrameCount(m.totalSize);
    var i := 0;
    while i < n
      invariant 0 <= i <= n && store.Valid() && store.state.chunkSize > 0
      invariant ch.got + ch.inbox == old(ch.got) + old(ch.inbox)
      invariant InStep(ReceiverRun(key, accept, disk, ch.got), store.folder.Contents(), ch.outbox, Await(m, have, i))
    {
      if i !in have {
        ghost var before := ch.got;
        ghost var t := ReceiverRun(key, accept, disk, before);
        var f := ch.Recv();
        if f.None? {
          return Lost;
        }
        ReceiverRunSnoc(key, accept, disk, before, f.value);
        assert ReceiverReadOn(key, accept, disk, ch.got) by { assert ch.got[..|ch.got| - 1] == before; }
        end := ReceiveChunk(key, store, t, f.value, m, have, i);
        if !end.AllIn? {
          return;
        }
      }
      i := i + 1;
    }
    end := AllIn;
  }

  predicate InStep(t: ReceiverTrace, disk: Disk, outbox: seq<Frame>, phase: ReceiverPhase) {
    t.disk == disk && t.out == outbox && t.phase == phase
  }

  method ReceiveChunk(key: Key, store: StagingStore, ghost t: ReceiverTrace, f: Frame,
                      m: Manifest, have: set<nat>, i: nat) returns (end: PayloadEnd)
    requires store.Valid() && store.state.chunkSize > 0 && t.disk == store.folder.Contents()
    requires i < FrameCount(m.totalSize) && t.phase == WantChunk(m, have, i)
    modifies store`state, store.folder
    ensures store.Valid() && store.state.chunkSize > 0
    ensures InStep(OnChunk(key, t, f), store.folder.Contents(), t.out,
                   if end.AllIn? then Await(m, have, i + 1) else OnChunk(key, t, f).phase)
    ensures !end.Lost?
    ensures end.Failed? ==> OnChunk(key, t, f).phase == ReceiverDone(end.result)
  {
    var plain := Open(key, StreamToReceiver, PayloadIndex(i, m.totalSize), "", f);
    if plain.None? || !plain.value.ChunkMsg? {
      return Failed(BadChunk);
    }
    var written := store.Write(i, plain.value.data);
    end := if written == Written then AllIn else Failed(WriteFailed);
  }

  method ReceiveCommit(ch: Channel, key: Key, store: StagingStore, accept: Manifest -> bool, ghost disk: Disk,
                       m: Manifest) returns (r: Option<ReceiverResult>)
    requires store.Valid() && store.state.chunkSize > 0
    requires InStep(ReceiverRun(key, accept, disk, ch.got), store.folder.Contents(), ch.outbox, WantCommit(m))
    modifies ch, store.folder
    ensures ch.got + ch.inbox == old(ch.got) + old(ch.inbox)
    ensures var t := ReceiverRun(key, accept, disk, ch.got);
            && InStep(t, store.folder.Contents(), ch.outbox, t.phase)
            && (r.Some? ==> t.phase == ReceiverDone(r.value) && ReceiverReadOn(key, accept, disk, ch.got))
            && (r.None? ==> !t.phase.ReceiverDone? && ch.inbox == [])
  {
    hide ReceiverRun, OpenOrCreate, TotalChunks;
    ghost var before := ch.got;
    ghost var t := ReceiverRun(key, accept, disk, before);
    var f := ch.Recv();
    if f.None? {
      return None;
    }
    ReceiverRunSnoc(key, accept, disk, before, f.value);
    assert ReceiverReadOn(key, accept, disk, ch.got) by { assert ch.got[..|ch.got| - 1] == before; }
    hide ReceiverReadOn;
    var plain := Open(key, StreamToReceiver, PayloadIndex(FrameCount(m.totalSize), m.totalSize), "", f.value);
    if plain.None? || !plain.value.CommitMsg? {
      return Some(BadCommit);
    }
    var result := FinalizeStore(store, m, plain.value.hash);
    ch.Send(CommitAckFrame(key, result == Finalized));
    assert OnCommit(key, t, f.value).phase == ReceiverDone(result);
    r := Some(result);
  }

  /** src/stream.rs `finalize`. */
  method FinalizeStore(store: StagingStore, m: Manifest, hash: Digest) returns (r: ReceiverResult)
    requires store.Valid() && store.state.chunkSize > 0
    modifies store.folder
    ensures (r, store.folder.Contents()) == Finalize(old(store.folder.Contents()), m, hash)
  {
    var complete := store.IsComplete();
    if !complete {
      return Incomplete;
    }
    if Digest(store.folder.data) != hash {
      return HashMismatch;
    }
    if m.kind == Tar {
      store.UnpackIntoPlace();
    } else {
      store.MoveToDestination();
    }
    r := Finalized;
  }
}
