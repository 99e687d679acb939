/** The HTTP receiver (src/server.rs) and the parallel upload (src/send.rs): chunks arrive in any
    order, repeated by retries, and a commit closes the transfer. */
module Upload {
  import opened Bytes
  import opened Crypto
  import opened Chunks
  import opened Store
  import opened Runs
  import opened Transfer

  // ---------------------------------------------------------------- the handlers

  datatype Response =
    | ManifestAck(accepted: bool, complete: bool, have: seq<nat>)
    | Stored
    | Refused(why: WriteResult)
    | CommitAck(result: ReceiverResult)
    | BadRequest
    | Conflict
    | NoAnswer  // the handler dies on a division by zero

  /** What the server holds: the disk, and the manifest of the transfer in progress. */
  datatype ServerState = ServerState(disk: Disk, active: Option<Manifest>)

  predicate ServerReady(s: ServerState) {
    s.active.Some? ==>
      && Present(s.disk)
      && Matches(s.disk.stateFile.value, s.active.value.transferId, s.active.value.totalSize, s.active.value.chunkSize)
  }

  function OnManifestPost(key: Key, accept: Manifest -> bool, s: ServerState, body: Frame): (ServerState, Response)
  {
    match Open<Plain>(key, ForManifest, 0, "", body)
    case Some(ManifestMsg(m)) =>
      if m.version != PROTOCOL_VERSION || !accept(m) then (s, ManifestAck(false, false, []))
      else if m.kind == Text then (s, ManifestAck(true, true, []))
      else
        var d := OpenOrCreate(s.disk, m.transferId, m.totalSize, m.chunkSize);
        (ServerState(d, Some(m)), ManifestAck(true, false, Sorted(d.stateFile.value.have)))
    case _ => (s, BadRequest)
  }

  function OnChunkPut(key: Key, s: ServerState, index: u64, body: Frame): (r: (ServerState, Response))
    requires ServerReady(s)
    ensures ServerReady(r.0) && r.0.active == s.active
  {
    if s.active.None? then (s, Conflict)
    else
      match Open<Plain>(key, ForData, index, s.active.value.transferId, body)
      case Some(ChunkMsg(pt)) =>
        var check := CheckWrite(s.disk.stateFile.value, index, pt);
        (s.(disk := WriteChunk(s.disk, index, pt)),
         if check == Written then Stored else if check == DividesByZero then NoAnswer else Response.Refused(check))
      case _ => (s, BadRequest)
  }

  /** The transfer is taken out of its slot; only a commit that does not open puts it back. */
  function OnCommitPost(key: Key, s: ServerState, body: Frame): (ServerState, Response)
    requires ServerReady(s)
  {
    if s.active.None? then (s, Conflict)
    else
      match Open<Plain>(key, ForCommit, 0, s.active.value.transferId, body)
      case Some(CommitMsg(hash)) =>
        if s.active.value.chunkSize == 0 then (ServerState(s.disk, None), NoAnswer) else
        var (result, disk) := Finalize(s.disk, s.active.value, hash);
        (ServerState(disk, None), CommitAck(result))
      case _ => (s, BadRequest)
  }

  class Server {
    const key: Key
    const folder: Folder
    var manifest: Option<Manifest>
    var store: StagingStore?

    ghost predicate Valid()
      reads this, folder, store
    {
      && (manifest.Some? <==> store != null)
      && (store != null ==> store.folder == folder && store.Valid() && ServerReady(Contents()))
    }

    function Contents(): ServerState
      reads this, folder
    {
      ServerState(folder.Contents(), manifest)
    }

    constructor (key: Key, folder: Folder)
      ensures Valid() && this.key == key && this.folder == folder
      ensures Contents() == ServerState(folder.Contents(), None)
    {
      this.key, this.folder, this.manifest, this.store := key, folder, None, null;
    }

    method HandleManifest(accept: Manifest -> bool, body: Frame) returns (r: Response)
      requires Valid()
      modifies this, folder
      ensures Valid()
      ensures (Contents(), r) == OnManifestPost(key, accept, old(Contents()), body)
    {
      var plain := Open(key, ForManifest, 0, "", body);
      if plain.None? || !plain.value.ManifestMsg? {
        return BadRequest;
      }
      var m := plain.value.manifest;
      if m.version != PROTOCOL_VERSION {
        return ManifestAck(false, false, []);
      }
      if !accept(m) {
        return ManifestAck(false, false, []);
      }
      if m.kind == Text {
        return ManifestAck(true, true, []);
      }
      var staging := new StagingStore(folder, m.transferId, m.totalSize, m.chunkSize);
      var have := staging.Have();
      manifest, store := Some(m), staging;
      r := ManifestAck(true, false, have);
    }

    method HandleChunk(index: u64, body: Frame) returns (r: Response)
      requires Valid()
      modifies this, folder, store
      ensures Valid()
      ensures (Contents(), r) == OnChunkPut(key, old(Contents()), index, body)
    {
      if store == null {
        return Conflict;
      }
      var plain := Open(key, ForData, index, manifest.value.transferId, body);
      if plain.None? || !plain.value.ChunkMsg? {
        return BadRequest;
      }
      var w := store.Write(index, plain.value.data);
      r := if w == Written then Stored else if w == DividesByZero then NoAnswer else Response.Refused(w);
    }

    method HandleCommit(body: Frame) returns (r: Response)
      requires Valid()
      modifies this, folder
      ensures Valid()
      ensures (Contents(), r) == OnCommitPost(key, old(Contents()), body)
    {
      if store == null {
        return Conflict;
      }
      var active, m := store, manifest.value;
      store, manifest := null, None;
      var plain := Open(key, ForCommit, 0, m.transferId, body);
      if plain.None? || !plain.value.CommitMsg? {
        store, manifest := active, Some(m);
        return BadRequest;
      }
      if active.state.chunkSize == 0 {
        return NoAnswer;
      }
      var result := FinalizeStore(active, m, plain.value.hash);
      r := CommitAck(result);
    }
  }

  /** A manifest, a chunk and a commit as the sender seals them. */
  function ManifestUpload(key: Key, m: Manifest): Frame {
    Seal(key, ForManifest, 0, "", ManifestMsg(m))
  }

  function PlainUpload(key: Key, tid: string, i: u64, pt: bytes): Frame {
    Seal(key, ForData, i, tid, ChunkMsg(pt))
  }

  function CommitUpload(key: Key, tid: string, hash: Digest): Frame {
    Seal(key, ForCommit, 0, tid, CommitMsg(hash))
  }

  /** The manifests that are taken. */
  predicate Welcome(accept: Manifest -> bool, m: Manifest) {
    m.version == 1 && accept(m)
  }

  /** Every answer to a manifest, and what it does. A body that is no manifest is a bad request; one of
      another version, or that the receiver does not accept, is declined; neither changes anything, nor
      does a text. Only an accepted payload becomes the active transfer, with the store opened for it and
      the reply naming exactly what is staged. */
  lemma ManifestExactly(key: Key, accept: Manifest -> bool, s: ServerState, body: Frame)
    ensures var (e, r) := OnManifestPost(key, accept, s, body);
            && ((forall m :: body != ManifestUpload(key, m)) ==> e == s && r == BadRequest)
            && forall m :: body == ManifestUpload(key, m) ==>
                 && (!Welcome(accept, m) ==> e == s && r == ManifestAck(false, false, []))
                 && (Welcome(accept, m) && m.kind == Text ==> e == s && r == ManifestAck(true, true, []))
                 && (Welcome(accept, m) && m.kind != Text ==>
                       && e == ServerState(OpenOrCreate(s.disk, m.transferId, m.totalSize, m.chunkSize), Some(m))
                       && r.ManifestAck? && r.accepted && !r.complete && Ascending(r.have)
                       && forall i: nat :: i in r.have <==> i in LoadState(s.disk, m.transferId, m.totalSize, m.chunkSize).have)
  {
    hide MakeNonce, Open, Sorted, SetLen;
    var plain := Open<Plain>(key, ForManifest, 0, "", body);
    forall m
      ensures body == ManifestUpload(key, m) <==> plain == Some(ManifestMsg(m))
    {
      OpensExactly(key, ForManifest, 0, "", body, ManifestMsg(m));
    }
    if plain.Some? && plain.value.ManifestMsg? {
      var m := plain.value.manifest;
      SortedExact(LoadState(s.disk, m.transferId, m.totalSize, m.chunkSize).have);
    }
  }

  /** Every answer to a chunk, and what it does: only a chunk that opens at its index, is in range and has
      the right length is stored, and it is stored if it is answered so; nothing else changes anything. */
  lemma ChunkExactly(key: Key, s: ServerState, index: u64, body: Frame)
    requires ServerReady(s)
    ensures var (e, r) := OnChunkPut(key, s, index, body);
            && (s.active.None? ==> e == s && r == Conflict)
            && (s.active.Some? && (forall pt :: body != PlainUpload(key, s.active.value.transferId, index, pt)) ==>
                  e == s && r == BadRequest)
            && forall pt :: s.active.Some? && body == PlainUpload(key, s.active.value.transferId, index, pt) ==>
                 var total, cs := s.active.value.totalSize, s.active.value.chunkSize;
                 && (r == NoAnswer <==> cs == 0)
                 && (r == Response.Refused(OutOfRange) <==> cs > 0 && index >= TotalChunks(total, cs))
                 && (r == Response.Refused(WrongLength) <==>
                       cs > 0 && index < TotalChunks(total, cs) && |pt| != ChunkLen(index, total, cs))
                 && (r == Stored <==> cs > 0 && index < TotalChunks(total, cs) && |pt| == ChunkLen(index, total, cs))
                 && e == s.(disk := if r == Stored then WriteChunk(s.disk, index, pt) else s.disk)
  {
    hide MakeNonce, Open, TotalChunks, ExpectedLen, ChunkLen, DiskAt;
    if s.active.Some? {
      var tid := s.active.value.transferId;
      var plain := Open<Plain>(key, ForData, index, tid, body);
      forall pt
        ensures body == PlainUpload(key, tid, index, pt) <==> plain == Some(ChunkMsg(pt))
      {
        OpensExactly(key, ForData, index, tid, body, ChunkMsg(pt));
      }
      if s.active.value.chunkSize > 0 && index < TotalChunks(s.active.value.totalSize, s.active.value.chunkSize) {
        ChunkBounds(index, s.active.value.totalSize, s.active.value.chunkSize);
      }
    }
  }

  /** A commit that does not open is a bad request and leaves the transfer in place; without a transfer
      any commit is a conflict. What a commit that opens does is in `CommitExactly`. */
  lemma UnreadableCommit(key: Key, s: ServerState, body: Frame)
    requires ServerReady(s)
    requires s.active.Some? ==> forall hash :: body != CommitUpload(key, s.active.value.transferId, hash)
    ensures OnCommitPost(key, s, body) == (s, if s.active.None? then Conflict else BadRequest)
  {
    hide MakeNonce, Open, Finalize;
    if s.active.Some? {
      var tid := s.active.value.transferId;
      forall hash
        ensures Open<Plain>(key, ForCommit, 0, tid, body) != Some(CommitMsg(hash))
      {
        assert body != CommitUpload(key, tid, hash);
        OpensExactly(key, ForCommit, 0, tid, body, CommitMsg(hash));
      }
    }
  }

  /** A chunk or a commit that opens is answered exactly when the manifest it belongs to has a
      chunk size; without one the manifest itself is still accepted. An unanswered chunk changes
      nothing, an unanswered commit loses the transfer and keeps the disk. */
  lemma AnsweredExactly(key: Key, s: ServerState, index: u64, pt: bytes, hash: Digest)
    requires ServerReady(s) && s.active.Some?
    ensures var tid := s.active.value.transferId;
            var (c, stored) := OnChunkPut(key, s, index, Seal(key, ForData, index, tid, ChunkMsg(pt)));
            var (e, done) := OnCommitPost(key, s, Seal(key, ForCommit, 0, tid, CommitMsg(hash)));
            && (stored != NoAnswer <==> s.active.value.chunkSize > 0)
            && (done != NoAnswer <==> s.active.value.chunkSize > 0)
            && (stored == NoAnswer ==> c == s)
            && (done == NoAnswer ==> e == s.(active := None))
  {
    hide MakeNonce, TotalChunks, ExpectedLen, Finalize, DiskAt;
    OpenExact(key, ForData, index, s.active.value.transferId, key, ForData, index, s.active.value.transferId, ChunkMsg(pt));
  }

  // ---------------------------------------------------------------- uploads in any order

  datatype Put = Put(index: u64, body: Frame)

  function RunPuts(key: Key, s: ServerState, puts: seq<Put>): (r: ServerState)
    requires ServerReady(s)
    ensures ServerReady(r) && r.active == s.active
  {
    if puts == [] then s
    else
      var last := puts[|puts| - 1];
      OnChunkPut(key, RunPuts(key, s, puts[..|puts| - 1]), last.index, last.body).0
  }

  /** A transfer of `content` in progress, its staging faithful so far. */
  ghost predicate Uploading(s: ServerState, content: bytes, tid: string, cs: nat)
    requires cs > 0
  {
    && s.active.Some? && s.active.value.transferId == tid
    && s.active.value.totalSize == |content| && s.active.value.chunkSize == cs
    && ServerReady(s)
    && Faithful(s.disk, content, tid, cs)
  }

  /** The uploads that reach the server: the sender's chunk, at its index, or something that does
      not open there. */
  ghost predicate Delivered(key: Key, content: bytes, tid: string, cs: nat, p: Put)
    requires cs > 0
  {
    Open(key, ForData, p.index, tid, p.body).Some? ==>
      p.index < TotalChunks(|content|, cs) && p.body == ChunkUpload(key, content, tid, cs, p.index)
  }

  ghost predicate AllDelivered(key: Key, content: bytes, tid: string, cs: nat, puts: seq<Put>)
    requires cs > 0
  {
    forall k :: 0 <= k < |puts| ==> Delivered(key, content, tid, cs, puts[k])
  }

  function ChunkUpload(key: Key, content: bytes, tid: string, cs: nat, i: u64): Frame
    requires cs > 0 && i < TotalChunks(|content|, cs)
  {
    Seal(key, ForData, i, tid, ChunkMsg(ChunkOf(content, i, cs)))
  }

  /** The indices at which an upload landed. */
  function Landed(key: Key, tid: string, puts: seq<Put>): set<nat> {
    set k | 0 <= k < |puts| && Open(key, ForData, puts[k].index, tid, puts[k].body).Some? :: puts[k].index as nat
  }

  lemma LandedSnoc(key: Key, tid: string, puts: seq<Put>, p: Put)
    ensures Landed(key, tid, puts + [p])
         == Landed(key, tid, puts) + (if Open(key, ForData, p.index, tid, p.body).Some? then {p.index as nat} else {})
  {
    hide Open;
    var all := puts + [p];
    assert all[|puts|] == p;
    forall i | i in Landed(key, tid, puts)
      ensures i in Landed(key, tid, all)
    {
      var k :| 0 <= k < |puts| && Open(key, ForData, puts[k].index, tid, puts[k].body).Some? && puts[k].index == i;
      assert all[k] == puts[k];
    }
  }

  /** Any interleaving with any repeats and any junk: exactly the landed chunks are added, each
      with the sender's bytes, and every other chunk of the file is as it was. */
  lemma {:induction false} PutsExact(key: Key, s: ServerState, content: bytes, tid: string, cs: nat, puts: seq<Put>)
    requires cs > 0 && Uploading(s, content, tid, cs)
    requires AllDelivered(key, content, tid, cs, puts)
    ensures var e := RunPuts(key, s, puts);
            && Uploading(e, content, tid, cs)
            && e.disk == s.disk.(data := e.disk.data, stateFile := e.disk.stateFile, tmp := e.disk.tmp)
            && (puts == [] || s.disk.tmp == NoTmp ==> e.disk.tmp == s.disk.tmp)
            && e.disk.stateFile.value.have == s.disk.stateFile.value.have + Landed(key, tid, puts)
            && forall j :: 0 <= j < TotalChunks(|content|, cs) ==>
                 ChunkOf(e.disk.data, j, cs)
                 == if j in Landed(key, tid, puts) then ChunkOf(content, j, cs) else ChunkOf(s.disk.data, j, cs)
    decreases |puts|
  {
    hide TotalChunks, Open;
    if puts != [] {
      var init, p := puts[..|puts| - 1], puts[|puts| - 1];
      assert puts == init + [p];
      PutsExact(key, s, content, tid, cs, init);
      LandedSnoc(key, tid, init, p);
      OnePut(key, RunPuts(key, s, init), content, tid, cs, p);
    }
  }

  lemma OnePut(key: Key, s: ServerState, content: bytes, tid: string, cs: nat, p: Put)
    requires cs > 0 && Uploading(s, content, tid, cs) && Delivered(key, content, tid, cs, p)
    ensures var e := OnChunkPut(key, s, p.index, p.body).0;
            var landed := Open(key, ForData, p.index, tid, p.body).Some?;
            && Uploading(e, content, tid, cs)
            && e.disk == s.disk.(data := e.disk.data, stateFile := e.disk.stateFile, tmp := e.disk.tmp)
            && (s.disk.tmp == NoTmp ==> e.disk.tmp == NoTmp)
            && e.disk.stateFile.value.have == s.disk.stateFile.value.have + (if landed then {p.index as nat} else {})
            && forall j :: 0 <= j < TotalChunks(|content|, cs) ==>
                 ChunkOf(e.disk.data, j, cs)
                 == if landed && j == p.index then ChunkOf(content, j, cs) else ChunkOf(s.disk.data, j, cs)
  {
    hide TotalChunks, MakeNonce;
    if Open(key, ForData, p.index, tid, p.body).Some? {
      var i, pt := p.index, ChunkOf(content, p.index, cs);
      CrashSafe(s.disk, content, tid, cs, i, CrashPoint.Finished);
      ChunkBounds(i, |content|, cs);
      SpliceChunk(s.disk.data, i, pt, cs);
      forall j | 0 <= j < TotalChunks(|content|, cs) && j != i
        ensures ChunkOf(Splice(s.disk.data, Start(i, cs), pt), j, cs) == ChunkOf(s.disk.data, j, cs)
      {
        SpliceElsewhere(s.disk.data, i, j, pt, cs);
      }
    }
  }

  /** Upload order does not matter: two uploads that end with the same chunks staged leave the
      very same state and the very same data file, however they were ordered and retried. */
  lemma OrderDoesNotMatter(key: Key, s: ServerState, content: bytes, tid: string, cs: nat, p: seq<Put>, q: seq<Put>)
    requires cs > 0 && Uploading(s, content, tid, cs) && s.disk.tmp == NoTmp
    requires AllDelivered(key, content, tid, cs, p)
    requires AllDelivered(key, content, tid, cs, q)
    requires s.disk.stateFile.value.have + Landed(key, tid, p) == s.disk.stateFile.value.have + Landed(key, tid, q)
    ensures RunPuts(key, s, p) == RunPuts(key, s, q)
  {
    hide RunPuts, Landed, AllDelivered, TotalChunks, ChunkOf;
    PutsExact(key, s, content, tid, cs, p);
    PutsExact(key, s, content, tid, cs, q);
    var a, b := RunPuts(key, s, p).disk, RunPuts(key, s, q).disk;
    forall j: nat | j < TotalChunks(|content|, cs)
      ensures ChunkOf(a.data, j, cs) == ChunkOf(b.data, j, cs)
    {
      var have := s.disk.stateFile.value.have;
      if j in have {
        assert ChunkOf(s.disk.data, j, cs) == ChunkOf(content, j, cs);
      } else {
        assert j in Landed(key, tid, p) <==> j in have + Landed(key, tid, p);
        assert j in Landed(key, tid, q) <==> j in have + Landed(key, tid, q);
      }
    }
    SameChunksSameFile(a.data, b.data, cs);
  }

  /** The in-order upload of the chunks a server still misses. */
  function InOrder(key: Key, content: bytes, tid: string, cs: nat, indices: seq<nat>): seq<Put>
    requires cs > 0 && |content| < TWO_POW_64 && AllBelow(indices, TotalChunks(|content|, cs))
  {
    seq(|indices|, k requires 0 <= k < |indices| =>
      ChunkFits(indices[k], |content|, cs);
      Put(indices[k], ChunkUpload(key, content, tid, cs, indices[k])))
  }

  lemma ChunkFits(i: nat, total: nat, cs: nat)
    requires cs > 0 && i < TotalChunks(total, cs)
    ensures i < total
  {
    ChunkBounds(i, total, cs);
    StartAtLeast(i, cs);
  }

  lemma {:induction false} StartAtLeast(i: nat, cs: nat)
    requires cs > 0
    ensures Start(i, cs) >= i
  {
    if i > 0 {
      StartAtLeast(i - 1, cs);
    }
  }

  lemma InOrderLands(key: Key, content: bytes, tid: string, cs: nat, indices: seq<nat>)
    requires cs > 0 && |content| < TWO_POW_64 && AllBelow(indices, TotalChunks(|content|, cs))
    ensures AllDelivered(key, content, tid, cs, InOrder(key, content, tid, cs, indices))
    ensures Landed(key, tid, InOrder(key, content, tid, cs, indices)) == set i | i in indices
  {
    hide TotalChunks, ChunkOf, MakeNonce;
    var puts := InOrder(key, content, tid, cs, indices);
    assert forall k :: 0 <= k < |puts| ==> Open(key, ForData, puts[k].index, tid, puts[k].body).Some?;
    assert forall k :: 0 <= k < |puts| ==> puts[k].index == indices[k];
    forall i | i in indices
      ensures i in Landed(key, tid, puts)
    {
      var k :| 0 <= k < |indices| && indices[k] == i;
      assert puts[k].index == i;
    }
  }

  /** The parallel uploader is as good as an in-order one: once every chunk the server misses has
      landed at least once, the server is exactly where uploading them one by one would put it. */
  lemma AnyOrderIsInOrder(key: Key, s: ServerState, content: bytes, tid: string, cs: nat, puts: seq<Put>, missing: seq<nat>)
    requires cs > 0 && Uploading(s, content, tid, cs) && s.disk.tmp == NoTmp && |content| < TWO_POW_64
    requires AllDelivered(key, content, tid, cs, puts)
    requires AllBelow(missing, TotalChunks(|content|, cs))
    requires forall i: nat :: i in missing <==> i < TotalChunks(|content|, cs) && i !in s.disk.stateFile.value.have
    requires forall i :: i in missing ==> i in Landed(key, tid, puts)
    ensures RunPuts(key, s, puts) == RunPuts(key, s, InOrder(key, content, tid, cs, missing))
  {
    hide RunPuts, AllDelivered, TotalChunks, ChunkOf, InOrder, Landed, Uploading;
    StagedBelow(s, content, tid, cs);
    InOrderLands(key, content, tid, cs, missing);
    PutsExact(key, s, content, tid, cs, puts);
    StagedBelow(RunPuts(key, s, puts), content, tid, cs);
    var have := s.disk.stateFile.value.have;
    SameUnion(have, Landed(key, tid, puts), missing, TotalChunks(|content|, cs));
    OrderDoesNotMatter(key, s, content, tid, cs, puts, InOrder(key, content, tid, cs, missing));
  }

  lemma SameUnion(have: set<nat>, landed: set<nat>, missing: seq<nat>, n: nat)
    requires forall i :: i in have + landed ==> i < n
    requires forall i: nat :: i in missing <==> i < n && i !in have
    requires forall i :: i in missing ==> i in landed
    ensures have + landed == have + set i | i in missing
  {
  }

  lemma StagedBelow(s: ServerState, content: bytes, tid: string, cs: nat)
    requires cs > 0 && Uploading(s, content, tid, cs)
    ensures s.disk.stateFile.Some? && ServerReady(s)
    ensures forall i :: i in s.disk.stateFile.value.have ==> i < TotalChunks(|content|, cs)
  {
  }

  // ---------------------------------------------------------------- the commit

  /** A commit that opens succeeds exactly when every chunk is present and the file hashes to it. */
  lemma CommitExactly(key: Key, s: ServerState, hash: Digest)
    requires ServerReady(s) && s.active.Some? && s.active.value.chunkSize > 0
    requires forall i :: i in s.disk.stateFile.value.have ==> i < Total(s.disk.stateFile.value)
    ensures var (e, r) := OnCommitPost(key, s, CommitUpload(key, s.active.value.transferId, hash));
            && (r == CommitAck(Finalized) <==>
                  s.disk.stateFile.value.have == UpTo(Total(s.disk.stateFile.value)) && Digest(s.disk.data) == hash)
            && e.active.None?
            && (r != CommitAck(Finalized) ==> e.disk == s.disk)
            && (r == CommitAck(Finalized) ==>
                  var tar := s.active.value.kind == Tar;
                  e.disk == Disk([], None, NoTmp, if tar then s.disk.saved else Some(s.disk.data),
                                 if tar then Some(s.disk.data) else s.disk.unpacked))
            && (r == CommitAck(HashMismatch) <==>
                  s.disk.stateFile.value.have == UpTo(Total(s.disk.stateFile.value)) && Digest(s.disk.data) != hash)
            && (r == CommitAck(Incomplete) <==> s.disk.stateFile.value.have != UpTo(Total(s.disk.stateFile.value)))
  {
    hide TotalChunks;
    FullIsEverything(s.disk.stateFile.value.have, Total(s.disk.stateFile.value));
  }

  /** After any such upload the sender's commit is accepted exactly when no chunk is missing, and
      then the receiver's output is the file. */
  lemma UploadCommits(key: Key, s: ServerState, content: bytes, tid: string, cs: nat, puts: seq<Put>)
    requires cs > 0 && Uploading(s, content, tid, cs)
    requires AllDelivered(key, content, tid, cs, puts)
    ensures var u := RunPuts(key, s, puts);
            var (e, r) := OnCommitPost(key, u, CommitUpload(key, tid, Digest(content)));
            && (r == CommitAck(Finalized) <==>
                  s.disk.stateFile.value.have + Landed(key, tid, puts) == UpTo(TotalChunks(|content|, cs)))
            && (r == CommitAck(Finalized) ==>
                  if s.active.value.kind == Tar then e.disk.unpacked == Some(content) else e.disk.saved == Some(content))
  {
    hide RunPuts, Landed, AllDelivered, TotalChunks;
    PutsExact(key, s, content, tid, cs, puts);
    var u := RunPuts(key, s, puts);
    CompleteIsContent(u.disk, content, tid, cs);
    CommitExactly(key, u, Digest(content));
  }

  /** A refused commit forgets the transfer but not the staging: posting the manifest again
      resumes with every chunk still there. With none staged the file is blanked, and nothing lost. */
  lemma FailedCommitResumes(key: Key, accept: Manifest -> bool, s: ServerState, hash: Digest)
    requires ServerReady(s) && s.active.Some? && s.disk.tmp == NoTmp
    requires var m := s.active.value; m.kind != Text && m.version == PROTOCOL_VERSION && accept(m)
    requires OnCommitPost(key, s, CommitUpload(key, s.active.value.transferId, hash)).1 != CommitAck(Finalized)
    ensures var e := OnCommitPost(key, s, CommitUpload(key, s.active.value.transferId, hash)).0;
            var again := Seal(key, ForManifest, 0, "", ManifestMsg(s.active.value));
            var have := s.disk.stateFile.value.have;
            && e.active.None?
            && OnManifestPost(key, accept, e, again)
               == (s.(disk := s.disk.(data := if have == {} then SetLen([], |s.disk.data|) else s.disk.data)),
                   ManifestAck(true, false, Sorted(have)))
  {
    hide OnCommitPost, OnManifestPost, ServerReady, Sorted;
    FailedCommitForgets(key, s, hash);
    ManifestReopens(key, accept, s);
  }

  lemma FailedCommitForgets(key: Key, s: ServerState, hash: Digest)
    requires ServerReady(s) && s.active.Some?
    ensures var (e, r) := OnCommitPost(key, s, CommitUpload(key, s.active.value.transferId, hash));
      r != CommitAck(Finalized) ==> e == s.(active := None)
  {
    hide MakeNonce, TotalChunks;
  }

  lemma ManifestReopens(key: Key, accept: Manifest -> bool, s: ServerState)
    requires ServerReady(s) && s.active.Some? && s.disk.tmp == NoTmp
    requires var m := s.active.value; m.kind != Text && m.version == PROTOCOL_VERSION && accept(m)
    ensures var have := s.disk.stateFile.value.have;
      OnManifestPost(key, accept, s.(active := None), Seal(key, ForManifest, 0, "", ManifestMsg(s.active.value)))
      == (s.(disk := s.disk.(data := if have == {} then SetLen([], |s.disk.data|) else s.disk.data)),
          ManifestAck(true, false, Sorted(have)))
  {
    hide MakeNonce, Sorted;
  }

  // ---------------------------------------------------------------- nonces of repeated uploads

  /** One seal of an upload: its kind and index. */
  datatype Spot = ManifestSpot | ChunkSpot(index: u64) | CommitSpot

  /** One run of the uploader: what it sends, and the seals it got to make; chunks the server already
      has are skipped, and a run that is declined or fails stops early. */
  datatype UploadRun = UploadRun(m: Manifest, content: bytes, spots: set<Spot>)

  predicate InUpload(u: UploadRun, at: Spot) {
    at.ChunkSpot? ==> u.m.chunkSize > 0 && at.index < TotalChunks(|u.content|, u.m.chunkSize)
  }

  /** Every run begins by sealing its manifest. */
  predicate IsUpload(u: UploadRun) {
    ManifestSpot in u.spots && forall at :: at in u.spots ==> InUpload(u, at)
  }

  function UploadSeal(key: Key, u: UploadRun, at: Spot): (f: Frame)
    requires InUpload(u, at)
    ensures f.Sealed? && f.key == key
  {
    match at
    case ManifestSpot => Seal(key, ForManifest, 0, "", ManifestMsg(u.m))
    case ChunkSpot(i) => ChunkUpload(key, u.content, u.m.transferId, u.m.chunkSize, i)
    case CommitSpot => CommitUpload(key, u.m.transferId, Digest(u.content))
  }

  /** Two runs under one code use one nonce for different seals. */
  ghost predicate Clash(key: Key, u: UploadRun, v: UploadRun)
    requires IsUpload(u) && IsUpload(v)
  {
    exists at, at' :: at in u.spots && at' in v.spots
      && UploadSeal(key, u, at).nonce == UploadSeal(key, v, at').nonce
      && UploadSeal(key, u, at) != UploadSeal(key, v, at')
  }

  /** Both sent this chunk, and it is not the same bytes. */
  predicate ChunkDiffers(u: UploadRun, v: UploadRun, i: u64)
    requires IsUpload(u) && IsUpload(v)
  {
    ChunkSpot(i) in u.spots && ChunkSpot(i) in v.spots
    && ChunkOf(u.content, i, u.m.chunkSize) != ChunkOf(v.content, i, v.m.chunkSize)
  }

  lemma SpotOfNonce(key: Key, u: UploadRun, v: UploadRun, at: Spot, at': Spot)
    requires InUpload(u, at) && InUpload(v, at')
    ensures UploadSeal(key, u, at).nonce == UploadSeal(key, v, at').nonce <==> at == at'
  {
    hide MakeNonce, TotalChunks, ChunkOf;
    var d := if at.ManifestSpot? then ForManifest else if at.ChunkSpot? then ForData else ForCommit;
    var d' := if at'.ManifestSpot? then ForManifest else if at'.ChunkSpot? then ForData else ForCommit;
    NonceInjective(d, if at.ChunkSpot? then at.index else 0, d', if at'.ChunkSpot? then at'.index else 0);
  }

  lemma SameSeal(key: Key, u: UploadRun, v: UploadRun, at: Spot)
    requires InUpload(u, at) && InUpload(v, at) && u.m == v.m
    ensures UploadSeal(key, u, at) == UploadSeal(key, v, at)
       <==> match at
            case ManifestSpot => true
            case ChunkSpot(i) => ChunkOf(u.content, i, u.m.chunkSize) == ChunkOf(v.content, i, v.m.chunkSize)
            case CommitSpot => u.content == v.content
  {
    hide MakeNonce, TotalChunks, ChunkOf;
  }

  lemma ManifestSealsDiffer(key: Key, u: UploadRun, v: UploadRun)
    requires u.m != v.m
    ensures UploadSeal(key, u, ManifestSpot) != UploadSeal(key, v, ManifestSpot)
  {
  }

  /** Every run under one code seals under one key and at the same indices. Two runs, however far each
      got, use a nonce for different seals if and only if their manifests differ, or some chunk that
      both sent differs, or both committed to different contents. */
  lemma RepeatedUploadsClash(key: Key, u: UploadRun, v: UploadRun)
    requires IsUpload(u) && IsUpload(v)
    ensures Clash(key, u, v) <==>
              || u.m != v.m
              || (exists i :: ChunkDiffers(u, v, i))
              || (CommitSpot in u.spots && CommitSpot in v.spots && u.content != v.content)
  {
    hide UploadSeal, ChunkOf, TotalChunks, Clash;
    if u.m != v.m {
      ManifestSealsDiffer(key, u, v);
      DifferingSealsClash(key, u, v, ManifestSpot);
    } else {
      if Clash(key, u, v) {
        var at := ClashSpot(key, u, v);
        SameSeal(key, u, v, at);
        assert at.ChunkSpot? ==> ChunkDiffers(u, v, at.index);
      }
      if i :| ChunkDiffers(u, v, i) {
        SameSeal(key, u, v, ChunkSpot(i));
        DifferingSealsClash(key, u, v, ChunkSpot(i));
      }
      if CommitSpot in u.spots && CommitSpot in v.spots && u.content != v.content {
        SameSeal(key, u, v, CommitSpot);
        DifferingSealsClash(key, u, v, CommitSpot);
      }
    }
  }

  lemma DifferingSealsClash(key: Key, u: UploadRun, v: UploadRun, at: Spot)
    requires IsUpload(u) && IsUpload(v) && at in u.spots && at in v.spots
    requires UploadSeal(key, u, at) != UploadSeal(key, v, at)
    ensures Clash(key, u, v)
  {
    hide UploadSeal;
    SpotOfNonce(key, u, v, at, at);
  }

  lemma ClashSpot(key: Key, u: UploadRun, v: UploadRun) returns (at: Spot)
    requires IsUpload(u) && IsUpload(v) && Clash(key, u, v)
    ensures at in u.spots && at in v.spots && UploadSeal(key, u, at) != UploadSeal(key, v, at)
  {
    hide UploadSeal;
    var a, b :| a in u.spots && b in v.spots
      && UploadSeal(key, u, a).nonce == UploadSeal(key, v, b).nonce
      && UploadSeal(key, u, a) != UploadSeal(key, v, b);
    SpotOfNonce(key, u, v, a, b);
    at := a;
  }

  // ---------------------------------------------------------------- retries

  const CHUNK_ATTEMPTS: nat := 5

  /** How one attempt can end: any other status and any transport error are retried. */
  datatype Outcome = Success | Unauthorized | Other

  datatype UploadResult = Uploaded | AuthRejected | GaveUp

  /** src/send.rs `upload_with_retry`; `outcomes` says how each attempt would end. */
  method UploadWithRetry(outcomes: seq<Outcome>) returns (r: UploadResult, attempts: nat, waited: nat)
    requires |outcomes| >= CHUNK_ATTEMPTS
    ensures 1 <= attempts <= CHUNK_ATTEMPTS
    ensures forall k :: 0 <= k < attempts - 1 ==> outcomes[k] == Other
    ensures r == match outcomes[attempts - 1] case Success => Uploaded case Unauthorized => AuthRejected case Other => GaveUp
    ensures r == GaveUp ==> attempts == CHUNK_ATTEMPTS
    ensures waited == 500 * (Pow2(attempts - 1) - 1)
  {
    var delay := 500;
    waited := 0;
    attempts := 1;
    while true
      invariant 1 <= attempts <= CHUNK_ATTEMPTS
      invariant forall k :: 0 <= k < attempts - 1 ==> outcomes[k] == Other
      invariant delay == 500 * Pow2(attempts - 1) && waited == 500 * (Pow2(attempts - 1) - 1)
      decreases CHUNK_ATTEMPTS - attempts
    {
      match outcomes[attempts - 1] {
        case Success => return Uploaded, attempts, waited;
        case Unauthorized => return AuthRejected, attempts, waited;
        case Other =>
          if attempts == CHUNK_ATTEMPTS {
            return GaveUp, attempts, waited;
          }
      }
      waited := waited + delay;
      delay := delay * 2;
      attempts := attempts + 1;
    }
  }
}
