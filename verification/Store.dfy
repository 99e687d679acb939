/** The receiver's staging area (src/store.rs): a data file written chunk by chunk and a small
    state file, replaced by rename, that names the chunks already there. */
module Store {
  import opened Bytes
  import opened Chunks
  import Runs

  /** BLAKE3 as an injective function of what is hashed. */
  datatype Digest = Digest(content: bytes)

  datatype State = State(transferId: string, totalSize: nat, chunkSize: nat, have: set<nat>)

  /** The temporary the state file is written to before it is renamed. */
  datatype TmpFile = NoTmp | Torn | Whole(state: State)

  /** What is on disk: the staging folder's files, and what finished transfers left outside it.
      A missing data file reads as empty; a missing or unreadable state file as `None`. */
  datatype Disk = Disk(data: bytes, stateFile: Option<State>, tmp: TmpFile,
                       saved: Option<bytes>, unpacked: Option<bytes>)

  const EMPTY_DISK := Disk([], None, NoTmp, None, None)

  predicate Matches(s: State, tid: string, total: nat, cs: nat) {
    s.transferId == tid && s.totalSize == total && s.chunkSize == cs
  }

  function Total(s: State): nat
    requires s.chunkSize > 0
  {
    TotalChunks(s.totalSize, s.chunkSize)
  }

  predicate Complete(s: State)
    requires s.chunkSize > 0
  {
    |s.have| == Total(s)
  }

  /** The state a transfer starts from: what the state file says if it is about this very
      transfer, a fresh one otherwise. */
  function LoadState(d: Disk, tid: string, total: nat, cs: nat): (s: State)
    ensures Matches(s, tid, total, cs)
  {
    if d.stateFile.Some? && Matches(d.stateFile.value, tid, total, cs) then d.stateFile.value
    else State(tid, total, cs, {})
  }

  function OpenOrCreate(d: Disk, tid: string, total: nat, cs: nat): Disk {
    var s := LoadState(d, tid, total, cs);
    d.(data := SetLen(if s.have == {} then [] else d.data, total), stateFile := Some(s), tmp := NoTmp)
  }

  /** What opening leaves on disk, whatever the chunk size. */
  predicate Present(d: Disk) {
    d.stateFile.Some? && |d.data| == d.stateFile.value.totalSize
  }

  /** A staging area whose chunks can be counted. */
  predicate Opened(d: Disk) {
    Present(d) && d.stateFile.value.chunkSize > 0
  }

  /** With a chunk size of zero the source divides by zero, and the call never returns. */
  datatype WriteResult = Written | OutOfRange | WrongLength | DividesByZero

  function CheckWrite(s: State, i: nat, pt: bytes): WriteResult {
    if s.chunkSize == 0 then DividesByZero
    else if i >= Total(s) then OutOfRange
    else if |pt| != ExpectedLen(i, s.totalSize, s.chunkSize) then WrongLength
    else Written
  }

  /** Where a chunk write can be interrupted. Torn data is a prefix of the new bytes over the
      old ones; a torn temporary is never renamed. */
  datatype CrashPoint = DuringData(written: nat) | DuringTmp | BeforeRename | Finished

  function DiskAt(d: Disk, i: nat, pt: bytes, at: CrashPoint): Disk
    requires Opened(d) && CheckWrite(d.stateFile.value, i, pt) == Written
    requires at.DuringData? ==> at.written <= |pt|
  {
    var s := d.stateFile.value;
    ChunkBounds(i, s.totalSize, s.chunkSize);
    var s' := s.(have := s.have + {i});
    var data := Splice(d.data, Start(i, s.chunkSize), if at.DuringData? then pt[..at.written] else pt);
    match at
    case DuringData(_) => d.(data := data)
    case DuringTmp => d.(data := data, tmp := Torn)
    case BeforeRename => d.(data := data, tmp := Whole(s'))
    case Finished => d.(data := data, stateFile := Some(s'), tmp := NoTmp)
  }

  function WriteChunk(d: Disk, i: nat, pt: bytes): Disk
    requires Present(d)
  {
    if CheckWrite(d.stateFile.value, i, pt) == Written then DiskAt(d, i, pt, Finished) else d
  }

  /** `finalize_file`: the data file moves to its destination and the folder goes away. */
  function FinalizeFile(d: Disk): Disk {
    Disk([], None, NoTmp, Some(d.data), d.unpacked)
  }

  /** Unpacking the archive and `cleanup`. */
  function UnpackAndClean(d: Disk): Disk {
    Disk([], None, NoTmp, d.saved, Some(d.data))
  }

  // ---------------------------------------------------------------- the store as an object

  /** The contents the disk goes through while `b` is written at `off`: any prefix may be all that
      got there. */
  function Prefixes(d: Disk, off: nat, b: bytes): seq<Disk>
    requires off + |b| <= |d.data|
  {
    seq(|b|, n requires 0 <= n < |b| => d.(data := Splice(d.data, off, b[..n + 1])))
  }

  /** The contents while `s` replaces the state file: the temporary torn, then whole, then renamed. */
  function Persisting(d: Disk, s: State): seq<Disk> {
    [d.(tmp := Torn), d.(tmp := Whole(s)), d.(stateFile := Some(s), tmp := NoTmp)]
  }

  /** The disk. Every effect on it is one of the methods here, and `history` records what the disk held
      after each: a crash leaves one of these contents. */
  class Folder {
    var data: bytes
    var stateFile: Option<State>
    var tmp: TmpFile
    var saved: Option<bytes>
    var unpacked: Option<bytes>
    ghost var history: seq<Disk>

    constructor (d: Disk)
      ensures Contents() == d && history == [d]
    {
      data, stateFile, tmp, saved, unpacked := d.data, d.stateFile, d.tmp, d.saved, d.unpacked;
      history := [d];
    }

    function Contents(): Disk
      reads this
    {
      Disk(data, stateFile, tmp, saved, unpacked)
    }

    method Overwrite(off: nat, b: bytes)
      requires off + |b| <= |data|
      modifies this
      ensures Contents() == old(Contents()).(data := Splice(old(data), off, b))
      ensures history == old(history) + Prefixes(old(Contents()), off, b)
    {
      ghost var before := Contents();
      for n := 0 to |b|
        invariant Contents() == before.(data := Splice(before.data, off, b[..n]))
        invariant history == old(history) + Prefixes(before, off, b)[..n]
      {
        data := data[off + n := b[n]];
        assert data == Splice(before.data, off, b[..n + 1]);
        history := history + [Contents()];
      }
      assert b[..|b|] == b;
    }

    method Resize(b: bytes)
      modifies this
      ensures Contents() == old(Contents()).(data := b)
      ensures history == old(history) + [Contents()]
    {
      data := b;
      history := history + [Contents()];
    }

    method SetTmp(t: TmpFile)
      modifies this
      ensures Contents() == old(Contents()).(tmp := t)
      ensures history == old(history) + [Contents()]
    {
      tmp := t;
      history := history + [Contents()];
    }

    method RenameTmp()
      requires tmp.Whole?
      modifies this
      ensures Contents() == old(Contents()).(stateFile := Some(old(tmp).state), tmp := NoTmp)
      ensures history == old(history) + [Contents()]
    {
      stateFile, tmp := Some(tmp.state), NoTmp;
      history := history + [Contents()];
    }

    method RenameData()
      modifies this
      ensures Contents() == old(Contents()).(saved := Some(old(data)), data := [])
      ensures history == old(history) + [Contents()]
    {
      saved, data := Some(data), [];
      history := history + [Contents()];
    }

    method UnpackData()
      modifies this
      ensures Contents() == old(Contents()).(unpacked := Some(old(data)))
      ensures history == old(history) + [Contents()]
    {
      unpacked := Some(data);
      history := history + [Contents()];
    }

    method Remove()
      modifies this
      ensures Contents() == old(Contents()).(data := [], stateFile := None, tmp := NoTmp)
      ensures history == old(history) + [Contents()]
    {
      data, stateFile, tmp := [], None, NoTmp;
      history := history + [Contents()];
    }
  }

  /** The crash points of a chunk write, in the order it passes them. */
  function PointAt(pt: bytes, k: nat): CrashPoint {
    if k < |pt| then DuringData(k + 1) else if k == |pt| then DuringTmp else if k == |pt| + 1 then BeforeRename else Finished
  }

  /** Every disk that can be found when a chunk write is cut short, or over. */
  function WriteHistory(d: Disk, i: nat, pt: bytes): seq<Disk>
    requires Opened(d) && CheckWrite(d.stateFile.value, i, pt) == Written
  {
    seq(|pt| + 3, k requires 0 <= k < |pt| + 3 => DiskAt(d, i, pt, PointAt(pt, k)))
  }

  /** The data first, then the state: these are the effects in the order they must come. */
  lemma WriteHistoryIs(d: Disk, i: nat, pt: bytes)
    requires Opened(d) && CheckWrite(d.stateFile.value, i, pt) == Written
    ensures var s := d.stateFile.value;
            && Start(i, s.chunkSize) + |pt| <= |d.data|
            && WriteHistory(d, i, pt)
               == Prefixes(d, Start(i, s.chunkSize), pt)
                + Persisting(d.(data := Splice(d.data, Start(i, s.chunkSize), pt)), s.(have := s.have + {i}))
  {
    hide TotalChunks, ExpectedLen;
    ChunkBounds(i, d.stateFile.value.totalSize, d.stateFile.value.chunkSize);
  }

  /** What the disk goes through while a staging folder is opened: truncated unless something of this very
      transfer is staged, brought to its length, and the state replaced. */
  function OpenHistory(d: Disk, tid: string, total: nat, cs: nat): seq<Disk> {
    var s := LoadState(d, tid, total, cs);
    var e := d.(data := SetLen(if s.have == {} then [] else d.data, total));
    (if s.have == {} then [d.(data := [])] else []) + [e] + Persisting(e, s)
  }

  /** And while the data is moved, or unpacked, and the folder removed. */
  function MoveHistory(d: Disk): seq<Disk> {
    [d.(saved := Some(d.data), data := []), FinalizeFile(d)]
  }

  function UnpackHistory(d: Disk): seq<Disk> {
    [d.(unpacked := Some(d.data)), UnpackAndClean(d)]
  }

  class StagingStore {
    const folder: Folder
    var state: State

    /** The memory copy of the state and the state file agree whenever no call is running. */
    ghost predicate Valid()
      reads this, folder
    {
      Present(folder.Contents()) && folder.stateFile == Some(state)
    }

    constructor (folder: Folder, tid: string, total: nat, cs: nat)
      modifies folder
      ensures this.folder == folder
      ensures Valid() && folder.Contents() == OpenOrCreate(old(folder.Contents()), tid, total, cs)
      ensures folder.history == old(folder.history) + OpenHistory(old(folder.Contents()), tid, total, cs)
    {
      this.folder := folder;
      this.state := LoadState(folder.Contents(), tid, total, cs);
      new;
      if state.have == {} {
        folder.Resize([]);
      }
      folder.Resize(SetLen(folder.data, total));
      PersistState();
    }

    method PersistState()
      modifies folder
      ensures folder.Contents() == old(folder.Contents()).(stateFile := Some(state), tmp := NoTmp)
      ensures folder.history == old(folder.history) + Persisting(old(folder.Contents()), state)
    {
      folder.SetTmp(Torn);
      folder.SetTmp(Whole(state));
      folder.RenameTmp();
    }

    method Write(i: nat, pt: bytes) returns (r: WriteResult)
      requires Valid()
      modifies this`state, folder
      ensures Valid()
      ensures r == CheckWrite(old(state), i, pt)
      ensures folder.Contents() == WriteChunk(old(folder.Contents()), i, pt)
      ensures folder.history == old(folder.history)
                + (if r == Written then WriteHistory(old(folder.Contents()), i, pt) else [])
    {
      if state.chunkSize == 0 {
        return DividesByZero;
      }
      if i >= Total(state) {
        return OutOfRange;
      }
      if |pt| != ExpectedLen(i, state.totalSize, state.chunkSize) {
        return WrongLength;
      }
      ghost var before := folder.Contents();
      ChunkBounds(i, state.totalSize, state.chunkSize);
      folder.Overwrite(Start(i, state.chunkSize), pt);
      WriteHistoryIs(before, i, pt);
      state := state.(have := state.have + {i});
      PersistState();
      r := Written;
    }

    method Have() returns (have: seq<nat>)
      requires Valid()
      ensures have == Runs.Sorted(state.have)
      ensures Runs.Ascending(have) && forall i: nat :: i in have <==> i in state.have
    {
      have := Runs.Sorted(state.have);
      Runs.SortedExact(state.have);
    }

    method IsComplete() returns (b: bool)
      requires Valid() && state.chunkSize > 0
      ensures b == Complete(state)
    {
      b := |state.have| == Total(state);
    }

    method MoveToDestination()
      requires Valid()
      modifies folder
      ensures folder.Contents() == FinalizeFile(old(folder.Contents()))
      ensures folder.history == old(folder.history) + MoveHistory(old(folder.Contents()))
    {
      folder.RenameData();
      folder.Remove();
    }

    method UnpackIntoPlace()
      requires Valid()
      modifies folder
      ensures folder.Contents() == UnpackAndClean(old(folder.Contents()))
      ensures folder.history == old(folder.history) + UnpackHistory(old(folder.Contents()))
    {
      folder.UnpackData();
      folder.Remove();
    }
  }

  // ---------------------------------------------------------------- what staging keeps

  /** If the disk holds state about this transfer, every chunk it names is there, whole and right. */
  predicate Faithful(d: Disk, content: bytes, tid: string, cs: nat)
    requires cs > 0
  {
    d.stateFile.Some? && Matches(d.stateFile.value, tid, |content|, cs) ==>
      && |d.data| == |content|
      && forall i :: i in d.stateFile.value.have ==>
           i < TotalChunks(|content|, cs) && ChunkOf(d.data, i, cs) == ChunkOf(content, i, cs)
  }

  /** Opening, field by field: the staged indices survive exactly when the state file is about this very
      id, size and chunk size; the data survives if any do, else it is blank. */
  lemma OpenExactly(d: Disk, tid: string, total: nat, cs: nat)
    ensures var o := OpenOrCreate(d, tid, total, cs);
            var mine := d.stateFile.Some? && d.stateFile.value == State(tid, total, cs, d.stateFile.value.have);
            var have := if mine then d.stateFile.value.have else {};
            && o.stateFile == Some(State(tid, total, cs, have)) && o.tmp == NoTmp
            && o.saved == d.saved && o.unpacked == d.unpacked && |o.data| == total
            && forall k :: 0 <= k < total ==> o.data[k] == if have != {} && k < |d.data| then d.data[k] else 0
  {
  }

  /** A chunk write, answer by answer. A chunk is written exactly when its index is in range and its
      length right; then it is there, it is recorded, and nothing else changes. */
  lemma WriteExactly(d: Disk, i: nat, pt: bytes)
    requires Opened(d)
    ensures var s, r, e := d.stateFile.value, CheckWrite(d.stateFile.value, i, pt), WriteChunk(d, i, pt);
            && (r == OutOfRange <==> i >= TotalChunks(s.totalSize, s.chunkSize))
            && (r == WrongLength <==> i < TotalChunks(s.totalSize, s.chunkSize) && |pt| != ChunkLen(i, s.totalSize, s.chunkSize))
            && (r == Written <==> i < TotalChunks(s.totalSize, s.chunkSize) && |pt| == ChunkLen(i, s.totalSize, s.chunkSize))
            && (r != Written ==> e == d)
            && (r == Written ==>
                  && e == d.(data := e.data, stateFile := Some(s.(have := s.have + {i})), tmp := NoTmp)
                  && |e.data| == |d.data| && ChunkOf(e.data, i, s.chunkSize) == pt
                  && forall j :: 0 <= j < TotalChunks(s.totalSize, s.chunkSize) && j != i ==>
                       ChunkOf(e.data, j, s.chunkSize) == ChunkOf(d.data, j, s.chunkSize))
  {
    hide TotalChunks, ChunkOf, Splice;
    var s := d.stateFile.value;
    if i < TotalChunks(s.totalSize, s.chunkSize) {
      ChunkBounds(i, s.totalSize, s.chunkSize);
      if |pt| == ChunkLen(i, s.totalSize, s.chunkSize) {
        SpliceChunk(d.data, i, pt, s.chunkSize);
        forall j | 0 <= j < TotalChunks(s.totalSize, s.chunkSize) && j != i
          ensures ChunkOf(Splice(d.data, Start(i, s.chunkSize), pt), j, s.chunkSize) == ChunkOf(d.data, j, s.chunkSize)
        {
          SpliceElsewhere(d.data, i, j, pt, s.chunkSize);
        }
      }
    }
  }

  /** Opening for a transfer keeps what is staged for it, and never inherits another's chunks. */
  lemma OpenKeepsFaithful(d: Disk, content: bytes, tid: string, cs: nat)
    requires cs > 0 && Faithful(d, content, tid, cs)
    ensures var o := OpenOrCreate(d, tid, |content|, cs);
            && Opened(o) && Faithful(o, content, tid, cs)
            && Matches(o.stateFile.value, tid, |content|, cs)
            && o.stateFile.value.have == LoadState(d, tid, |content|, cs).have
            && o.saved == d.saved && o.unpacked == d.unpacked
  {
  }

  lemma SplicedChunks(d: Disk, content: bytes, tid: string, cs: nat, i: nat, b: bytes, j: nat)
    requires cs > 0 && Faithful(d, content, tid, cs) && Opened(d)
    requires Matches(d.stateFile.value, tid, |content|, cs)
    requires i < TotalChunks(|content|, cs) && b <= ChunkOf(content, i, cs)
    requires j in d.stateFile.value.have || (j == i && b == ChunkOf(content, i, cs))
    ensures j < TotalChunks(|content|, cs) && Start(i, cs) + |b| <= |d.data|
    ensures ChunkOf(Splice(d.data, Start(i, cs), b), j, cs) == ChunkOf(content, j, cs)
  {
    ChunkBounds(i, |content|, cs);
    if j != i {
      SpliceElsewhere(d.data, i, j, b, cs);
    } else if j in d.stateFile.value.have {
      SpliceStaged(d.data, i, b, cs);
    } else {
      SpliceChunk(d.data, i, b, cs);
    }
  }

  /** Crash safety: stopped at any point of writing the right bytes of a chunk, staged before or
      not, the disk still names only chunks that are whole and right. */
  lemma CrashSafe(d: Disk, content: bytes, tid: string, cs: nat, i: nat, at: CrashPoint)
    requires cs > 0 && Faithful(d, content, tid, cs) && Opened(d)
    requires Matches(d.stateFile.value, tid, |content|, cs)
    requires i < TotalChunks(|content|, cs)
    requires at.DuringData? ==> at.written <= |ChunkOf(content, i, cs)|
    ensures CheckWrite(d.stateFile.value, i, ChunkOf(content, i, cs)) == Written
    ensures Faithful(DiskAt(d, i, ChunkOf(content, i, cs), at), content, tid, cs)
  {
    var pt := ChunkOf(content, i, cs);
    var after := DiskAt(d, i, pt, at);
    var b := if at.DuringData? then pt[..at.written] else pt;
    forall j | j in after.stateFile.value.have
      ensures j < TotalChunks(|content|, cs) && ChunkOf(after.data, j, cs) == ChunkOf(content, j, cs)
    {
      SplicedChunks(d, content, tid, cs, i, b, j);
    }
  }

  /** So whenever a right chunk write is cut short, whatever was on disk at that moment names only
      chunks that are whole and right. */
  lemma EveryMomentIsSafe(d: Disk, content: bytes, tid: string, cs: nat, i: nat)
    requires cs > 0 && Faithful(d, content, tid, cs) && Opened(d)
    requires Matches(d.stateFile.value, tid, |content|, cs) && i < TotalChunks(|content|, cs)
    ensures CheckWrite(d.stateFile.value, i, ChunkOf(content, i, cs)) == Written
    ensures forall e :: e in WriteHistory(d, i, ChunkOf(content, i, cs)) ==> Faithful(e, content, tid, cs)
  {
    hide Faithful, TotalChunks, ChunkOf, DiskAt, CheckWrite;
    var pt := ChunkOf(content, i, cs);
    CrashSafe(d, content, tid, cs, i, Finished);
    forall k | 0 <= k < |pt| + 3
      ensures Faithful(WriteHistory(d, i, pt)[k], content, tid, cs)
    {
      CrashSafe(d, content, tid, cs, i, PointAt(pt, k));
    }
  }

  /** Writing a chunk that was not staged, right bytes or not before it, changes nothing about the
      chunks that were: staging is faithful afterwards exactly when it was before. */
  lemma FreshWriteKeepsTruth(d: Disk, content: bytes, tid: string, cs: nat, i: nat, at: CrashPoint)
    requires cs > 0 && Opened(d) && Matches(d.stateFile.value, tid, |content|, cs)
    requires i < TotalChunks(|content|, cs) && i !in d.stateFile.value.have
    requires forall j :: j in d.stateFile.value.have ==> j < TotalChunks(|content|, cs)
    requires at.DuringData? ==> at.written <= |ChunkOf(content, i, cs)|
    ensures CheckWrite(d.stateFile.value, i, ChunkOf(content, i, cs)) == Written
    ensures var e := DiskAt(d, i, ChunkOf(content, i, cs), at);
            && Opened(e) && Matches(e.stateFile.value, tid, |content|, cs)
            && e.stateFile.value.have == d.stateFile.value.have + (if at.Finished? then {i} else {})
            && (Faithful(e, content, tid, cs) <==> Faithful(d, content, tid, cs))
            && e.saved == d.saved && e.unpacked == d.unpacked
  {
    hide TotalChunks, ChunkOf, Splice;
    var pt := ChunkOf(content, i, cs);
    var b := if at.DuringData? then pt[..at.written] else pt;
    ChunkBounds(i, |content|, cs);
    var e := DiskAt(d, i, pt, at);
    forall j | j in d.stateFile.value.have
      ensures ChunkOf(e.data, j, cs) == ChunkOf(d.data, j, cs)
    {
      SpliceElsewhere(d.data, i, j, b, cs);
    }
    if at.Finished? {
      SpliceChunk(d.data, i, pt, cs);
    }
  }

  /** For arbitrary bytes: `want` is what each named chunk must hold. */
  ghost predicate Records(d: Disk, want: map<nat, bytes>)
    requires Opened(d)
  {
    var s := d.stateFile.value;
    forall i :: i in s.have ==> i < Total(s) && i in want && ChunkOf(d.data, i, s.chunkSize) == want[i]
  }

  /** What each chunk must hold once the write has reached `at`. */
  function Wanted(want: map<nat, bytes>, i: nat, pt: bytes, at: CrashPoint): map<nat, bytes> {
    if at.Finished? then want[i := pt] else want
  }

  ghost predicate SafeAt(d: Disk, want: map<nat, bytes>, i: nat, pt: bytes, at: CrashPoint)
    requires Opened(d) && CheckWrite(d.stateFile.value, i, pt) == Written
    requires at.DuringData? ==> at.written <= |pt|
  {
    ChunkBounds(i, d.stateFile.value.totalSize, d.stateFile.value.chunkSize);
    Records(DiskAt(d, i, pt, at), Wanted(want, i, pt, at))
  }

  lemma SafeWhenFresh(d: Disk, want: map<nat, bytes>, i: nat, pt: bytes, at: CrashPoint)
    requires Opened(d) && CheckWrite(d.stateFile.value, i, pt) == Written && Records(d, want)
    requires i !in d.stateFile.value.have || want[i] == pt
    requires at.DuringData? ==> at.written <= |pt|
    ensures SafeAt(d, want, i, pt, at)
  {
    var s := d.stateFile.value;
    ChunkBounds(i, s.totalSize, s.chunkSize);
    var b := if at.DuringData? then pt[..at.written] else pt;
    var after := DiskAt(d, i, pt, at);
    forall j | j in after.stateFile.value.have
      ensures j < Total(s) && j in Wanted(want, i, pt, at)
      ensures ChunkOf(after.data, j, s.chunkSize) == Wanted(want, i, pt, at)[j]
    {
      if j != i {
        SpliceElsewhere(d.data, i, j, b, s.chunkSize);
      } else if i in s.have {
        SpliceStaged(d.data, i, b, s.chunkSize);
      } else {
        SpliceChunk(d.data, i, pt, s.chunkSize);
      }
    }
  }

  /** The exact condition for a chunk write to be crash safe: the chunk was not staged, or the
      same bytes are written again. The window is between the data write and the rename. */
  lemma CrashSafeExactly(d: Disk, want: map<nat, bytes>, i: nat, pt: bytes)
    requires Opened(d) && CheckWrite(d.stateFile.value, i, pt) == Written && Records(d, want)
    ensures (forall at: CrashPoint | at.DuringData? ==> at.written <= |pt| :: SafeAt(d, want, i, pt, at))
       <==> (i in d.stateFile.value.have ==> want[i] == pt)
  {
    var s := d.stateFile.value;
    if i in s.have && want[i] != pt {
      SpliceChunk(d.data, i, pt, s.chunkSize);
      assert !SafeAt(d, want, i, pt, BeforeRename);
    } else {
      forall at: CrashPoint | at.DuringData? ==> at.written <= |pt|
        ensures SafeAt(d, want, i, pt, at)
      {
        SafeWhenFresh(d, want, i, pt, at);
      }
    }
  }

  /** Faithful staging with every chunk present is the file. */
  lemma CompleteIsContent(d: Disk, content: bytes, tid: string, cs: nat)
    requires cs > 0 && Opened(d) && Faithful(d, content, tid, cs)
    requires Matches(d.stateFile.value, tid, |content|, cs)
    ensures Complete(d.stateFile.value) <==> d.stateFile.value.have == Runs.UpTo(TotalChunks(|content|, cs))
    ensures Complete(d.stateFile.value) ==> d.data == content
  {
    var s := d.stateFile.value;
    Runs.FullIsEverything(s.have, Total(s));
    if Complete(s) {
      assert forall j: nat :: j < Total(s) ==> j in s.have;
      SameChunksSameFile(d.data, content, cs);
    }
  }

  // ---------------------------------------------------------------- crashes outside a chunk write

  /** Opening the disk for this transfer finds right chunks only. */
  predicate Recoverable(d: Disk, content: bytes, tid: string, cs: nat)
    requires cs > 0
  {
    Faithful(OpenOrCreate(d, tid, |content|, cs), content, tid, cs)
  }

  predicate About(d: Disk, tid: string, total: nat, cs: nat) {
    d.stateFile.Some? && Matches(d.stateFile.value, tid, total, cs)
  }

  predicate AllZero(b: bytes) {
    forall k :: 0 <= k < |b| ==> b[k] == 0
  }

  /** Every chunk of the content that the state file names is all zeros. */
  predicate NamesOnlyZeros(d: Disk, content: bytes, cs: nat)
    requires cs > 0 && d.stateFile.Some?
    requires forall i :: i in d.stateFile.value.have ==> i < TotalChunks(|content|, cs)
  {
    forall i :: i in d.stateFile.value.have ==> AllZero(ChunkOf(content, i, cs))
  }

  /** A transfer whose state file outlives its data recovers exactly if it had staged nothing but zeros. */
  lemma DataLost(d: Disk, e: Disk, content: bytes, tid: string, cs: nat, n: nat)
    requires cs > 0 && Recoverable(d, content, tid, cs) && About(d, tid, |content|, cs)
    requires e.stateFile == d.stateFile && e.data == SetLen([], n)
    ensures forall i :: i in d.stateFile.value.have ==> i < TotalChunks(|content|, cs)
    ensures Recoverable(e, content, tid, cs) <==> NamesOnlyZeros(d, content, cs)
  {
    hide TotalChunks;
    var o := OpenOrCreate(e, tid, |content|, cs);
    assert AllZero(o.data) && |o.data| == |content|;
    forall i | i in d.stateFile.value.have
      ensures ChunkOf(o.data, i, cs) == ChunkOf(content, i, cs) <==> AllZero(ChunkOf(content, i, cs))
    {
      ZeroChunk(o.data, content, i, cs);
    }
  }

  lemma ZeroChunk(zeros: bytes, content: bytes, i: nat, cs: nat)
    requires cs > 0 && |zeros| == |content| && AllZero(zeros) && i < TotalChunks(|content|, cs)
    ensures ChunkOf(zeros, i, cs) == ChunkOf(content, i, cs) <==> AllZero(ChunkOf(content, i, cs))
  {
    hide TotalChunks;
    ChunkBounds(i, |content|, cs);
    var a, b := ChunkOf(zeros, i, cs), ChunkOf(content, i, cs);
    assert AllZero(a) && |a| == |b|;
    if AllZero(b) {
      assert forall k :: 0 <= k < |a| ==> a[k] == b[k];
    }
  }

  /** Opening the folder for any transfer, cut short anywhere: the one that is staged there recovers at
      every moment exactly if it is the same transfer, or only zeros of it are staged. Otherwise the data is
      truncated while the old state file still names its chunks. */
  lemma OpenCrashExactly(d: Disk, content: bytes, tid: string, cs: nat, tid': string, total': nat, cs': nat)
    requires cs > 0 && Recoverable(d, content, tid, cs) && About(d, tid, |content|, cs)
    ensures forall i :: i in d.stateFile.value.have ==> i < TotalChunks(|content|, cs)
    ensures (forall e :: e in OpenHistory(d, tid', total', cs') ==> Recoverable(e, content, tid, cs))
       <==> About(d, tid', total', cs') || NamesOnlyZeros(d, content, cs)
  {
    hide TotalChunks, NamesOnlyZeros;
    var h := OpenHistory(d, tid', total', cs');
    DataLost(d, d.(data := SetLen([], 0)), content, tid, cs, 0);
    if About(d, tid', total', cs') {
      forall e | e in h ensures Recoverable(e, content, tid, cs) {
        SameTransferRecovers(d, e, content, tid, cs);
      }
    } else {
      assert SetLen([], 0) == [];
      assert d.(data := []) in h;
      forall e | e in h && NamesOnlyZeros(d, content, cs) ensures Recoverable(e, content, tid, cs) {
        if e.stateFile == d.stateFile {
          assert e.data == [] || e.data == SetLen([], total');
          DataLost(d, e, content, tid, cs, |e.data|);
        }
      }
    }
  }

  lemma SameTransferRecovers(d: Disk, e: Disk, content: bytes, tid: string, cs: nat)
    requires cs > 0 && Recoverable(d, content, tid, cs) && About(d, tid, |content|, cs)
    requires e in OpenHistory(d, tid, |content|, cs)
    ensures Recoverable(e, content, tid, cs)
  {
    hide TotalChunks;
    var s := d.stateFile.value;
    assert e.stateFile == d.stateFile;
    if s.have != {} {
      assert e.data == SetLen(d.data, |content|);
      assert OpenOrCreate(e, tid, |content|, cs).data == e.data;
    }
  }

  /** Handing over the file, cut short anywhere: from the rename on the file is in place, and between the
      rename and the removal the folder recovers exactly if only zeros are staged. */
  lemma MoveCrashExactly(d: Disk, content: bytes, tid: string, cs: nat)
    requires cs > 0 && Recoverable(d, content, tid, cs) && About(d, tid, |content|, cs)
    ensures forall e :: e in MoveHistory(d) ==> e.saved == Some(d.data)
    ensures forall i :: i in d.stateFile.value.have ==> i < TotalChunks(|content|, cs)
    ensures (forall e :: e in MoveHistory(d) ==> Recoverable(e, content, tid, cs)) <==> NamesOnlyZeros(d, content, cs)
  {
    hide TotalChunks, NamesOnlyZeros;
    var mid := d.(saved := Some(d.data), data := []);
    assert SetLen([], 0) == [];
    DataLost(d, mid, content, tid, cs, 0);
    assert mid in MoveHistory(d);
    assert Recoverable(FinalizeFile(d), content, tid, cs);
  }

  /** Unpacking the archive, cut short anywhere, loses nothing. */
  lemma UnpackCrash(d: Disk, content: bytes, tid: string, cs: nat)
    requires cs > 0 && Recoverable(d, content, tid, cs)
    ensures forall e :: e in UnpackHistory(d) ==> e.unpacked == Some(d.data) && Recoverable(e, content, tid, cs)
  {
    hide TotalChunks;
  }
}
