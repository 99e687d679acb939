/** What the sealed transfer keeps on any channel at all: frames dropped, repeated, reordered,
    echoed or forged (src/stream.rs, src/crypto.rs), and nonces across whole runs. */
module Faults {
  import opened Bytes
  import opened Crypto
  import opened Chunks
  import opened Store
  import opened Runs
  import opened Transfer
  import opened Resume

  // ---------------------------------------------------------------- an unreliable channel

  /** The frames that can exist when only the two ends hold `key`, and use it for one transfer of
      `src`: anything not sealed under it, what the sender seals, and the receiver's own replies. */
  ghost predicate Possible(key: Key, src: Source, f: Frame)
    requires Sized(src)
  {
    || f.Forged?
    || f.key != key
    || f == ManifestFrame(key, src)
    || (exists i :: 0 <= i < FrameCount(|src.content|) && f == ChunkFrame(key, src.content, i))
    || f == CommitFrame(key, src.content)
    || (exists i: u64 :: f.nonce == MakeNonce(StreamToSender, i))
  }

  /** Opening a possible frame for the receiver's direction yields what the sender sealed there. */
  lemma OpenedIsSealed(key: Key, src: Source, f: Frame, i: u64)
    requires Sized(src) && Possible(key, src, f)
    requires Open(key, StreamToReceiver, i, "", f).Some?
    ensures var n := FrameCount(|src.content|);
            var plain := Open(key, StreamToReceiver, i, "", f).value;
            || (i == 0 && plain == ManifestMsg(StreamManifest(src)))
            || (1 <= i <= n && plain == ChunkMsg(ChunkOf(src.content, i - 1, FRAME)))
            || (i == n + 1 && plain == CommitMsg(Digest(src.content)))
  {
    hide MakeNonce, TotalChunks, ChunkOf;
    var n := FrameCount(|src.content|);
    assert f.nonce == MakeNonce(StreamToReceiver, i);
    if f == ManifestFrame(key, src) {
      NonceInjective(StreamToReceiver, i, StreamToReceiver, 0);
    } else if f == CommitFrame(key, src.content) {
      NonceInjective(StreamToReceiver, i, StreamToReceiver, PayloadIndex(n, |src.content|));
    } else if exists j :: 0 <= j < n && f == ChunkFrame(key, src.content, j) {
      var j :| 0 <= j < n && f == ChunkFrame(key, src.content, j);
      NonceInjective(StreamToReceiver, i, StreamToReceiver, PayloadIndex(j, |src.content|));
    } else {
      var j: u64 :| f.nonce == MakeNonce(StreamToSender, j);
      NonceInjective(StreamToReceiver, i, StreamToSender, j);
    }
  }

  ghost predicate Genuine(w: (nat, bytes), content: bytes) {
    w.0 < FrameCount(|content|) && w.1 == ChunkOf(content, w.0, FRAME)
  }

  /** What holds of a receiver that started from `d0`, whatever it was fed. */
  ghost predicate Sound(src: Source, d0: Disk, t: ReceiverTrace)
    requires Payload(src)
  {
    && (forall k :: 0 <= k < |t.writes| ==> Genuine(t.writes[k], src.content))
    && (t.phase.WantChunk? || t.phase.WantCommit? ==> t.phase.manifest == StreamManifest(src))
    && (Staged(d0, src) ==> Staged(t.disk, src))
    && (if t.phase == ReceiverDone(Finalized)
        then if src.kind == Tar then t.disk.unpacked == Some(src.content) && t.disk.saved == d0.saved
             else t.disk.saved == Some(src.content) && t.disk.unpacked == d0.unpacked
        else t.disk.saved == d0.saved && t.disk.unpacked == d0.unpacked)
  }

  lemma SoundManifest(key: Key, accept: Manifest -> bool, src: Source, d0: Disk, t: ReceiverTrace, f: Frame)
    requires Payload(src) && Possible(key, src, f) && Staging(t) && Sound(src, d0, t) && t.phase.WantManifest?
    ensures Sound(src, d0, ReceiverStep(key, accept, t, f))
  {
    hide TotalChunks, ChunkOf, ResumeAck, MakeNonce, Possible;
    if Open(key, StreamToReceiver, 0, "", f).Some? {
      OpenedIsSealed(key, src, f, 0);
      if Staged(d0, src) {
        OpenKeepsFaithful(t.disk, src.content, src.transferId, FRAME);
      }
    }
  }

  lemma SoundChunk(key: Key, accept: Manifest -> bool, src: Source, d0: Disk, t: ReceiverTrace, f: Frame)
    requires Payload(src) && Possible(key, src, f) && Staging(t) && Sound(src, d0, t) && t.phase.WantChunk?
    ensures Sound(src, d0, ReceiverStep(key, accept, t, f))
  {
    hide TotalChunks, ChunkOf, MakeNonce, Possible, Faithful, NextMissing, ExpectedLen, Splice, Start;
    var i := t.phase.next;
    var index := PayloadIndex(i, |src.content|);
    if Open(key, StreamToReceiver, index, "", f).Some? {
      OpenedIsSealed(key, src, f, index);
      if Open(key, StreamToReceiver, index, "", f).value.ChunkMsg? {
        var pt := ChunkOf(src.content, i, FRAME);
        if Staged(d0, src) {
          CrashSafe(t.disk, src.content, src.transferId, FRAME, i, CrashPoint.Finished);
        }
        assert Genuine((i, pt), src.content);
      }
    }
  }

  lemma SoundCommit(key: Key, accept: Manifest -> bool, src: Source, d0: Disk, t: ReceiverTrace, f: Frame)
    requires Payload(src) && Possible(key, src, f) && Staging(t) && Sound(src, d0, t) && t.phase.WantCommit?
    ensures Sound(src, d0, ReceiverStep(key, accept, t, f))
  {
    hide TotalChunks, ChunkOf, MakeNonce, Possible;
    var index := PayloadIndex(FrameCount(|src.content|), |src.content|);
    if Open(key, StreamToReceiver, index, "", f).Some? {
      OpenedIsSealed(key, src, f, index);
    }
  }

  /** Fault tolerance: fed any possible frames in any order, any number of times, the receiver
      writes at each index only what the sender sealed for it, and hands over only the source. */
  lemma {:induction false} AnyChannel(key: Key, accept: Manifest -> bool, src: Source, d: Disk, inputs: seq<Frame>)
    requires Payload(src)
    requires forall k :: 0 <= k < |inputs| ==> Possible(key, src, inputs[k])
    ensures Sound(src, d, ReceiverRun(key, accept, d, inputs))
    decreases |inputs|
  {
    hide ReceiverStep, Sound, Possible;
    if inputs == [] {
      SoundStart(key, accept, src, d);
    } else {
      var last := |inputs| - 1;
      var t := ReceiverRun(key, accept, d, inputs[..last]);
      AnyChannel(key, accept, src, d, inputs[..last]);
      match t.phase {
        case WantManifest => SoundManifest(key, accept, src, d, t, inputs[last]);
        case WantChunk(_, _, _) => SoundChunk(key, accept, src, d, t, inputs[last]);
        case WantCommit(_) => SoundCommit(key, accept, src, d, t, inputs[last]);
        case ReceiverDone(_) => DoneStays(key, accept, t, inputs[last]);
      }
    }
  }

  /** The same for a text, which comes with the manifest: on any channel the receiver ends up with the
      sender's text, or with none, and the disk is never touched. */
  lemma {:induction false} AnyChannelText(key: Key, accept: Manifest -> bool, src: Source, d: Disk, inputs: seq<Frame>)
    requires Sized(src) && StreamManifest(src).kind == Text
    requires forall k :: 0 <= k < |inputs| ==> Possible(key, src, inputs[k])
    ensures var t := ReceiverRun(key, accept, d, inputs);
            && t.disk == d && t.writes == []
            && (t.phase.WantManifest? || t.phase == ReceiverDone(BadManifest)
                || t.phase == ReceiverDone(if accept(StreamManifest(src)) then GotText(TextOf(src)) else Refused))
    decreases |inputs|
  {
    hide Possible, StreamManifest, TextOf;
    if inputs == [] {
      ReceiverRunStart(key, accept, d);
    } else {
      var last := |inputs| - 1;
      AnyChannelText(key, accept, src, d, inputs[..last]);
      TextStep(key, accept, src, ReceiverRun(key, accept, d, inputs[..last]), inputs[last]);
    }
  }

  lemma TextStep(key: Key, accept: Manifest -> bool, src: Source, t: ReceiverTrace, f: Frame)
    requires Sized(src) && StreamManifest(src).kind == Text && Possible(key, src, f) && Staging(t)
    requires t.phase.WantManifest? || t.phase.ReceiverDone?
    ensures var e := ReceiverStep(key, accept, t, f);
            && e.disk == t.disk && e.writes == t.writes
            && (e == t || (t.phase.WantManifest?
                  && (e.phase == ReceiverDone(BadManifest)
                      || e.phase == ReceiverDone(if accept(StreamManifest(src)) then GotText(TextOf(src)) else Refused))))
  {
    hide MakeNonce, Possible, OpenOrCreate;
    if t.phase.WantManifest? && Open(key, StreamToReceiver, 0, "", f).Some? {
      OpenedIsSealed(key, src, f, 0);
    }
  }

  lemma SoundStart(key: Key, accept: Manifest -> bool, src: Source, d: Disk)
    requires Payload(src)
    ensures Sound(src, d, ReceiverRun(key, accept, d, []))
  {
  }

  lemma DoneStays(key: Key, accept: Manifest -> bool, t: ReceiverTrace, f: Frame)
    requires t.phase.ReceiverDone? && Staging(t)
    ensures ReceiverStep(key, accept, t, f) == t
  {
  }

  // ---------------------------------------------------------------- nonces

  /** `f` is sealed under `key` in direction `d` at index `i`. */
  ghost predicate SealedAt(f: Frame, key: Key, d: Domain, i: u64) {
    f.Sealed? && f.key == key && f.nonce == MakeNonce(d, i)
  }

  ghost predicate SealedAscending(fs: seq<Frame>, key: Key, d: Domain, indices: seq<u64>) {
    && |indices| == |fs|
    && (forall k :: 0 <= k < |fs| ==> SealedAt(fs[k], key, d, indices[k]))
    && (forall j, k :: 0 <= j < k < |fs| ==> indices[j] < indices[k])
  }

  lemma OneChunkSeal(key: Key, content: bytes, i: nat)
    requires |content| < TWO_POW_64 && i < FrameCount(|content|)
    ensures PayloadIndex(i, |content|) == 1 + i
    ensures SealedAt(ChunkFrame(key, content, i), key, StreamToReceiver, PayloadIndex(i, |content|))
  {
  }

  lemma {:induction false} ChunkSeals(key: Key, content: bytes, indices: seq<nat>) returns (at: seq<u64>)
    requires |content| < TWO_POW_64 && AllBelow(indices, FrameCount(|content|)) && Runs.Ascending(indices)
    ensures SealedAscending(ChunkFrames(key, content, indices), key, StreamToReceiver, at)
    ensures forall k :: 0 <= k < |at| ==> at[k] == 1 + indices[k]
    decreases |indices|
  {
    hide TotalChunks, ChunkFrame, PayloadIndex, SealedAt;
    at := [];
    if indices != [] {
      var last := |indices| - 1;
      at := ChunkSeals(key, content, indices[..last]);
      OneChunkSeal(key, content, indices[last]);
      at := at + [PayloadIndex(indices[last], |content|)];
    }
  }

  lemma SenderPayloadSeals(key: Key, src: Source, ack: Plain) returns (at: seq<u64>)
    requires Sized(src) && ack.AckMsg?
    ensures SealedAscending([ManifestFrame(key, src)] + PayloadFrames(key, src.content, ack), key, StreamToReceiver, at)
  {
    hide TotalChunks, ChunkOf, MakeNonce, SentFrom, ChunkFrames;
    var n := FrameCount(|src.content|);
    SentInRange(ack, 0, n);
    var indices := SentFrom(ack, 0, n);
    var mid := ChunkSeals(key, src.content, indices);
    at := [0] + mid + [PayloadIndex(n, |src.content|)];
    var chunks := ChunkFrames(key, src.content, indices);
    var fs := [ManifestFrame(key, src)] + PayloadFrames(key, src.content, ack);
    assert fs == [ManifestFrame(key, src)] + chunks + [CommitFrame(key, src.content)];
    forall k | 0 <= k < |fs|
      ensures SealedAt(fs[k], key, StreamToReceiver, at[k])
    {
      if 1 <= k <= |chunks| {
        assert fs[k] == chunks[k - 1] && at[k] == mid[k - 1];
      }
    }
  }

  /** Whatever the sender reads back, it seals in ascending index order. */
  lemma {:induction false} SenderSeals(key: Key, src: Source, inputs: seq<Frame>) returns (at: seq<u64>)
    requires Sized(src)
    ensures SealedAscending(SenderRun(key, src, inputs).out, key, StreamToReceiver, at)
    ensures SenderRun(key, src, inputs).phase.WantAck? ==> SenderRun(key, src, inputs).out == [ManifestFrame(key, src)]
    decreases |inputs|
  {
    hide MakeNonce, PayloadFrames;
    if inputs == [] {
      at := [0];
    } else {
      var last := |inputs| - 1;
      at := SenderSeals(key, src, inputs[..last]);
      var t := SenderRun(key, src, inputs[..last]);
      var plain := Open(key, StreamToSender, 0, "", inputs[last]);
      if t.phase.WantAck? && plain.Some? && plain.value.AckMsg? && plain.value.accepted && StreamManifest(src).kind != Text {
        at := SenderPayloadSeals(key, src, plain.value);
      }
    }
  }

  ghost predicate Replies(key: Key, t: ReceiverTrace) {
    && |t.out| <= 2
    && (|t.out| > 0 ==> SealedAt(t.out[0], key, StreamToSender, 0))
    && (|t.out| > 1 ==> SealedAt(t.out[1], key, StreamToSender, 1))
    && (t.phase.WantManifest? ==> t.out == [])
    && (t.phase.WantChunk? || t.phase.WantCommit? ==> |t.out| == 1)
  }

  lemma StepReplies(key: Key, accept: Manifest -> bool, t: ReceiverTrace, f: Frame)
    requires Staging(t) && Replies(key, t)
    ensures Replies(key, ReceiverStep(key, accept, t, f))
  {
    hide MakeNonce, TotalChunks, ResumeAck, OpenOrCreate, WriteChunk, Finalize, NextMissing, CheckWrite;
  }

  /** Whatever the receiver is fed, it seals at most twice, at indices 0 and 1. */
  lemma {:induction false} ReceiverSeals(key: Key, accept: Manifest -> bool, d: Disk, inputs: seq<Frame>)
    ensures Replies(key, ReceiverRun(key, accept, d, inputs))
    decreases |inputs|
  {
    hide ReceiverStep, MakeNonce;
    if inputs != [] {
      var last := |inputs| - 1;
      ReceiverSeals(key, accept, d, inputs[..last]);
      StepReplies(key, accept, ReceiverRun(key, accept, d, inputs[..last]), inputs[last]);
    }
  }

  /** One attempt at a transfer: its key, and what each side was fed. */
  datatype Attempt = Attempt(key: Key, src: Source, accept: Manifest -> bool, disk: Disk,
                             toSender: seq<Frame>, toReceiver: seq<Frame>)

  /** Every seal of one attempt, both directions. */
  function Seals(x: Attempt): seq<Frame>
    requires Sized(x.src)
  {
    SenderRun(x.key, x.src, x.toSender).out + ReceiverRun(x.key, x.accept, x.disk, x.toReceiver).out
  }

  ghost predicate NonceFresh(f: Frame, g: Frame) {
    f.Sealed? && g.Sealed? && (f.key != g.key || f.nonce != g.nonce)
  }

  ghost predicate AllFresh(fs: seq<Frame>) {
    forall j, k :: 0 <= j < k < |fs| ==> NonceFresh(fs[j], fs[k])
  }

  lemma SealedAtFresh(f: Frame, d: Domain, i: u64, g: Frame, e: Domain, j: u64, key: Key)
    requires SealedAt(f, key, d, i) && SealedAt(g, key, e, j) && (d != e || i != j)
    ensures NonceFresh(f, g)
  {
    NonceInjective(d, i, e, j);
  }

  lemma OneAttemptFresh(x: Attempt)
    requires Sized(x.src)
    ensures AllFresh(Seals(x))
    ensures forall k :: 0 <= k < |Seals(x)| ==> Seals(x)[k].Sealed? && Seals(x)[k].key == x.key
  {
    hide MakeNonce, SenderRun, ReceiverRun;
    var s, r := SenderRun(x.key, x.src, x.toSender).out, ReceiverRun(x.key, x.accept, x.disk, x.toReceiver).out;
    var at := SenderSeals(x.key, x.src, x.toSender);
    ReceiverSeals(x.key, x.accept, x.disk, x.toReceiver);
    var bt: seq<u64> := [0, 1];
    forall j, k | 0 <= j < k < |s + r|
      ensures NonceFresh((s + r)[j], (s + r)[k])
    {
      if k < |s| {
        SealedAtFresh(s[j], StreamToReceiver, at[j], s[k], StreamToReceiver, at[k], x.key);
      } else if j < |s| {
        SealedAtFresh(s[j], StreamToReceiver, at[j], r[k - |s|], StreamToSender, bt[k - |s|], x.key);
      } else {
        SealedAtFresh(r[j - |s|], StreamToSender, bt[j - |s|], r[k - |s|], StreamToSender, bt[k - |s|], x.key);
      }
    }
  }

  function AllSeals(xs: seq<Attempt>): seq<Frame>
    requires forall k :: 0 <= k < |xs| ==> Sized(xs[k].src)
  {
    if xs == [] then [] else Seals(xs[0]) + AllSeals(xs[1..])
  }

  /** Nonce uniqueness over whole runs: when every session has its own key, no key and nonce are
      ever used for two seals, in either direction, resumed or not, whatever was received. */
  lemma {:induction false} NoncesNeverRepeat(xs: seq<Attempt>)
    requires forall k :: 0 <= k < |xs| ==> Sized(xs[k].src)
    requires forall j, k :: 0 <= j < k < |xs| ==> xs[j].key != xs[k].key
    ensures AllFresh(AllSeals(xs))
    ensures forall k :: 0 <= k < |AllSeals(xs)| ==>
              AllSeals(xs)[k].Sealed? && exists j :: 0 <= j < |xs| && AllSeals(xs)[k].key == xs[j].key
    decreases |xs|
  {
    hide Seals;
    if xs != [] {
      var head, tail := Seals(xs[0]), AllSeals(xs[1..]);
      OneAttemptFresh(xs[0]);
      NoncesNeverRepeat(xs[1..]);
      forall k | 0 <= k < |tail|
        ensures tail[k].Sealed? && tail[k].key != xs[0].key
        ensures exists j :: 0 <= j < |xs| && tail[k].key == xs[j].key
      {
        var j :| 0 <= j < |xs[1..]| && tail[k].key == xs[1..][j].key;
        assert xs[1..][j] == xs[j + 1];
      }
      forall j, k | 0 <= j < k < |head + tail|
        ensures NonceFresh((head + tail)[j], (head + tail)[k])
      {
        if j < |head| <= k {
          assert tail[k - |head|].key != xs[0].key;
        }
      }
    }
  }
}
