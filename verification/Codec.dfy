/** The relay wire format (src/transport/relay.rs): logical frames are batched and split
    into capped WebSocket payloads made of `u32 header || bytes` pieces. */
module Codec {
  import opened Bytes

  /** Cap on one WebSocket payload. */
  const MAX_WS_PAYLOAD: nat := 960 * 1024
  /** Header bit: this logical frame continues in a later piece. */
  const CONT: nat := 0x8000_0000
  /** Largest logical frame that is reassembled. */
  const MAX_LOGICAL_FRAME: nat := 64 * 1024 * 1024

  function Header(len: nat, cont: bool): (h: bytes)
    ensures |h| == 4
  {
    ToLE(if cont then len + CONT else len, 4)
  }

  function Piece(body: bytes, cont: bool): (p: bytes)
    ensures |p| == 4 + |body|
  {
    Header(|body|, cont) + body
  }

  lemma HeaderRoundTrip(len: nat, cont: bool)
    requires len < CONT
    ensures FromLE(Header(len, cont)) == if cont then len + CONT else len
    ensures forall k :: 0 <= k < 4 ==> Header(len, cont)[k] == ShiftedByte(if cont then len + 0x8000_0000 else len, k)
  {
    forall k: nat | 0 <= k < 4
      ensures Header(len, cont)[k] == ShiftedByte(if cont then len + CONT else len, k)
    {
      ToLEBytes(if cont then len + CONT else len, 4, k);
    }
    PowersOf256();
    LittleEndianRoundTrip(if cont then len + CONT else len, 4);
  }

  // ---------------------------------------------------------------- reassembly

  datatype DebatchError = TruncatedHeader | TruncatedBody | FrameTooLarge

  /** What one payload does to a reassembly buffer: the frames it completes and the
      bytes left in the buffer, or the error that ends the connection. */
  datatype Debatched =
    | Ok(frames: seq<bytes>, partial: bytes)
    | Bad(error: DebatchError, partial: bytes)

  function Debatch(partial: bytes, p: bytes): (r: Debatched)
    decreases |p|
  {
    if p == [] then Ok([], partial)
    else if |p| < 4 then Bad(TruncatedHeader, partial)
    else
      var hdr := FromLE(p[..4]);
      var len := hdr % CONT;
      if |p| - 4 < len then Bad(TruncatedBody, partial)
      else if |partial| + len > MAX_LOGICAL_FRAME then Bad(FrameTooLarge, partial)
      else
        var grown := partial + p[4..4 + len];
        if hdr / CONT % 2 == 1
        then Debatch(grown, p[4 + len..])
        else After([grown], Debatch([], p[4 + len..]))
  }

  function After(frames: seq<bytes>, r: Debatched): Debatched {
    match r
    case Ok(more, partial) => Ok(frames + more, partial)
    case Bad(_, _) => r
  }

  lemma AfterAfter(a: seq<bytes>, b: seq<bytes>, r: Debatched)
    ensures After(a, After(b, r)) == After(a + b, r)
  {
    if r.Ok? {
      assert a + (b + r.frames) == (a + b) + r.frames;
    }
  }

  /** Whatever bytes arrive, neither the buffer nor any completed frame outgrows the cap. */
  lemma {:induction false} DebatchCapped(partial: bytes, p: bytes)
    requires |partial| <= MAX_LOGICAL_FRAME
    ensures |Debatch(partial, p).partial| <= MAX_LOGICAL_FRAME
    ensures Debatch(partial, p).Ok? ==>
              forall f :: f in Debatch(partial, p).frames ==> |f| <= MAX_LOGICAL_FRAME
    decreases |p|
  {
    if |p| >= 4 {
      var hdr := FromLE(p[..4]);
      var len := hdr % CONT;
      if len <= |p| - 4 && |partial| + len <= MAX_LOGICAL_FRAME {
        DebatchCapped(if hdr / CONT % 2 == 1 then partial + p[4..4 + len] else [], p[4 + len..]);
      }
    }
  }

  /** Payload boundaries do not matter: a payload that ends on a piece boundary, followed
      by another, decodes like the two glued together. */
  lemma {:induction false} DebatchConcat(partial: bytes, p: bytes, q: bytes)
    requires Debatch(partial, p).Ok? || Debatch(partial, p).error == FrameTooLarge
    ensures Debatch(partial, p).Ok? ==>
              Debatch(partial, p + q) == After(Debatch(partial, p).frames, Debatch(Debatch(partial, p).partial, q))
    ensures Debatch(partial, p).Bad? ==> Debatch(partial, p + q) == Debatch(partial, p)
    decreases |p|
  {
    if p == [] {
      assert p + q == q;
    } else {
      hide FromLE;
      var hdr := FromLE(p[..4]);
      var len := hdr % CONT;
      assert (p + q)[..4] == p[..4];
      if |partial| + len <= MAX_LOGICAL_FRAME {
        assert (p + q)[4..4 + len] == p[4..4 + len];
        assert (p + q)[4 + len..] == p[4 + len..] + q;
        var grown := partial + p[4..4 + len];
        var cont := hdr / CONT % 2 == 1;
        var next: bytes := if cont then grown else [];
        DebatchConcat(next, p[4 + len..], q);
        assert Debatch(partial, p) == if cont then Debatch(next, p[4 + len..]) else After([grown], Debatch(next, p[4 + len..]));
        assert Debatch(partial, p + q) == if cont then Debatch(next, p[4 + len..] + q) else After([grown], Debatch(next, p[4 + len..] + q));
        hide Debatch;
        if !cont && Debatch(next, p[4 + len..]).Ok? {
          var rest := Debatch(next, p[4 + len..]);
          AfterAfter([grown], rest.frames, Debatch(rest.partial, q));
        }
      }
    }
  }

  /** One turn of the loop, for a header that announces exactly the rest of the payload. */
  lemma DebatchLastPiece(partial: bytes, p: bytes, len: nat, cont: bool)
    requires |p| == 4 + len
    requires FromLE(p[..4]) == if cont then len + CONT else len
    requires len < CONT
    requires |partial| + len <= MAX_LOGICAL_FRAME
    ensures Debatch(partial, p) == if cont then Ok([], partial + p[4..]) else Ok([partial + p[4..]], [])
  {
    var hdr := FromLE(p[..4]);
    assert hdr % CONT == len && hdr / CONT % 2 == (if cont then 1 else 0);
    assert p[4..4 + len] == p[4..];
    assert p[4 + len..] == [];
  }

  lemma DebatchPiece(partial: bytes, body: bytes, cont: bool)
    requires |body| < CONT
    requires |partial| + |body| <= MAX_LOGICAL_FRAME
    ensures Debatch(partial, Piece(body, cont))
         == if cont then Ok([], partial + body) else Ok([partial + body], [])
  {
    var p := Piece(body, cont);
    assert FromLE(p[..4]) == (if cont then |body| + CONT else |body|) by {
      HeaderRoundTrip(|body|, cont);
      assert p[..4] == Header(|body|, cont);
    }
    assert p[4..] == body;
    DebatchLastPiece(partial, p, |body|, cont);
  }

  /** A piece as it stands in a payload. */
  datatype Part = Part(body: bytes, cont: bool)

  function Glued(parts: seq<Part>): bytes {
    if parts == [] then [] else Piece(parts[0].body, parts[0].cont) + Glued(parts[1..])
  }

  /** What the pieces amount to for a reader that holds `partial`: a piece without the continuation bit
      ends a frame. */
  function Assembled(partial: bytes, parts: seq<Part>): (r: (seq<bytes>, bytes))
    decreases |parts|
  {
    if parts == [] then ([], partial)
    else if parts[0].cont then Assembled(partial + parts[0].body, parts[1..])
    else
      var (frames, rest) := Assembled([], parts[1..]);
      ([partial + parts[0].body] + frames, rest)
  }

  /** No piece makes a frame longer than the limit. */
  predicate Capped(partial: bytes, parts: seq<Part>)
    decreases |parts|
  {
    parts == [] ||
    (|partial| + |parts[0].body| <= MAX_LOGICAL_FRAME
     && Capped(if parts[0].cont then partial + parts[0].body else [], parts[1..]))
  }

  /** Pieces within the limit are taken, and come out as the frames they amount to. */
  lemma {:induction false} PartsAreTaken(partial: bytes, parts: seq<Part>)
    requires Capped(partial, parts)
    ensures Debatch(partial, Glued(parts)) == Ok(Assembled(partial, parts).0, Assembled(partial, parts).1)
    decreases |parts|
  {
    hide Piece, Debatch;
    if parts == [] {
      NothingDebatched(partial);
    } else {
      var x := parts[0];
      var next: bytes := if x.cont then partial + x.body else [];
      PartsAreTaken(next, parts[1..]);
      DebatchPiece(partial, x.body, x.cont);
      DebatchConcat(partial, Piece(x.body, x.cont), Glued(parts[1..]));
      assert [] + Assembled(next, parts[1..]).0 == Assembled(next, parts[1..]).0;
    }
  }

  lemma NothingDebatched(partial: bytes)
    ensures Debatch(partial, []) == Ok([], partial)
  {
  }

  lemma PartsConsed(partial: bytes, x: Part, rest: seq<Part>)
    ensures Glued([x] + rest) == Piece(x.body, x.cont) + Glued(rest)
    ensures Capped(partial, [x] + rest) <==>
              |partial| + |x.body| <= MAX_LOGICAL_FRAME && Capped(if x.cont then partial + x.body else [], rest)
  {
    assert ([x] + rest)[1..] == rest;
  }

  /** A payload that is taken begins with a piece within the limit, and the rest is taken after it. */
  lemma FirstPart(partial: bytes, p: bytes) returns (x: Part, q: bytes)
    requires Debatch(partial, p).Ok? && p != []
    ensures p == Piece(x.body, x.cont) + q && |q| < |p|
    ensures |partial| + |x.body| <= MAX_LOGICAL_FRAME
    ensures Debatch(if x.cont then partial + x.body else [], q).Ok?
  {
    var hdr := FromLE(p[..4]);
    var len := hdr % CONT;
    x, q := Part(p[4..4 + len], hdr / CONT % 2 == 1), p[4 + len..];
    hide Debatch, FromLE, Header;
    HeaderBack(p[..4]);
    assert p == p[..4] + p[4..4 + len] + p[4 + len..];
  }

  /** And only a payload made of such pieces is taken. */
  lemma {:induction false} TakenIsParts(partial: bytes, p: bytes) returns (parts: seq<Part>)
    requires Debatch(partial, p).Ok?
    ensures p == Glued(parts) && Capped(partial, parts)
    decreases |p|
  {
    parts := [];
    if p != [] {
      hide Debatch, Capped, Glued, Piece;
      var x, q := FirstPart(partial, p);
      var rest := TakenIsParts(if x.cont then partial + x.body else [], q);
      parts := [x] + rest;
      PartsConsed(partial, x, rest);
    }
  }

  /** Any four bytes are a header. */
  lemma HeaderBack(h: bytes)
    requires |h| == 4
    ensures Header(FromLE(h) % CONT, FromLE(h) / CONT % 2 == 1) == h
  {
    LittleEndianBack(h);
    PowersOf256();
    hide FromLE, ToLE, Pow256;
    TopBit(FromLE(h));
  }

  lemma PowersOf256()
    ensures Pow256(4) == TWO_POW_32
  {
    assert Pow256(1) == 256 * Pow256(0);
    assert Pow256(2) == 256 * Pow256(1);
    assert Pow256(3) == 256 * Pow256(2);
  }

  lemma TopBit(n: nat)
    requires n < TWO_POW_32
    ensures n % CONT == (if n / CONT % 2 == 1 then n - CONT else n) < CONT
  {
  }

  /** Exactly which payloads are taken, on arbitrary bytes: those that are pieces end to end, none of
      which makes a frame longer than the limit. */
  lemma DebatchExactly(partial: bytes, p: bytes)
    ensures Debatch(partial, p).Ok? <==> exists parts :: p == Glued(parts) && Capped(partial, parts)
    ensures forall parts :: p == Glued(parts) && Capped(partial, parts) ==>
              Debatch(partial, p) == Ok(Assembled(partial, parts).0, Assembled(partial, parts).1)
  {
    hide Debatch, Capped, Assembled, Glued;
    if Debatch(partial, p).Ok? {
      var parts := TakenIsParts(partial, p);
    }
    forall parts | p == Glued(parts) && Capped(partial, parts)
      ensures Debatch(partial, p) == Ok(Assembled(partial, parts).0, Assembled(partial, parts).1)
    {
      PartsAreTaken(partial, parts);
    }
  }

  /** The reassembly buffer of a connection. */
  class Debatcher {
    var partial: bytes

    constructor ()
      ensures partial == []
    {
      partial := [];
    }

    method Push(payload: bytes) returns (r: Debatched)
      modifies this
      ensures r == Debatch(old(partial), payload)
      ensures partial == r.partial
    {
      var p := payload;
      var out: seq<bytes> := [];
      while p != []
        invariant After(out, Debatch(partial, p)) == Debatch(old(partial), payload)
        decreases |p|
      {
        if |p| < 4 {
          return Bad(TruncatedHeader, partial);
        }
        var hdr := FromLE(p[..4]);
        var cont, len := hdr / CONT % 2 == 1, hdr % CONT;
        if |p| - 4 < len {
          return Bad(TruncatedBody, partial);
        }
        if |partial| + len > MAX_LOGICAL_FRAME {
          return Bad(FrameTooLarge, partial);
        }
        partial := partial + p[4..4 + len];
        p := p[4 + len..];
        if !cont {
          AfterAfter(out, [partial], Debatch([], p));
          out := out + [partial];
          partial := [];
        }
      }
      r := Ok(out, partial);
    }
  }

  // ---------------------------------------------------------------- batching

  /** Bytes a piece may still carry once `used` bytes of the payload are taken. */
  function Room(used: nat): nat {
    if used + 4 <= MAX_WS_PAYLOAD then MAX_WS_PAYLOAD - (used + 4) else 0
  }

  datatype Packed = Packed(payload: bytes, queue: seq<bytes>)

  function Pack(buf: bytes, queue: seq<bytes>): Packed
    decreases |queue|
  {
    if queue == [] || Room(|buf|) == 0 then Packed(buf, queue)
    else if |queue[0]| <= Room(|buf|) then Pack(buf + Piece(queue[0], false), queue[1..])
    else Packed(buf + Piece(queue[0][..Room(|buf|)], true), [queue[0][Room(|buf|)..]] + queue[1..])
  }

  /** The logical frames still to come, for a receiver that holds `partial` of the front one. */
  function Join(partial: bytes, queue: seq<bytes>): seq<bytes> {
    if queue == [] then [] else [partial + queue[0]] + queue[1..]
  }

  /** `partial` belongs to the front frame of `queue`, and no frame is over the cap. */
  predicate Continues(partial: bytes, queue: seq<bytes>) {
    && (queue == [] ==> partial == [])
    && (forall f :: f in Join(partial, queue) ==> |f| <= MAX_LOGICAL_FRAME)
  }

  lemma JoinEmpty(queue: seq<bytes>)
    ensures Join([], queue) == queue
  {
    if queue != [] {
      assert [] + queue[0] == queue[0];
    }
  }

  /** A whole front frame goes into the payload. */
  lemma PackWhole(start: bytes, buf: bytes, queue: seq<bytes>)
    requires Debatch(start, buf).Ok? && Continues(Debatch(start, buf).partial, queue)
    requires queue != [] && |queue[0]| <= Room(|buf|)
    ensures var before := Debatch(start, buf);
            var after := Debatch(start, buf + Piece(queue[0], false));
            && after == Ok(before.frames + [before.partial + queue[0]], [])
            && Continues([], queue[1..])
            && after.frames + queue[1..] == before.frames + Join(before.partial, queue)
  {
    hide Debatch, Piece;
    var before := Debatch(start, buf);
    assert before.partial + queue[0] in Join(before.partial, queue);
    DebatchPiece(before.partial, queue[0], false);
    DebatchConcat(start, buf, Piece(queue[0], false));
    JoinEmpty(queue[1..]);
  }

  /** The room left takes the beginning of the front frame. */
  lemma PackSplit(start: bytes, buf: bytes, queue: seq<bytes>)
    requires Debatch(start, buf).Ok? && Continues(Debatch(start, buf).partial, queue)
    requires queue != [] && |queue[0]| > Room(|buf|) > 0
    ensures var before := Debatch(start, buf);
            var cut, rest := queue[0][..Room(|buf|)], queue[0][Room(|buf|)..];
            && Debatch(start, buf + Piece(cut, true)) == Ok(before.frames, before.partial + cut)
            && Join(before.partial + cut, [rest] + queue[1..]) == Join(before.partial, queue)
  {
    hide Debatch, Piece;
    var before := Debatch(start, buf);
    var cut, rest := queue[0][..Room(|buf|)], queue[0][Room(|buf|)..];
    assert before.partial + queue[0] in Join(before.partial, queue);
    CutJoins(before.partial, Room(|buf|), queue);
    hide Join;
    DebatchPiece(before.partial, cut, true);
    DebatchConcat(start, buf, Piece(cut, true));
    assert before.frames + [] == before.frames;
  }

  /** Moving the beginning of the first frame into the partial buffer joins to the same. */
  lemma CutJoins(partial: bytes, at: nat, queue: seq<bytes>)
    requires queue != [] && at <= |queue[0]|
    ensures Join(partial + queue[0][..at], [queue[0][at..]] + queue[1..]) == Join(partial, queue)
  {
    assert (partial + queue[0][..at]) + queue[0][at..] == partial + queue[0] by {
      assert queue[0][..at] + queue[0][at..] == queue[0];
    }
  }

  /** The heart of the round trip: a receiver in step with the queue before a payload is packed
      accepts the payload and is in step with what is left, and no frame is lost, split,
      merged or reordered. `buf` is what the payload already holds. */
  lemma {:induction false} PackDecodes(start: bytes, buf: bytes, queue: seq<bytes>)
    requires Debatch(start, buf).Ok?
    requires Continues(Debatch(start, buf).partial, queue)
    ensures var before := Debatch(start, buf);
            var packed := Pack(buf, queue);
            var after := Debatch(start, packed.payload);
            && after.Ok?
            && Continues(after.partial, packed.queue)
            && after.frames + Join(after.partial, packed.queue) == before.frames + Join(before.partial, queue)
    decreases |queue|
  {
    hide Debatch, Piece, Continues;
    if queue != [] && Room(|buf|) > 0 {
      if |queue[0]| <= Room(|buf|) {
        PackWhole(start, buf, queue);
        JoinEmpty(queue[1..]);
        PackDecodes(start, buf + Piece(queue[0], false), queue[1..]);
      } else {
        PackSplit(start, buf, queue);
        assert Continues(Debatch(start, Pack(buf, queue).payload).partial, Pack(buf, queue).queue) by {
          SameJoinContinues(start, buf, queue);
        }
      }
    }
  }

  lemma SameJoinContinues(start: bytes, buf: bytes, queue: seq<bytes>)
    requires Debatch(start, buf).Ok? && Continues(Debatch(start, buf).partial, queue)
    requires queue != [] && |queue[0]| > Room(|buf|) > 0
    ensures Continues(Debatch(start, Pack(buf, queue).payload).partial, Pack(buf, queue).queue)
  {
    hide Debatch, Piece;
    PackSplit(start, buf, queue);
  }

  /** One packed payload: the receiver that holds `start` of the front frame takes it, and what it
      then has plus what is still queued is what was queued. */
  lemma PackRoundTrip(start: bytes, queue: seq<bytes>)
    requires Continues(start, queue)
    ensures var packed := Pack([], queue);
            var after := Debatch(start, packed.payload);
            && after.Ok?
            && Continues(after.partial, packed.queue)
            && after.frames + Join(after.partial, packed.queue) == Join(start, queue)
  {
    hide Pack, Continues;
    PackDecodes(start, [], queue);
    assert [] + Join(start, queue) == Join(start, queue);
  }

  function QueueMeasure(queue: seq<bytes>): nat {
    SumLen(queue) + |queue|
  }

  /** Payloads stay under the cap, draining always makes progress, and a payload that leaves
      frames behind is full to within a header. */
  lemma {:induction false} PackBounds(buf: bytes, queue: seq<bytes>)
    requires |buf| <= MAX_WS_PAYLOAD
    ensures var packed := Pack(buf, queue);
            && |packed.payload| <= MAX_WS_PAYLOAD
            && (packed.queue != [] ==> |packed.payload| >= MAX_WS_PAYLOAD - 4)
            && QueueMeasure(packed.queue) <= QueueMeasure(queue)
            && (queue != [] && Room(|buf|) > 0 ==> QueueMeasure(packed.queue) < QueueMeasure(queue))
            && |packed.payload| >= |buf|
            && (queue != [] && Room(|buf|) > 0 ==> |packed.payload| > |buf|)
    decreases |queue|
  {
    if queue != [] && Room(|buf|) > 0 {
      if |queue[0]| <= Room(|buf|) {
        PackBounds(buf + Piece(queue[0], false), queue[1..]);
      } else {
        var left := [queue[0][Room(|buf|)..]] + queue[1..];
        assert left[1..] == queue[1..];
      }
    }
  }

  /** The queue of logical frames waiting to be written. */
  class FrameQueue {
    var frames: seq<bytes>

    constructor (pending: seq<bytes>)
      ensures frames == pending
    {
      frames := pending;
    }

    /** Drains queued frames into one payload, splitting the frame that does not fit. */
    method PackFrames() returns (payload: Option<bytes>)
      modifies this
      ensures payload.None? <==> old(frames) == []
      ensures Packed(if payload.Some? then payload.value else [], frames) == Pack([], old(frames))
      ensures payload.Some? ==> 0 < |payload.value| <= MAX_WS_PAYLOAD
      ensures payload.Some? ==> QueueMeasure(frames) < QueueMeasure(old(frames))
      ensures frames != [] ==> payload.Some? && |payload.value| >= MAX_WS_PAYLOAD - 4
    {
      PackBounds([], frames);
      var buf: bytes := [];
      var full := false;
      while frames != [] && !full
        invariant !full ==> Pack(buf, frames) == Pack([], old(frames))
        invariant full ==> Packed(buf, frames) == Pack([], old(frames))
        decreases !full, |frames|
      {
        var room := Room(|buf|);
        var front := frames[0];
        if room == 0 {
          full := true;
        } else if |front| <= room {
          frames := frames[1..];
          buf := buf + Piece(front, false);
        } else {
          frames := [front[room..]] + frames[1..];
          buf := buf + Piece(front[..room], true);
          full := true;
        }
      }
      payload := if buf != [] then Some(buf) else None;
    }
  }
}
