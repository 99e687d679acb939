/** The STUN probe (src/stun.rs): requests, and the walk over a response's attributes that finds
    XOR-MAPPED-ADDRESS (section 15.2 of RFC 5389). */
module Stun {

  import opened Bytes
  import Chunks

  const MAGIC_COOKIE: bytes := [0x21, 0x12, 0xA4, 0x42]
  const HEADER := 20
  const XOR_MAPPED_ADDRESS := 0x0020
  const PORT_MASK := 0x2112

  /** A socket address: four or sixteen octets, most significant first. */
  datatype Address = V4(octets: bytes, port: nat) | V6(octets: bytes, port: nat)

  predicate IsAddress(a: Address) {
    a.port < 0x1_0000 && |a.octets| == if a.V4? then 4 else 16
  }

  // ---------------------------------------------------------------- bits and big-endian numbers

  /** Exclusive or of the low `k` bits. */
  function Xor(a: nat, b: nat, k: nat): (x: nat)
    ensures x < Pow2(k)
  {
    if k == 0 then 0 else 2 * Xor(a / 2, b / 2, k - 1) + (a + b) % 2
  }

  /** Binary digit `j` of `n`. */
  predicate Bit(n: nat, j: nat) {
    if j == 0 then n % 2 == 1 else Bit(n / 2, j - 1)
  }

  /** That is, of the quotient by two to the `j`. */
  lemma {:induction false} BitIsDigit(n: nat, j: nat)
    ensures Bit(n, j) <==> n / Pow2(j) % 2 == 1
  {
    if j > 0 {
      BitIsDigit(n / 2, j - 1);
      HalfThenDivide(n, Pow2(j - 1));
    }
  }

  lemma HalfThenDivide(n: nat, p: nat)
    requires p > 0
    ensures n / (2 * p) == n / 2 / p
  {
    var q, r := n / 2 / p, n / 2 % p;
    assert n / 2 == q * p + r;
    assert n == q * (2 * p) + (2 * r + n % 2);
    Chunks.DivUnique(n, 2 * p, q, 2 * r + n % 2);
  }

  /** `x` is `plain` masked with `mask`: of the low `k` digits exactly those set in the mask differ. */
  predicate Masked(x: nat, plain: nat, mask: nat, k: nat) {
    forall j :: 0 <= j < k ==> (Bit(x, j) <==> Bit(plain, j) != Bit(mask, j))
  }

  /** Exclusive or, digit by digit. */
  lemma {:induction false} XorBit(a: nat, b: nat, k: nat, j: nat)
    requires j < k
    ensures Bit(Xor(a, b, k), j) <==> Bit(a, j) != Bit(b, j)
  {
    var q := Xor(a / 2, b / 2, k - 1);
    LowBit(a, b, q);
    if j > 0 {
      XorBit(a / 2, b / 2, k - 1, j - 1);
    }
  }

  lemma LowBit(a: nat, b: nat, q: nat)
    ensures var x := 2 * q + (a + b) % 2; x / 2 == q && (x % 2 == 1 <==> (a % 2 == 1) != (b % 2 == 1))
  {
    hide Xor;
    assert a % 2 == 0 || a % 2 == 1;
    assert b % 2 == 0 || b % 2 == 1;
    assert (a + b) % 2 == (a % 2 + b % 2) % 2;
  }

  lemma {:induction false} BitsDetermine(a: nat, b: nat, k: nat)
    requires a < Pow2(k) && b < Pow2(k)
    requires forall j :: 0 <= j < k ==> (Bit(a, j) <==> Bit(b, j))
    ensures a == b
  {
    if k > 0 {
      assert Bit(a, 0) <==> Bit(b, 0);
      forall j | 0 <= j < k - 1
        ensures Bit(a / 2, j) <==> Bit(b / 2, j)
      {
        assert Bit(a, j + 1) <==> Bit(b, j + 1);
      }
      BitsDetermine(a / 2, b / 2, k - 1);
    }
  }

  /** Unmasking by `Xor` recovers exactly the number that was masked. */
  lemma UnmaskedExactly(x: nat, plain: nat, mask: nat, k: nat)
    requires x < Pow2(k) && plain < Pow2(k)
    ensures Masked(x, plain, mask, k) <==> plain == Xor(x, mask, k)
  {
    hide Xor, Bit, Pow2;
    forall j | 0 <= j < k
      ensures Bit(Xor(x, mask, k), j) <==> Bit(x, j) != Bit(mask, j)
    {
      XorBit(x, mask, k, j);
    }
    if Masked(x, plain, mask, k) {
      BitsDetermine(plain, Xor(x, mask, k), k);
    }
  }

  lemma PowersOfTwo()
    ensures Pow2(8) == 256 && Pow2(16) == 0x1_0000
  {
    assert Pow2(4) == 16;
    assert Pow2(8) == 256;
    assert Pow2(12) == 4096;
  }

  function XorByte(a: byte, b: byte): byte {
    PowersOfTwo();
    Xor(a, b, 8)
  }

  function XorPort(p: nat): (x: nat)
    ensures x < 0x1_0000
  {
    PowersOfTwo();
    Xor(p, PORT_MASK, 16)
  }

  function XorBytes(a: bytes, key: bytes): (r: bytes)
    requires |a| <= |key|
    ensures |r| == |a|
    ensures forall j :: 0 <= j < |a| ==> r[j] == XorByte(a[j], key[j])
  {
    if a == [] then [] else [XorByte(a[0], key[0])] + XorBytes(a[1..], key[1..])
  }

  predicate MaskedBytes(x: bytes, plain: bytes, mask: bytes) {
    |x| == |plain| <= |mask| && forall j :: 0 <= j < |x| ==> Masked(x[j], plain[j], mask[j], 8)
  }

  lemma UnmaskedBytes(x: bytes, plain: bytes, mask: bytes)
    requires |x| == |plain| <= |mask|
    ensures MaskedBytes(x, plain, mask) <==> plain == XorBytes(x, mask)
  {
    hide Masked, Xor;
    PowersOfTwo();
    forall j | 0 <= j < |x|
      ensures Masked(x[j], plain[j], mask[j], 8) <==> plain[j] == XorByte(x[j], mask[j])
    {
      UnmaskedExactly(x[j], plain[j], mask[j], 8);
    }
  }

  lemma UnmaskedPort(x: nat, port: nat)
    requires x < 0x1_0000 && port < 0x1_0000
    ensures Masked(x, port, PORT_MASK, 16) <==> port == XorPort(x)
  {
    hide Masked, Xor;
    PowersOfTwo();
    UnmaskedExactly(x, port, PORT_MASK, 16);
  }

  function FromBE(hi: byte, lo: byte): nat {
    hi * 256 + lo
  }

  // ---------------------------------------------------------------- messages

  function BindingRequest(txn: bytes): bytes {
    [0x00, 0x01, 0x00, 0x00] + MAGIC_COOKIE + txn
  }

  predicate IsBindingResponse(resp: bytes, txn: bytes) {
    |resp| >= HEADER && resp[4..8] == MAGIC_COOKIE && resp[8..20] == txn
  }

  /** Attributes start at multiples of four. */
  function Padding(len: nat): (n: nat)
    ensures n < 4 && (len + n) % 4 == 0
  {
    (4 - len % 4) % 4
  }

  function KeyFor(a: Address, txn: bytes): bytes {
    if a.V4? then MAGIC_COOKIE else MAGIC_COOKIE + txn
  }

  /** `v` is an address as a server writes it: a reserved octet, the family, the masked port and the
      masked octets, most significant first. */
  predicate Encodes(v: bytes, a: Address, txn: bytes)
    requires |txn| == 12
  {
    && IsAddress(a) && |v| == 4 + |a.octets|
    && v[1] == (if a.V4? then 0x01 else 0x02)
    && Masked(v[2] as nat * 256 + v[3] as nat, a.port, 0x2112, 16)
    && MaskedBytes(v[4..], a.octets, [0x21, 0x12, 0xA4, 0x42] + txn)
  }

  /** The value of an XOR-MAPPED-ADDRESS attribute of declared length `len`; `v` starts there. */
  function DecodeAddress(v: bytes, len: nat, txn: bytes): Option<Address>
    requires 4 <= len <= |v| && |txn| == 12
  {
    var port := XorPort(FromBE(v[2], v[3]));
    if v[1] == 0x01 && len >= 8 then Some(V4(XorBytes(v[4..8], MAGIC_COOKIE), port))
    else if v[1] == 0x02 && len >= 20 then Some(V6(XorBytes(v[4..20], MAGIC_COOKIE + txn), port))
    else None
  }

  /** The walk from an attribute boundary: `s` is what is left of the response. */
  function Walk(s: bytes, txn: bytes): Option<Address>
    requires |txn| == 12
  {
    if |s| < 4 then None
    else
      var kind, len := FromBE(s[0], s[1]), FromBE(s[2], s[3]);
      var next := 4 + len + Padding(len);
      if 4 + len > |s| then None
      else if kind == XOR_MAPPED_ADDRESS && len >= 4 then DecodeAddress(s[4..], len, txn)
      else if next > |s| then None
      else Walk(s[next..], txn)
  }

  function Parse(resp: bytes, txn: bytes): Option<Address>
    requires |txn| == 12
  {
    if !IsBindingResponse(resp, txn) then None else Walk(resp[HEADER..], txn)
  }

  /** `a.iter_mut()`: unmasks sixteen octets in place. */
  method Unmask(a: array<byte>, masked: bytes, key: bytes)
    requires a.Length == |masked| <= |key|
    modifies a
    ensures a[..] == XorBytes(masked, key)
  {
    for j := 0 to a.Length
      invariant forall k :: 0 <= k < j ==> a[k] == XorByte(masked[k], key[k])
    {
      a[j] := XorByte(masked[j], key[j]);
    }
  }

  lemma ShortWalk(s: bytes, txn: bytes)
    requires |txn| == 12
    ensures |s| < 4 ==> Walk(s, txn) == None
  {
  }

  /** `Walk`, read off the whole response. */
  lemma WalkAt(resp: bytes, i: nat, txn: bytes)
    requires |txn| == 12 && i + 4 <= |resp|
    ensures var kind, len := FromBE(resp[i], resp[i + 1]), FromBE(resp[i + 2], resp[i + 3]);
            var next := i + 4 + len + Padding(len);
            Walk(resp[i..], txn)
            == if i + 4 + len > |resp| then None
               else if kind == XOR_MAPPED_ADDRESS && len >= 4 then DecodeAddress(resp[i + 4..], len, txn)
               else if next > |resp| then None else Walk(resp[next..], txn)
  {
    hide DecodeAddress;
    var len := FromBE(resp[i + 2], resp[i + 3]);
    assert resp[i..][4..] == resp[i + 4..];
    if i + 4 + len + Padding(len) <= |resp| {
      assert resp[i..][4 + len + Padding(len)..] == resp[i + 4 + len + Padding(len)..];
    }
  }

  /** The source's loop; every index it reads is in range, whatever the bytes are. */
  method ParseXorMappedAddress(resp: bytes, txn: bytes) returns (r: Option<Address>)
    requires |txn| == 12
    ensures r == Parse(resp, txn)
  {
    hide Walk, XorBytes, XorPort;
    if !IsBindingResponse(resp, txn) {
      return None;
    }
    var i := HEADER;
    while i + 4 <= |resp|
      invariant HEADER <= i
      invariant Parse(resp, txn) == if i <= |resp| then Walk(resp[i..], txn) else None
      decreases |resp| - i
    {
      WalkAt(resp, i, txn);
      var kind, len := FromBE(resp[i], resp[i + 1]), FromBE(resp[i + 2], resp[i + 3]);
      var val := i + 4;
      var end := val + len;
      if end > |resp| {
        break;
      }
      if kind == XOR_MAPPED_ADDRESS && len >= 4 {
        var port := XorPort(FromBE(resp[val + 2], resp[val + 3]));
        if resp[val + 1] == 0x01 && len >= 8 {
          assert resp[val..][4..8] == resp[val + 4..val + 8];
          return Some(V4(XorBytes(resp[val + 4..val + 8], MAGIC_COOKIE), port));
        } else if resp[val + 1] == 0x02 && len >= 20 {
          assert resp[val..][4..20] == resp[val + 4..val + 20];
          var a := new byte[16];
          Unmask(a, resp[val + 4..val + 20], MAGIC_COOKIE + txn);
          return Some(V6(a[..], port));
        } else {
          return None;
        }
      }
      i := end + Padding(len);
    }
    if i <= |resp| {
      ShortWalk(resp[i..], txn);
    }
    return None;
  }

  // ---------------------------------------------------------------- what the walk finds

  datatype Attribute = Attribute(kind: nat, value: bytes, padding: bytes)

  predicate IsAttribute(a: Attribute) {
    a.kind < 0x1_0000 && |a.value| < 0x1_0000 && |a.padding| == Padding(|a.value|)
  }

  /** Not taken for a mapped address: another type, or too short to hold a port. */
  predicate Skipped(a: Attribute) {
    a.kind != XOR_MAPPED_ADDRESS || |a.value| < 4
  }

  function Wire(a: Attribute): bytes
    requires IsAttribute(a)
  {
    [a.kind / 256, a.kind % 256, |a.value| / 256, |a.value| % 256] + a.value + a.padding
  }

  function WireAll(attrs: seq<Attribute>): bytes
    requires forall a :: a in attrs ==> IsAttribute(a)
  {
    if attrs == [] then [] else Wire(attrs[0]) + WireAll(attrs[1..])
  }

  /** An XOR-MAPPED-ADDRESS attribute of declared length `len`, and whatever follows it. */
  function Mapped(len: nat, v: bytes): bytes
    requires len < 0x1_0000
  {
    [0x00, 0x20, len / 256, len % 256] + v
  }

  /** From an attribute boundary: skippable attributes, then one that starts with an encoding of
      `a`, of a declared length that covers the encoding and is all there. */
  ghost predicate Carries(s: bytes, txn: bytes, a: Address, attrs: seq<Attribute>, enc: bytes, len: nat, rest: bytes)
    requires |txn| == 12
  {
    && Encodes(enc, a, txn) && len < 0x1_0000
    && (forall x :: x in attrs ==> IsAttribute(x) && Skipped(x))
    && |enc| <= len <= |enc| + |rest|
    && s == WireAll(attrs) + Mapped(len, enc + rest)
  }

  /** Decoding finds an address exactly when the value begins with an encoding of it. */
  lemma DecodesExactly(v: bytes, len: nat, txn: bytes, a: Address)
    requires 4 <= len <= |v| && |txn| == 12
    ensures DecodeAddress(v, len, txn) == Some(a)
       <==> |a.octets| == (if a.V4? then 4 else 16) && 4 + |a.octets| <= len && Encodes(v[..4 + |a.octets|], a, txn)
  {
    hide XorBytes, XorPort, Xor, Masked, MaskedBytes;
    var key := MAGIC_COOKIE + txn;
    var n := if a.V4? then 4 else 16;
    if 4 + n <= len && IsAddress(a) {
      var e := v[..4 + n];
      assert e[4..] == v[4..4 + n];
      UnmaskedPort(FromBE(v[2], v[3]), a.port);
      UnmaskedBytes(v[4..4 + n], a.octets, key);
      ShortKey(v[4..4 + n], MAGIC_COOKIE, txn);
    }
  }

  /** A longer key changes nothing. */
  lemma ShortKey(x: bytes, key: bytes, more: bytes)
    ensures |x| <= |key| ==> XorBytes(x, key) == XorBytes(x, key + more)
  {
    hide XorByte;
  }

  lemma WalkStep(x: Attribute, s: bytes, txn: bytes)
    requires IsAttribute(x) && Skipped(x) && |txn| == 12
    ensures Walk(Wire(x) + s, txn) == Walk(s, txn)
  {
    var w := Wire(x) + s;
    assert FromBE(w[0], w[1]) == x.kind && FromBE(w[2], w[3]) == |x.value|;
    assert w[|Wire(x)|..] == s;
  }

  lemma WalkMapped(len: nat, v: bytes, txn: bytes)
    requires 4 <= len <= |v| && len < 0x1_0000 && |txn| == 12
    ensures Walk(Mapped(len, v), txn) == DecodeAddress(v, len, txn)
  {
    hide DecodeAddress;
    var s := Mapped(len, v);
    assert FromBE(s[0], s[1]) == XOR_MAPPED_ADDRESS && FromBE(s[2], s[3]) == len;
    assert s[4..] == v;
  }

  lemma {:induction false} WalkFinds(s: bytes, txn: bytes, a: Address, attrs: seq<Attribute>, enc: bytes, len: nat, rest: bytes)
    requires |txn| == 12 && Carries(s, txn, a, attrs, enc, len, rest)
    ensures Walk(s, txn) == Some(a)
    decreases |attrs|
  {
    hide MaskedBytes, Masked, DecodeAddress, Walk, Wire, Mapped;
    var v := enc + rest;
    var found := Mapped(len, v);
    if attrs == [] {
      assert s == found;
      assert v[..|enc|] == enc;
      DecodesExactly(v, len, txn, a);
      WalkMapped(len, v, txn);
    } else {
      var s' := WireAll(attrs[1..]) + found;
      assert s == Wire(attrs[0]) + s';
      WalkFinds(s', txn, a, attrs[1..], enc, len, rest);
      WalkStep(attrs[0], s', txn);
    }
  }

  lemma BigEndianBack(hi: byte, lo: byte)
    ensures FromBE(hi, lo) < 0x1_0000 && FromBE(hi, lo) / 256 == hi && FromBE(hi, lo) % 256 == lo
  {
  }

  /** The attribute at the head of `s`, when the walk skips it. */
  lemma SkippedHead(s: bytes) returns (x: Attribute)
    requires |s| >= 4
    requires 4 + FromBE(s[2], s[3]) + Padding(FromBE(s[2], s[3])) <= |s|
    ensures IsAttribute(x) && x.kind == FromBE(s[0], s[1]) && |x.value| == FromBE(s[2], s[3])
    ensures s == Wire(x) + s[4 + |x.value| + Padding(|x.value|)..]
  {
    BigEndianBack(s[0], s[1]);
    BigEndianBack(s[2], s[3]);
    hide FromBE;
    var len := FromBE(s[2], s[3]);
    var next := 4 + len + Padding(len);
    x := Attribute(FromBE(s[0], s[1]), s[4..4 + len], s[4 + len..next]);
    assert s[..next] == [s[0], s[1], s[2], s[3]] + s[4..4 + len] + s[4 + len..next];
    assert s == s[..next] + s[next..];
  }

  /** The attribute at the head of `s`, when the walk takes it. */
  lemma TakenHead(s: bytes)
    requires |s| >= 4 && FromBE(s[0], s[1]) == XOR_MAPPED_ADDRESS
    ensures FromBE(s[2], s[3]) < 0x1_0000 && s == Mapped(FromBE(s[2], s[3]), s[4..])
  {
    BigEndianBack(s[0], s[1]);
    BigEndianBack(s[2], s[3]);
    assert s == [s[0], s[1], s[2], s[3]] + s[4..];
  }

  lemma CarriedHere(s: bytes, txn: bytes, len: nat, v: bytes, a: Address)
    requires |txn| == 12 && 4 <= len <= |v| && len < 0x1_0000
    requires s == Mapped(len, v) && DecodeAddress(v, len, txn) == Some(a)
    ensures 4 + |a.octets| <= |v| && Carries(s, txn, a, [], v[..4 + |a.octets|], len, v[4 + |a.octets|..])
  {
    hide Encodes, DecodeAddress, Mapped;
    DecodesExactly(v, len, txn, a);
    assert v == v[..4 + |a.octets|] + v[4 + |a.octets|..];
    assert WireAll([]) + Mapped(len, v) == s;
  }

  lemma CarriedPast(x: Attribute, s: bytes, txn: bytes, a: Address, attrs: seq<Attribute>, enc: bytes, len: nat, rest: bytes)
    requires |txn| == 12 && IsAttribute(x) && Skipped(x)
    requires Carries(s, txn, a, attrs, enc, len, rest)
    ensures Carries(Wire(x) + s, txn, a, [x] + attrs, enc, len, rest)
  {
    hide Encodes, Wire, Mapped, IsAttribute, Skipped;
    assert ([x] + attrs)[1..] == attrs;
    var found := Mapped(len, enc + rest);
    assert Wire(x) + (WireAll(attrs) + found) == (Wire(x) + WireAll(attrs)) + found;
  }

  lemma {:induction false} FoundIsCarried(s: bytes, txn: bytes, a: Address)
    returns (attrs: seq<Attribute>, enc: bytes, len: nat, rest: bytes)
    requires |txn| == 12 && Walk(s, txn) == Some(a)
    ensures Carries(s, txn, a, attrs, enc, len, rest)
    decreases |s|
  {
    hide Encodes, DecodeAddress, Wire, Mapped, Carries;
    var n := FromBE(s[2], s[3]);
    if FromBE(s[0], s[1]) == XOR_MAPPED_ADDRESS && n >= 4 {
      TakenHead(s);
      CarriedHere(s, txn, n, s[4..], a);
      attrs, enc, len, rest := [], s[4..][..4 + |a.octets|], n, s[4..][4 + |a.octets|..];
    } else {
      var x := SkippedHead(s);
      var s' := s[4 + n + Padding(n)..];
      attrs, enc, len, rest := FoundIsCarried(s', txn, a);
      CarriedPast(x, s', txn, a, attrs, enc, len, rest);
      attrs := [x] + attrs;
    }
  }

  /** Exactly when the walk returns an address: the response has the cookie and echoes the transaction,
      and its first attribute that is not skipped carries that address, whole. Nothing after it matters. */
  lemma FindsExactly(resp: bytes, txn: bytes, a: Address)
    requires |txn| == 12
    ensures Parse(resp, txn) == Some(a) <==>
            && |resp| >= 20 && resp[4..8] == [0x21, 0x12, 0xA4, 0x42] && resp[8..20] == txn
            && exists attrs, enc, len, rest :: Carries(resp[20..], txn, a, attrs, enc, len, rest)
  {
    hide Walk, Carries;
    if IsBindingResponse(resp, txn) {
      if Walk(resp[HEADER..], txn) == Some(a) {
        var attrs, enc, len, rest := FoundIsCarried(resp[HEADER..], txn, a);
      }
      if attrs, enc, len, rest :| Carries(resp[HEADER..], txn, a, attrs, enc, len, rest) {
        WalkFinds(resp[HEADER..], txn, a, attrs, enc, len, rest);
      }
    }
  }

  /** Every address has an encoding, whatever the reserved octet. */
  lemma EncodingExists(a: Address, reserved: byte, txn: bytes) returns (enc: bytes)
    requires IsAddress(a) && |txn| == 12
    ensures Encodes(enc, a, txn) && enc[0] == reserved
  {
    hide XorBytes, XorPort, Xor, Masked, MaskedBytes;
    var key := MAGIC_COOKIE + txn;
    var port, octets := XorPort(a.port), XorBytes(a.octets, key);
    enc := [reserved, if a.V4? then 0x01 else 0x02, port / 256, port % 256] + octets;
    assert enc[4..] == octets;
    MaskingIsMutual(port, a.port);
    MaskingBytesIsMutual(octets, a.octets, key);
    assert enc[2] as nat * 256 + enc[3] as nat == port;
  }

  lemma MaskingIsMutual(x: nat, port: nat)
    requires port < 0x1_0000 && x == XorPort(port)
    ensures Masked(x, port, PORT_MASK, 16)
  {
    hide Xor, Bit;
    UnmaskedPort(port, x);
  }

  lemma MaskingBytesIsMutual(x: bytes, plain: bytes, mask: bytes)
    requires |plain| <= |mask| && x == XorBytes(plain, mask)
    ensures MaskedBytes(x, plain, mask)
  {
    hide Xor, Bit, XorBytes, XorByte;
    UnmaskedBytes(plain, x, mask);
    assert MaskedBytes(plain, x, mask);
  }

  /** A server that answers a request: its transaction, any padded attributes of other types, the
      mapped address written bit by bit as the standard says, any tail. The client reads back exactly
      that address. */
  lemma AnswerIsUnderstood(kind: bytes, txn: bytes, attrs: seq<Attribute>, a: Address, enc: bytes, tail: bytes)
    requires |kind| == 4 && |txn| == 12 && Encodes(enc, a, txn)
    requires forall x :: x in attrs ==> IsAttribute(x) && x.kind != XOR_MAPPED_ADDRESS
    ensures Parse(kind + MAGIC_COOKIE + BindingRequest(txn)[8..] + WireAll(attrs) + [0x00, 0x20, 0x00, |enc|] + enc + tail, txn)
         == Some(a)
  {
    hide Walk, Encodes, Wire;
    assert |enc| == 8 || |enc| == 20 by { EncodedLength(enc, a, txn); }
    var s := WireAll(attrs) + [0x00, 0x20, 0x00, |enc|] + enc + tail;
    var resp := kind + MAGIC_COOKIE + BindingRequest(txn)[8..] + WireAll(attrs) + [0x00, 0x20, 0x00, |enc|] + enc + tail;
    assert BindingRequest(txn)[8..] == txn;
    assert resp == kind + MAGIC_COOKIE + txn + s;
    assert resp[HEADER..] == s;
    assert s == WireAll(attrs) + Mapped(|enc|, enc + tail);
    assert Carries(s, txn, a, attrs, enc, |enc|, tail);
    WalkFinds(s, txn, a, attrs, enc, |enc|, tail);
  }

  lemma EncodedLength(enc: bytes, a: Address, txn: bytes)
    requires |txn| == 12 && Encodes(enc, a, txn)
    ensures |enc| == 8 || |enc| == 20
  {
  }

  /** A request is an answer to itself and to no other transaction. */
  lemma RequestMatchesItself(txn: bytes, other: bytes)
    requires |txn| == 12
    ensures |BindingRequest(txn)| == HEADER
    ensures IsBindingResponse(BindingRequest(txn), other) <==> other == txn
  {
    assert BindingRequest(txn)[8..20] == txn;
    assert BindingRequest(txn)[4..8] == MAGIC_COOKIE;
  }
}
