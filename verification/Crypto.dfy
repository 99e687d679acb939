/** Keys, nonces and the symbolic contract of the AEAD (src/crypto.rs, src/pake.rs): a ciphertext
    remembers the key, the nonce bytes, the associated data and the plaintext it was made from. */
module Crypto {
  import opened Bytes

  datatype Role = Receiver | Sender

  function Other(r: Role): Role {
    match r
    case Receiver => Sender
    case Sender => Receiver
  }

  /** What SPAKE2 yields: a key bound to the password, the context and both messages. */
  datatype SessionKey = SessionKey(password: bytes, context: string, messages: multiset<bytes>)

  /** AEAD keys are derived with distinct contexts, so they never coincide across uses. */
  datatype Key = StreamKey(session: SessionKey) | DataKey(secret: bytes)

  datatype Domain = ForManifest | ForData | ForCommit | StreamToReceiver | StreamToSender

  function DomainByte(d: Domain): byte {
    match d
    case ForManifest => 1
    case ForData => 2
    case ForCommit => 3
    case StreamToReceiver => 4
    case StreamToSender => 5
  }

  /** 24 bytes: the domain, zeros, and the index little-endian in the last eight. */
  function MakeNonce(domain: Domain, index: u64): (n: bytes)
    ensures |n| == 24
  {
    [DomainByte(domain)] + seq(15, _ => 0) + ToLE(index, 8)
  }

  method FillNonce(domain: Domain, index: u64) returns (n: array<byte>)
    ensures fresh(n) && n[..] == MakeNonce(domain, index)
  {
    n := new byte[24](_ => 0);
    n[0] := DomainByte(domain);
    var le := ToLE(index, 8);
    for k := 0 to 8
      invariant n[0] == DomainByte(domain)
      invariant forall j :: 1 <= j < 16 ==> n[j] == 0
      invariant forall j :: 0 <= j < k ==> n[16 + j] == le[j]
    {
      n[16 + k] := le[k];
    }
    assert forall j :: 16 <= j < 24 ==> n[j] == le[j - 16];
  }

  lemma Pow256Eight()
    ensures Pow256(8) == TWO_POW_64
  {
    assert Pow256(4) == 256 * Pow256(3) && Pow256(3) == 256 * Pow256(2);
    assert Pow256(2) == 256 * Pow256(1) && Pow256(1) == 256 * Pow256(0);
    assert Pow256(8) == 256 * Pow256(7) && Pow256(7) == 256 * Pow256(6);
    assert Pow256(6) == 256 * Pow256(5) && Pow256(5) == 256 * Pow256(4);
  }

  /** Byte by byte: the domain, fifteen zeros, the index with its least significant byte first. */
  lemma NonceLayout(d: Domain, i: u64)
    ensures var n := MakeNonce(d, i);
            && |n| == 24
            && n[0] == (match d case ForManifest => 1 case ForData => 2 case ForCommit => 3
                                case StreamToReceiver => 4 case StreamToSender => 5)
            && (forall k :: 1 <= k < 16 ==> n[k] == 0)
            && (forall k :: 0 <= k < 8 ==> n[16 + k] == ShiftedByte(i, k))
  {
    forall k: nat | 0 <= k < 8
      ensures MakeNonce(d, i)[16 + k] == ShiftedByte(i, k)
    {
      ToLEBytes(i, 8, k);
    }
  }

  /** A nonce determines its domain and its index. */
  lemma NonceInjective(d: Domain, i: u64, d': Domain, i': u64)
    ensures MakeNonce(d, i) == MakeNonce(d', i') <==> d == d' && i == i'
  {
    var n, n' := MakeNonce(d, i), MakeNonce(d', i');
    assert n[0] == DomainByte(d) && n'[0] == DomainByte(d');
    assert n[16..] == ToLE(i, 8) && n'[16..] == ToLE(i', 8);
    Pow256Eight();
    LittleEndianRoundTrip(i, 8);
    LittleEndianRoundTrip(i', 8);
  }

  datatype Cipher<P> = Sealed(key: Key, nonce: bytes, aad: string, plain: P) | Forged(raw: bytes)

  function Seal<P>(key: Key, domain: Domain, index: u64, aad: string, plain: P): Cipher<P> {
    Sealed(key, MakeNonce(domain, index), aad, plain)
  }

  function Open<P>(key: Key, domain: Domain, index: u64, aad: string, c: Cipher<P>): Option<P> {
    match c
    case Sealed(k, n, a, plain) =>
      if k == key && n == MakeNonce(domain, index) && a == aad then Some(plain) else None
    case Forged(_) => None
  }

  /** A sealed frame opens under exactly the key, domain, index and associated data it was
      sealed with, and yields exactly its plaintext. */
  lemma OpenExact<P>(key: Key, d: Domain, i: u64, aad: string, key': Key, d': Domain, i': u64, aad': string, plain: P)
    ensures Open(key', d', i', aad', Seal(key, d, i, aad, plain))
         == if key' == key && d' == d && i' == i && aad' == aad then Some(plain) else None
  {
    NonceInjective(d, i, d', i');
  }

  /** What opens to a plaintext is its seal, and nothing else does. */
  lemma OpensExactly<P>(key: Key, d: Domain, i: u64, aad: string, c: Cipher<P>, plain: P)
    ensures Open(key, d, i, aad, c) == Some(plain) <==> c == Seal(key, d, i, aad, plain)
  {
    hide MakeNonce;
  }
}
