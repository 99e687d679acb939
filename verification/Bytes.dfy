/** Byte strings, little-endian integers and a few facts about sequences that every layer uses. */
module Bytes {

  datatype Option<+T> = None | Some(value: T)

  type byte = b: int | 0 <= b < 256
  type bytes = seq<byte>

  const TWO_POW_32 := 0x1_0000_0000
  const TWO_POW_64 := 0x1_0000_0000_0000_0000

  type u64 = n: nat | n < TWO_POW_64

  /** `n` as `k` little-endian bytes, dropping what does not fit. */
  function ToLE(n: nat, k: nat): (b: bytes)
    ensures |b| == k
  {
    if k == 0 then [] else [n % 256] + ToLE(n / 256, k - 1)
  }

  function FromLE(b: bytes): nat {
    if b == [] then 0 else b[0] + 256 * FromLE(b[1..])
  }

  function Pow256(k: nat): (p: nat)
    ensures p > 0
  {
    if k == 0 then 1 else 256 * Pow256(k - 1)
  }

  /** Least significant byte first. */
  lemma {:induction false} ToLEBytes(n: nat, k: nat, i: nat)
    requires i < k
    ensures ToLE(n, k)[i] == ShiftedByte(n, i)
  {
    if i > 0 {
      ToLEBytes(n / 256, k - 1, i - 1);
    }
  }

  /** Byte `i` of `n`, counting from the least significant. */
  function ShiftedByte(n: nat, i: nat): byte {
    if i == 0 then n % 256 else ShiftedByte(n / 256, i - 1)
  }

  lemma {:induction false} LittleEndianRoundTrip(n: nat, k: nat)
    requires n < Pow256(k)
    ensures FromLE(ToLE(n, k)) == n
  {
    if k > 0 {
      LittleEndianRoundTrip(n / 256, k - 1);
      assert ToLE(n, k)[1..] == ToLE(n / 256, k - 1);
    }
  }

  lemma {:induction false} LittleEndianBack(b: bytes)
    ensures FromLE(b) < Pow256(|b|) && ToLE(FromLE(b), |b|) == b
  {
    if b != [] {
      LittleEndianBack(b[1..]);
      assert b == [b[0]] + b[1..];
      assert FromLE(b) % 256 == b[0] && FromLE(b) / 256 == FromLE(b[1..]);
    }
  }

  function Pow2(k: nat): (p: nat)
    ensures p > 0
  {
    if k == 0 then 1 else 2 * Pow2(k - 1)
  }

  /** Total number of bytes in a list of frames. */
  function SumLen(fs: seq<bytes>): nat {
    if fs == [] then 0 else |fs[0]| + SumLen(fs[1..])
  }

  lemma {:induction false} SumLenConcat(a: seq<bytes>, b: seq<bytes>)
    ensures SumLen(a + b) == SumLen(a) + SumLen(b)
  {
    if a == [] {
      assert a + b == b;
    } else {
      SumLenConcat(a[1..], b);
      assert (a + b)[1..] == a[1..] + b;
    }
  }

  /** Length of the longest frame, 0 when there is none. */
  function MaxLen(fs: seq<bytes>): nat {
    if fs == [] then 0 else Max(|fs[0]|, MaxLen(fs[1..]))
  }

  function Max(a: nat, b: nat): nat {
    if a >= b then a else b
  }

  lemma {:induction false} MaxLenConcat(a: seq<bytes>, b: seq<bytes>)
    ensures MaxLen(a + b) == Max(MaxLen(a), MaxLen(b))
  {
    if a == [] {
      assert a + b == b;
    } else {
      MaxLenConcat(a[1..], b);
      assert (a + b)[1..] == a[1..] + b;
    }
  }
}
