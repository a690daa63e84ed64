/**
 The machine-level vocabulary shared by every module: bytes, fixed-width unsigned
 integers, byte strings and the big-endian codec.

 Bit operations of the program are written as arithmetic on non-negative integers:
 `v >> k` is `v / 2^k`, `v & (2^k - 1)` is `v % 2^k`, and `hi | lo` for disjoint bit
 ranges is a sum.
 */
module Machine {
  type byte = x: int | 0 <= x < 256
  type u16 = x: int | 0 <= x < 0x1_0000
  type u32 = x: int | 0 <= x < 0x1_0000_0000
  type u64 = x: int | 0 <= x < 0x1_0000_0000_0000_0000

  const U64_MAX: u64 := 0xFFFF_FFFF_FFFF_FFFF

  type Bytes = seq<byte>

  /** A host identity: exactly 16 bytes, compared as an unsigned byte string. */
  type HostId = b: Bytes | |b| == 16 witness seq(16, _ => 0)

  datatype Option<+T> = None | Some(value: T)

  // ---- Big-endian fixed-width integers ----

  function Pow256(k: nat): (r: nat)
    ensures r > 0
  {
    if k == 0 then 1 else 256 * Pow256(k - 1)
  }

  lemma Pow256Values()
    ensures Pow256(0) == 1 && Pow256(1) == 256 && Pow256(2) == 0x1_0000
    ensures Pow256(4) == 0x1_0000_0000
    ensures Pow256(8) == 0x1_0000_0000_0000_0000
  {
    assert Pow256(3) == 256 * Pow256(2) && Pow256(2) == 256 * Pow256(1);
    assert Pow256(5) == 256 * Pow256(4) && Pow256(6) == 256 * Pow256(5);
    assert Pow256(7) == 256 * Pow256(6);
  }

  /** `v` as `k` bytes, most significant first. */
  function BigEndian(v: nat, k: nat): (b: Bytes)
    ensures |b| == k
  {
    if k == 0 then [] else BigEndian(v / 256, k - 1) + [v % 256]
  }

  function FromBigEndian(b: Bytes): nat {
    if b == [] then 0 else 256 * FromBigEndian(b[..|b| - 1]) + b[|b| - 1]
  }

  lemma {:induction false} BigEndianRoundTrip(v: nat, k: nat)
    requires v < Pow256(k)
    ensures FromBigEndian(BigEndian(v, k)) == v
  {
    if k > 0 {
      BigEndianRoundTrip(v / 256, k - 1);
      assert BigEndian(v, k)[..k - 1] == BigEndian(v / 256, k - 1);
    }
  }

  lemma {:induction false} FromBigEndianRoundTrip(b: Bytes)
    ensures FromBigEndian(b) < Pow256(|b|)
    ensures BigEndian(FromBigEndian(b), |b|) == b
  {
    if b != [] {
      FromBigEndianRoundTrip(b[..|b| - 1]);
      assert b == b[..|b| - 1] + [b[|b| - 1]];
    }
  }

  /** One step of the shift-and-or accumulation loop that reads an integer. */
  lemma FromBigEndianStep(b: Bytes, i: nat)
    requires i < |b|
    ensures FromBigEndian(b[..i + 1]) == 256 * FromBigEndian(b[..i]) + b[i]
  {
    assert b[..i + 1][..i] == b[..i];
  }

  /** `v >> 8k`. */
  function ShiftRightBytes(v: nat, k: nat): nat {
    if k == 0 then v else ShiftRightBytes(v / 256, k - 1)
  }

  /** The byte written at position i of a k-byte big-endian integer is `v >> 8(k-1-i) & 0xFF`. */
  lemma {:induction false} BigEndianAt(v: nat, k: nat, i: nat)
    requires i < k
    ensures BigEndian(v, k)[i] == ShiftRightBytes(v, k - 1 - i) % 256
  {
    if i < k - 1 {
      BigEndianAt(v / 256, k - 1, i);
    }
  }

  // ---- Maximum ----

  function MaxInt(a: int, b: int): (r: int)
    ensures r >= a && r >= b && (r == a || r == b)
  {
    if a >= b then a else b
  }
}
