/** Bytes, 32-byte field elements, and the fixed-width integer encodings the
    storage and wire formats are made of. */
module Bytes {

  type byte = x: int | 0 <= x < 256
  type Bytes = seq<byte>

  const FELT_BYTES: nat := 32

  /** `F = [u8; 32]`. */
  type Felt = s: Bytes | |s| == FELT_BYTES witness seq(FELT_BYTES, _ => 0)

  const ZERO: Felt := Zeros(FELT_BYTES)

  const U64_LIMIT: nat := 0x1_0000_0000_0000_0000
  const U32_LIMIT: nat := 0x1_0000_0000
  const I32_MAX: int := 0x7fff_ffff
  const I32_MIN: int := -0x8000_0000

  type u64 = x: int | 0 <= x < U64_LIMIT
  type u32 = x: int | 0 <= x < U32_LIMIT
  type i32 = x: int | I32_MIN <= x <= I32_MAX

  function Pow256(width: nat): (r: nat)
    ensures r > 0
  {
    if width == 0 then 1 else 256 * Pow256(width - 1)
  }

  /** `n.to_le_bytes()` for a `width`-byte integer. */
  function LeBytes(n: nat, width: nat): (bs: Bytes)
    ensures |bs| == width
  {
    if width == 0 then [] else [n % 256] + LeBytes(n / 256, width - 1)
  }

  /** `from_le_bytes`. */
  function FromLe(bs: Bytes): nat
  {
    if bs == [] then 0 else bs[0] + 256 * FromLe(bs[1..])
  }

  /** `n.to_be_bytes()` for a `width`-byte integer. */
  function BeBytes(n: nat, width: nat): (bs: Bytes)
    ensures |bs| == width
  {
    if width == 0 then [] else BeBytes(n / 256, width - 1) + [n % 256]
  }

  /** `from_be_bytes`. */
  function FromBe(bs: Bytes): nat
  {
    if bs == [] then 0 else FromBe(bs[..|bs| - 1]) * 256 + bs[|bs| - 1]
  }

  lemma {:induction false} LeRoundTrip(n: nat, width: nat)
    requires n < Pow256(width)
    ensures FromLe(LeBytes(n, width)) == n
  {
    if width == 0 {
    } else {
      LeRoundTrip(n / 256, width - 1);
      assert LeBytes(n, width)[1..] == LeBytes(n / 256, width - 1);
    }
  }

  lemma {:induction false} LeCanonical(bs: Bytes)
    ensures FromLe(bs) < Pow256(|bs|)
    ensures LeBytes(FromLe(bs), |bs|) == bs
  {
    if bs == [] {
    } else {
      LeCanonical(bs[1..]);
      assert bs == [bs[0]] + bs[1..];
    }
  }

  lemma {:induction false} BeRoundTrip(n: nat, width: nat)
    requires n < Pow256(width)
    ensures FromBe(BeBytes(n, width)) == n
  {
    if width == 0 {
    } else {
      BeRoundTrip(n / 256, width - 1);
      var bs := BeBytes(n, width);
      assert bs[..|bs| - 1] == BeBytes(n / 256, width - 1);
    }
  }

  lemma {:induction false} BeCanonical(bs: Bytes)
    ensures FromBe(bs) < Pow256(|bs|)
    ensures BeBytes(FromBe(bs), |bs|) == bs
  {
    if bs == [] {
    } else {
      BeCanonical(bs[..|bs| - 1]);
      assert bs == bs[..|bs| - 1] + [bs[|bs| - 1]];
    }
  }

  lemma Pow256Values()
    ensures Pow256(2) == 0x1_0000
    ensures Pow256(4) == U32_LIMIT
    ensures Pow256(8) == U64_LIMIT
  {
    assert Pow256(1) == 256;
    assert Pow256(2) == 0x1_0000;
    assert Pow256(3) == 0x100_0000;
    assert Pow256(4) == 0x1_0000_0000;
    assert Pow256(5) == 0x100_0000_0000;
    assert Pow256(6) == 0x1_0000_0000_0000;
    assert Pow256(7) == 0x100_0000_0000_0000;
  }

  /** The eight little-endian bytes of a `u64`, and back. */
  function U64Le(n: u64): (bs: Bytes)
    ensures |bs| == 8
    ensures FromLe(bs) == n
  {
    Pow256Values();
    LeRoundTrip(n, 8);
    LeBytes(n, 8)
  }

  function U32Le(n: u32): (bs: Bytes)
    ensures |bs| == 4
    ensures FromLe(bs) == n
  {
    Pow256Values();
    LeRoundTrip(n, 4);
    LeBytes(n, 4)
  }

  function U64FromLe(bs: Bytes): (n: u64)
    requires |bs| == 8
    ensures U64Le(n) == bs
  {
    Pow256Values();
    LeCanonical(bs);
    FromLe(bs)
  }

  /** `i32::to_le_bytes`: two's complement. */
  function I32Le(n: i32): (bs: Bytes)
    ensures |bs| == 4
    ensures I32FromLe(bs) == n
  {
    U32Le(if n < 0 then n + U32_LIMIT else n)
  }

  function I32FromLe(bs: Bytes): (n: i32)
    requires |bs| == 4
  {
    Pow256Values();
    LeCanonical(bs);
    var u := FromLe(bs);
    if u > I32_MAX then u - U32_LIMIT else u
  }

  /** All bytes are zero: `iter().all(|b| *b == 0)`. */
  predicate AllZero(bs: Bytes)
  {
    forall i :: 0 <= i < |bs| ==> bs[i] == 0
  }

  function Zeros(n: nat): (bs: Bytes)
    ensures |bs| == n && AllZero(bs)
  {
    seq(n, _ => 0)
  }

  function Min(a: nat, b: nat): nat
  {
    if a < b then a else b
  }
}
