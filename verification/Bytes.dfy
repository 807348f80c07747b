/** Little-endian integers as the restore code writes them with `Write(&x, sizeof(x))`. */
module Bytes {
  type byte = x: int | 0 <= x < 256

  const TWO31 := 0x8000_0000
  const TWO32 := 0x1_0000_0000
  const TWO63 := 0x8000_0000_0000_0000
  const TWO64 := 0x1_0000_0000_0000_0000

  const INT32_SIZE: nat := 4
  const INT64_SIZE: nat := 8

  predicate IsInt64(v: int) {
    -TWO63 <= v < TWO63
  }

  function Pow256(n: nat): (r: nat)
    ensures r > 0
  {
    if n == 0 then 1 else 256 * Pow256(n - 1)
  }

  /** The `n` low bytes of `v`, least significant first. */
  function ToLittleEndian(v: nat, n: nat): (b: seq<byte>)
    ensures |b| == n
    decreases n, v
  {
    if n == 0 then [] else [v % 256] + ToLittleEndian(v / 256, n - 1)
  }

  function FromLittleEndian(b: seq<byte>): (v: nat)
    ensures v < Pow256(|b|)
  {
    if b == [] then 0 else b[0] + 256 * FromLittleEndian(b[1..])
  }

  lemma {:induction false} LittleEndianRoundTrip(v: nat, n: nat)
    requires v < Pow256(n)
    ensures FromLittleEndian(ToLittleEndian(v, n)) == v
  {
    if n > 0 {
      LittleEndianRoundTrip(v / 256, n - 1);
      assert ToLittleEndian(v, n)[1..] == ToLittleEndian(v / 256, n - 1);
    }
  }

  lemma PowerBounds()
    ensures Pow256(4) == TWO32 && Pow256(8) == TWO64
  {
    assert Pow256(2) == 0x1_0000;
    assert Pow256(4) == 0x1_0000 * 0x1_0000;
    assert Pow256(6) == 0x1_0000 * Pow256(4);
    assert Pow256(8) == 0x1_0000 * Pow256(6);
  }

  /** A signed 64-bit integer in two's complement. */
  function EncodeInt64(v: int): (b: seq<byte>)
    requires IsInt64(v)
    ensures |b| == 8
  {
    ToLittleEndian(if v < 0 then v + TWO64 else v, INT64_SIZE)
  }

  function DecodeInt64(b: seq<byte>): int
    requires |b| == 8
  {
    var u := FromLittleEndian(b);
    if u >= TWO63 then u - TWO64 else u
  }

  /** A signed 32-bit integer in two's complement. */
  function EncodeInt32(v: int): (b: seq<byte>)
    requires -TWO31 <= v < TWO31
    ensures |b| == 4
  {
    ToLittleEndian(if v < 0 then v + TWO32 else v, INT32_SIZE)
  }

  function DecodeInt32(b: seq<byte>): int
    requires |b| == 4
  {
    var u := FromLittleEndian(b);
    if u >= TWO31 then u - TWO32 else u
  }

  lemma {:induction false} LittleEndianByte(v: nat, n: nat, k: nat)
    requires k < n
    ensures ToLittleEndian(v, n)[k] == v / Pow256(k) % 256
  {
    if k > 0 {
      LittleEndianByte(v / 256, n - 1, k - 1);
      assert ToLittleEndian(v, n)[k] == ToLittleEndian(v / 256, n - 1)[k - 1];
      DivideTwice(v, Pow256(k - 1));
    }
  }

  lemma DivideTwice(v: nat, d: nat)
    requires d > 0
    ensures v / 256 / d == v / (256 * d)
  {
    var q := v / 256 / d;
    var r := v / 256 - q * d;
    assert 0 <= r < d;
    var s := v - v / 256 * 256;
    assert v == (q * d + r) * 256 + s;
    assert v == q * (256 * d) + (r * 256 + s) by {
      assert (q * d + r) * 256 == q * (256 * d) + r * 256;
    }
    assert 0 <= r * 256 + s < 256 * d;
    QuotientIs(v, 256 * d, q, r * 256 + s);
  }

  lemma QuotientIs(v: nat, d: nat, q: nat, r: nat)
    requires d > 0 && r < d && v == q * d + r
    ensures v / d == q
  {
    MultipleIsLess(v / d, q, d);
    MultipleIsLess(q, v / d, d);
  }

  lemma {:induction false} MultipleIsLess(a: nat, b: nat, d: nat)
    ensures a < b ==> a * d + d <= b * d
    decreases b
  {
    if a < b {
      assert b * d == (b - 1) * d + d;
      MultipleIsLess(a, b - 1, d);
    }
  }

  /** The eight bytes of a number that is not negative, least significant first. */
  lemma Int64Text(v: nat)
    requires v < TWO63
    ensures EncodeInt64(v) ==
            [v % 256, v / 0x100 % 256, v / 0x1_0000 % 256, v / 0x100_0000 % 256, v / 0x1_0000_0000 % 256,
             v / 0x100_0000_0000 % 256, v / 0x1_0000_0000_0000 % 256, v / 0x100_0000_0000_0000 % 256]
  {
    PowersOf256();
    forall k | 0 <= k < 8 ensures EncodeInt64(v)[k] == v / Pow256(k) % 256 { LittleEndianByte(v, 8, k); }
  }

  lemma Int32Text(v: nat)
    requires v < TWO31
    ensures EncodeInt32(v) == [v % 256, v / 0x100 % 256, v / 0x1_0000 % 256, v / 0x100_0000 % 256]
  {
    PowersOf256();
    forall k | 0 <= k < 4 ensures EncodeInt32(v)[k] == v / Pow256(k) % 256 { LittleEndianByte(v, 4, k); }
  }

  lemma PowersOf256()
    ensures Pow256(0) == 1 && Pow256(1) == 0x100 && Pow256(2) == 0x1_0000 && Pow256(3) == 0x100_0000 && Pow256(4) == 0x1_0000_0000
    ensures Pow256(5) == 0x100_0000_0000 && Pow256(6) == 0x1_0000_0000_0000 && Pow256(7) == 0x100_0000_0000_0000
  {
    assert Pow256(1) == 256 * Pow256(0);
    assert Pow256(2) == 256 * Pow256(1);
    assert Pow256(3) == 256 * Pow256(2);
    assert Pow256(4) == 256 * Pow256(3);
    assert Pow256(5) == 256 * Pow256(4);
    assert Pow256(6) == 256 * Pow256(5);
    assert Pow256(7) == 256 * Pow256(6);
  }

  lemma Int64RoundTrip(v: int)
    requires IsInt64(v)
    ensures DecodeInt64(EncodeInt64(v)) == v
  {
    PowerBounds();
    LittleEndianRoundTrip(if v < 0 then v + TWO64 else v, INT64_SIZE);
  }

  lemma Int32RoundTrip(v: int)
    requires -TWO31 <= v < TWO31
    ensures DecodeInt32(EncodeInt32(v)) == v
  {
    PowerBounds();
    LittleEndianRoundTrip(if v < 0 then v + TWO32 else v, INT32_SIZE);
  }
}
