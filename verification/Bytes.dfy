/** Bytes, little-endian integers and byte-range updates shared by the models. */
module Bytes {

  type Byte = b: int | 0 <= b < 256

  const TWO32: nat := 0x1_0000_0000
  const TWO64: nat := 0x1_0000_0000_0000_0000

  function Min(a: int, b: int): int { if a <= b then a else b }

  function Pow256(width: nat): (r: nat)
    ensures r > 0
  {
    if width == 0 then 1 else 256 * Pow256(width - 1)
  }

  /** The `width` low bytes of `x`, least significant first. */
  function LittleEndian(x: nat, width: nat): (r: seq<Byte>)
    ensures |r| == width
  {
    if width == 0 then [] else [x % 256] + LittleEndian(x / 256, width - 1)
  }

  function FromLittleEndian(s: seq<Byte>): (x: nat)
    ensures x < Pow256(|s|)
  {
    if s == [] then 0 else s[0] + 256 * FromLittleEndian(s[1..])
  }

  lemma {:induction false} DecodeEncodeInt(x: nat, width: nat)
    requires x < Pow256(width)
    ensures FromLittleEndian(LittleEndian(x, width)) == x
  {
    if width > 0 {
      DecodeEncodeInt(x / 256, width - 1);
      assert LittleEndian(x, width)[1..] == LittleEndian(x / 256, width - 1);
    }
  }

  lemma LowByte(b: int, high: nat)
    requires 0 <= b < 256
    ensures (b + 256 * high) % 256 == b && (b + 256 * high) / 256 == high
  {
  }

  lemma {:induction false} EncodeDecodeInt(s: seq<Byte>)
    ensures LittleEndian(FromLittleEndian(s), |s|) == s
  {
    if s != [] {
      EncodeDecodeInt(s[1..]);
      LowByte(s[0], FromLittleEndian(s[1..]));
      assert s == [s[0]] + s[1..];
    }
  }

  /** Later bytes weigh more: what follows `a` counts `256` to the power of its length. */
  lemma {:induction false} Positional(a: seq<Byte>, b: seq<Byte>)
    ensures FromLittleEndian(a + b) == FromLittleEndian(a) + Pow256(|a|) * FromLittleEndian(b)
  {
    if a == [] {
      assert a + b == b;
    } else {
      assert (a + b)[1..] == a[1..] + b && (a + b)[0] == a[0];
      assert FromLittleEndian(a + b) == a[0] + 256 * FromLittleEndian(a[1..] + b);
      assert FromLittleEndian(a) == a[0] + 256 * FromLittleEndian(a[1..]) && Pow256(|a|) == 256 * Pow256(|a| - 1);
      hide FromLittleEndian, Pow256;
      Positional(a[1..], b);
      Weigh(FromLittleEndian(a[1..]), Pow256(|a| - 1), FromLittleEndian(b));
    }
  }

  lemma Weigh(x: nat, p: nat, y: nat)
    ensures 256 * (x + p * y) == 256 * x + 256 * p * y
  {
  }

  /** Eight bytes, written out. */
  lemma EightBytes(s: seq<Byte>)
    requires |s| == 8
    ensures FromLittleEndian(s) == (s[0] as int) + 0x100 * (s[1] as int) + 0x1_0000 * (s[2] as int)
      + 0x100_0000 * (s[3] as int) + 0x1_0000_0000 * (s[4] as int) + 0x100_0000_0000 * (s[5] as int)
      + 0x1_0000_0000_0000 * (s[6] as int) + 0x100_0000_0000_0000 * (s[7] as int)
  {
    hide FromLittleEndian, Pow256;
    var a, b := s[..4], s[4..];
    assert s == a + b;
    Positional(a, b);
    WidthLimits();
    FourBytes(a);
    FourBytes(b);
  }

  lemma FourBytes(s: seq<Byte>)
    requires |s| == 4
    ensures FromLittleEndian(s) ==
      (s[0] as int) + 0x100 * (s[1] as int) + 0x1_0000 * (s[2] as int) + 0x100_0000 * (s[3] as int)
  {
    var a, b, c := s[1..], s[2..], s[3..];
    assert a[1..] == b && b[1..] == c && c[1..] == [];
  }

  lemma WidthLimits()
    ensures Pow256(4) == TWO32 && Pow256(8) == TWO64
  {
  }

  lemma Distributes(a: int, b: int, c: int)
    ensures (a - b) * c == a * c - b * c
    ensures (a + b) * c == a * c + b * c
  {
  }

  lemma SmallMultiple(k: int, bs: int)
    requires bs >= 0
    ensures k > 0 ==> k * bs >= bs
    ensures k < 0 ==> k * bs <= -bs
  {
  }

  lemma MulNonNegative(a: int, b: int)
    requires a >= 0 && b >= 0
    ensures a * b >= 0
  {
  }

  /** `disk` with the bytes from `loc` on replaced by `data`; bytes beyond the end are lost. */
  function Patch(disk: seq<Byte>, loc: nat, data: seq<Byte>): (r: seq<Byte>)
    ensures |r| == |disk|
  {
    seq(|disk|, p requires 0 <= p < |disk| => if loc <= p < loc + |data| then data[p - loc] else disk[p])
  }

  /** Two adjacent patches are one. */
  lemma PatchSplit(disk: seq<Byte>, loc: nat, data: seq<Byte>, k: nat)
    requires k <= |data|
    ensures Patch(Patch(disk, loc, data[..k]), loc + k, data[k..]) == Patch(disk, loc, data)
  {
  }

  /** A patch absorbs an earlier, partial attempt at itself. */
  lemma PatchAbsorbs(disk: seq<Byte>, loc: nat, data: seq<Byte>, k: nat)
    requires k <= |data|
    ensures Patch(Patch(disk, loc, data[..k]), loc, data) == Patch(disk, loc, data)
  {
  }
}
