/**
 Bytes, the fixed-width unsigned integers of the wire, and their little- and
 big-endian layouts. A layout of width w keeps the low w bytes of its number,
 which is what Go's uint16(v) and byte(v) conversions do before a Put.
 */
module Bytes {

  const TWO_8 := 0x100
  const TWO_16 := 0x1_0000
  const TWO_32 := 0x1_0000_0000
  const TWO_64 := 0x1_0000_0000_0000_0000

  type Byte = x: int | 0 <= x < TWO_8
  type U32 = x: int | 0 <= x < TWO_32
  type U64 = x: int | 0 <= x < TWO_64

  /** Go's [32]byte and [64]byte. */
  type Key = s: seq<Byte> | |s| == 32 witness seq(32, _ => 0)
  type Signature = s: seq<Byte> | |s| == 64 witness seq(64, _ => 0)

  /** Go's wrapping addition on uint64. */
  function AddU64(x: U64, d: U64): U64 {
    (x + d) % TWO_64
  }

  function Pow256(n: nat): (p: nat)
    ensures p > 0
  {
    if n == 0 then 1 else 256 * Pow256(n - 1)
  }

  function LittleEndian(width: nat, v: nat): (s: seq<Byte>)
    ensures |s| == width
  {
    if width == 0 then [] else [v % 256] + LittleEndian(width - 1, v / 256)
  }

  function FromLittleEndian(s: seq<Byte>): (v: nat)
    ensures v < Pow256(|s|)
  {
    if s == [] then 0 else s[0] + 256 * FromLittleEndian(s[1..])
  }

  function BigEndian(width: nat, v: nat): (s: seq<Byte>)
    ensures |s| == width
  {
    if width == 0 then [] else BigEndian(width - 1, v / 256) + [v % 256]
  }

  function FromBigEndian(s: seq<Byte>): (v: nat)
    ensures v < Pow256(|s|)
  {
    if s == [] then 0 else 256 * FromBigEndian(s[..|s| - 1]) + s[|s| - 1]
  }

  lemma Pow256Values()
    ensures Pow256(2) == TWO_16
    ensures Pow256(4) == TWO_32
    ensures Pow256(8) == TWO_64
  {
    assert Pow256(1) == 256;
    assert Pow256(3) == 256 * Pow256(2);
    assert Pow256(5) == 256 * Pow256(4);
    assert Pow256(7) == 256 * Pow256(6);
  }

  // ---------- which byte means what ----------

  /** The two bytes of s from at on as a number, low byte first. */
  function Low2(s: seq<int>, at: nat): int
    requires at + 2 <= |s|
  {
    s[at] + 0x100 * s[at + 1]
  }

  /** The eight bytes of s from at on as a number, low byte first. */
  function Low8(s: seq<int>, at: nat): int
    requires at + 8 <= |s|
  {
    s[at] + 0x100 * s[at + 1] + 0x1_0000 * s[at + 2] + 0x100_0000 * s[at + 3]
    + 0x1_0000_0000 * s[at + 4] + 0x100_0000_0000 * s[at + 5]
    + 0x1_0000_0000_0000 * s[at + 6] + 0x100_0000_0000_0000 * s[at + 7]
  }

  /** The first four bytes of s as a number, high byte first. */
  function High4(s: seq<int>): int
    requires |s| >= 4
  {
    0x100_0000 * s[0] + 0x1_0000 * s[1] + 0x100 * s[2] + s[3]
  }

  lemma LittleEndianStep(s: seq<Byte>, k: nat)
    requires k < |s|
    ensures FromLittleEndian(s[k..]) == s[k] + 256 * FromLittleEndian(s[k + 1..])
  {
    assert s[k..][1..] == s[k + 1..];
  }

  lemma BigEndianStep(s: seq<Byte>, k: nat)
    requires k < |s|
    ensures FromBigEndian(s[..k + 1]) == 256 * FromBigEndian(s[..k]) + s[k]
  {
    assert s[..k + 1][..k] == s[..k];
  }

  /** A little-endian number has its low byte first; two bytes keep the low sixteen bits of what is printed. */
  lemma TwoBytes(s: seq<Byte>, at: nat, v: nat)
    ensures at + 2 <= |s| ==> FromLittleEndian(s[at..at + 2]) == Low2(s, at)
    ensures LittleEndian(2, v) == [v % 0x100, v / 0x100 % 0x100]
  {
    if at + 2 <= |s| {
      LittleEndianStep(s[at..at + 2], 0);
      LittleEndianStep(s[at..at + 2], 1);
    }
    assert LittleEndian(1, v / 256) == [v / 256 % 256] + LittleEndian(0, v / 256 / 256);
  }

  lemma EightBytes(s: seq<Byte>, at: nat)
    requires at + 8 <= |s|
    ensures FromLittleEndian(s[at..at + 8]) == Low8(s, at)
  {
    hide FromLittleEndian;
    var t := s[at..at + 8];
    LittleEndianStep(t, 0);
    LittleEndianStep(t, 1);
    LittleEndianStep(t, 2);
    LittleEndianStep(t, 3);
    LittleEndianStep(t, 4);
    LittleEndianStep(t, 5);
    LittleEndianStep(t, 6);
    LittleEndianStep(t, 7);
    assert FromLittleEndian(t[8..]) == 0 && t[0..] == t;
  }

  /** A big-endian number has its high byte first. */
  lemma FourBytes(s: seq<Byte>, v: nat)
    ensures |s| >= 4 ==> FromBigEndian(s[..4]) == High4(s)
    ensures BigEndian(4, v) ==
            [v / 0x100 / 0x100 / 0x100 % 0x100, v / 0x100 / 0x100 % 0x100, v / 0x100 % 0x100, v % 0x100]
  {
    if |s| >= 4 {
      hide FromBigEndian;
      BigEndianStep(s, 0);
      BigEndianStep(s, 1);
      BigEndianStep(s, 2);
      BigEndianStep(s, 3);
      assert FromBigEndian(s[..0]) == 0;
    }
    var v1, v2, v3 := v / 0x100, v / 0x100 / 0x100, v / 0x100 / 0x100 / 0x100;
    assert BigEndian(1, v3) == BigEndian(0, v3 / 256) + [v3 % 256];
    assert BigEndian(2, v2) == BigEndian(1, v3) + [v2 % 256];
    assert BigEndian(3, v1) == BigEndian(2, v2) + [v1 % 256];
  }

  /** A number survives its little-endian layout exactly when it fits the width. */
  lemma {:induction false} LittleEndianRoundTrip(width: nat, v: nat)
    ensures FromLittleEndian(LittleEndian(width, v)) == v <==> v < Pow256(width)
  {
    if v < Pow256(width) && width > 0 {
      LittleEndianRoundTrip(width - 1, v / 256);
      assert LittleEndian(width, v)[1..] == LittleEndian(width - 1, v / 256);
    }
  }

  lemma {:induction false} LittleEndianCanonical(s: seq<Byte>)
    ensures LittleEndian(|s|, FromLittleEndian(s)) == s
  {
    if s != [] {
      LittleEndianCanonical(s[1..]);
      assert s == [s[0]] + s[1..];
    }
  }

  lemma {:induction false} BigEndianRoundTrip(width: nat, v: nat)
    ensures FromBigEndian(BigEndian(width, v)) == v <==> v < Pow256(width)
  {
    if v < Pow256(width) && width > 0 {
      BigEndianRoundTrip(width - 1, v / 256);
      assert BigEndian(width, v)[..width - 1] == BigEndian(width - 1, v / 256);
    }
  }

  lemma {:induction false} BigEndianCanonical(s: seq<Byte>)
    ensures BigEndian(|s|, FromBigEndian(s)) == s
  {
    if s != [] {
      BigEndianCanonical(s[..|s| - 1]);
      assert s == s[..|s| - 1] + [s[|s| - 1]];
    }
  }
}
