/** Bytes, and the little-endian 16-, 32- and 64-bit fields that the samples
    read by laying a C struct over a buffer. */
module Bytes {

  type Byte = x: int | 0 <= x < 0x100
  type U16 = x: int | 0 <= x < 0x1_0000
  type U32 = x: int | 0 <= x < 0x1_0000_0000
  type U64 = x: int | 0 <= x < TWO_64

  const TWO_64: int := 0x1_0000_0000_0000_0000

  function Pow256(n: nat): (p: nat)
    ensures p > 0
  {
    if n == 0 then 1 else 0x100 * Pow256(n - 1)
  }

  /** The number that `b` stands for, least significant byte first. */
  function LittleEndian(b: seq<Byte>): (v: nat)
    ensures v < Pow256(|b|)
  {
    if b == [] then 0 else b[0] as int + 0x100 * LittleEndian(b[1..])
  }

  /** The `n` bytes that stand for `v`. */
  function ToLittleEndian(v: nat, n: nat): (b: seq<Byte>)
    requires v < Pow256(n)
    ensures |b| == n && LittleEndian(b) == v
    decreases n
  {
    if n == 0 then [] else [v % 0x100] + ToLittleEndian(v / 0x100, n - 1)
  }

  lemma Widths()
    ensures Pow256(2) == 0x1_0000 && Pow256(4) == 0x1_0000_0000 && Pow256(8) == TWO_64
  {
  }

  function U16At(b: seq<Byte>, i: nat): U16
    requires i + 2 <= |b|
  {
    Widths();
    LittleEndian(b[i..i + 2])
  }

  function U32At(b: seq<Byte>, i: nat): U32
    requires i + 4 <= |b|
  {
    Widths();
    LittleEndian(b[i..i + 4])
  }

  function U64At(b: seq<Byte>, i: nat): U64
    requires i + 8 <= |b|
  {
    Widths();
    LittleEndian(b[i..i + 8])
  }

  function PutU16(v: U16): (b: seq<Byte>)
    ensures |b| == 2 && LittleEndian(b) == v
  {
    Widths();
    ToLittleEndian(v, 2)
  }

  function PutU32(v: U32): (b: seq<Byte>)
    ensures |b| == 4 && LittleEndian(b) == v
  {
    Widths();
    ToLittleEndian(v, 4)
  }

  function PutU64(v: U64): (b: seq<Byte>)
    ensures |b| == 8 && LittleEndian(b) == v
  {
    Widths();
    ToLittleEndian(v, 8)
  }

  lemma U16Bytes(b: seq<Byte>, i: nat)
    requires i + 2 <= |b|
    ensures U16At(b, i) == b[i] as int + 0x100 * b[i + 1] as int
  {
    var s := b[i..i + 2];
    assert s[1..][1..] == [];
    assert LittleEndian(s) == s[0] as int + 0x100 * (s[1..][0] as int + 0x100 * LittleEndian(s[1..][1..]));
  }

  lemma U32Bytes(b: seq<Byte>, i: nat)
    requires i + 4 <= |b|
    ensures U32At(b, i) == U16At(b, i) + 0x1_0000 * U16At(b, i + 2)
  {
    var s := b[i..i + 4];
    assert s[1..][1..] == b[i + 2..i + 4];
    assert LittleEndian(s) == s[0] as int + 0x100 * (s[1..][0] as int + 0x100 * LittleEndian(s[1..][1..]));
    U16Bytes(b, i);
  }

  lemma U64Bytes(b: seq<Byte>, i: nat)
    requires i + 8 <= |b|
    ensures U64At(b, i) == U32At(b, i) + 0x1_0000_0000 * U32At(b, i + 4)
  {
    var s := b[i..i + 8];
    var t := s[1..][1..];
    assert t[1..][1..] == b[i + 4..i + 8];
    assert LittleEndian(s) == s[0] as int + 0x100 * (s[1..][0] as int + 0x100 * LittleEndian(t));
    assert LittleEndian(t) == t[0] as int + 0x100 * (t[1..][0] as int + 0x100 * LittleEndian(t[1..][1..]));
    U32Bytes(b, i);
    U16Bytes(b, i);
    U16Bytes(b, i + 2);
  }

  /** The difference of two unsigned 64-bit values, as C computes it. */
  function SubU64(a: U64, b: U64): (d: U64)
    ensures (b + d) % TWO_64 == a
  {
    (a - b) % TWO_64
  }
}
