// Fixed-width little-endian integers, as memcpy of an integral object leaves them on the wire and
// in memory.
module LittleEndian {

  type Byte = b: nat | b < 256

  function Pow256(k: nat): (p: nat)
    ensures p > 0
  {
    if k == 0 then 1 else 256 * Pow256(k - 1)
  }

  // The low `width` bytes of v, least significant first.
  function Encode(v: nat, width: nat): (s: seq<Byte>)
    ensures |s| == width
  {
    if width == 0 then [] else [v % 256] + Encode(v / 256, width - 1)
  }

  function Decode(s: seq<Byte>): nat {
    if s == [] then 0 else s[0] + 256 * Decode(s[1..])
  }

  lemma {:induction false} DecodeBound(s: seq<Byte>)
    ensures Decode(s) < Pow256(|s|)
    decreases |s|
  {
    if s != [] {
      DecodeBound(s[1..]);
    }
  }

  lemma {:induction false} DecodeEncode(v: nat, width: nat)
    requires v < Pow256(width)
    ensures Decode(Encode(v, width)) == v
  {
    if width > 0 {
      DecodeEncode(v / 256, width - 1);
      assert Encode(v, width)[1..] == Encode(v / 256, width - 1);
    }
  }

  lemma {:induction false} EncodeDecode(s: seq<Byte>)
    ensures Encode(Decode(s), |s|) == s
    decreases |s|
  {
    if s != [] {
      EncodeDecode(s[1..]);
      assert Decode(s) % 256 == s[0] && Decode(s) / 256 == Decode(s[1..]);
      assert s == [s[0]] + s[1..];
    }
  }

  lemma Widths()
    ensures Pow256(1) == 0x100 && Pow256(2) == 0x1_0000 && Pow256(4) == 0x1_0000_0000
    ensures Pow256(8) == 0x1_0000_0000_0000_0000
  {
  }

  const TWO_63: nat := 0x8000_0000_0000_0000
  const TWO_31: nat := 0x8000_0000

  // Two's complement of the given half range (2^31 or 2^63).
  function ToSigned(v: nat, half: nat): int {
    if v < half then v else v - 2 * half
  }

  function ToUnsigned(i: int, half: nat): (v: nat)
    requires 0 - half <= i < half
    ensures v < 2 * half
    ensures ToSigned(v, half) == i
  {
    if i >= 0 then i else i + 2 * half
  }
}
