/**
  Fixed-width little-endian fields in a byte sequence, as the mapping stores them
  (adapters/shared-memory/src/ring.rs, the write and read helpers at the end of the file).
 */
module LittleEndian {
  import opened Arithmetic
  import opened Prelude

  function Pow256(k: nat): (p: nat)
    ensures p > 0
  {
    if k == 0 then 1 else 256 * Pow256(k - 1)
  }

  function Encode(v: nat, width: nat): (s: seq<byte>)
    ensures |s| == width
  {
    if width == 0 then [] else [v % 256] + Encode(v / 256, width - 1)
  }

  function Decode(s: seq<byte>): (v: nat)
    ensures v < Pow256(|s|)
  {
    if s == [] then 0 else s[0] + 256 * Decode(s[1..])
  }

  lemma WidthsOfWords()
    ensures Pow256(2) == U16_MAX + 1 && Pow256(4) == U32_MAX + 1 && Pow256(8) == U64_MAX + 1
  {
    assert Pow256(1) == 256 && Pow256(2) == 65536 && Pow256(3) == 16777216 && Pow256(4) == 4294967296;
    assert Pow256(5) == 1099511627776 && Pow256(6) == 281474976710656;
    assert Pow256(7) == 72057594037927936 && Pow256(8) == 18446744073709551616;
  }

  /** Byte `i` carries the digit of weight 256 to the `i`: the lowest digit comes first. */
  lemma {:induction false} DigitOf(v: nat, width: nat, i: nat)
    requires i < width
    ensures Encode(v, width)[i] == v / Pow256(i) % 256
  {
    if i > 0 {
      DigitOf(v / 256, width - 1, i - 1);
      DivideTwice(v, 256, Pow256(i - 1));
    } else {
      assert v / 1 == v;
    }
  }

  lemma DivideTwice(v: nat, a: nat, b: nat)
    requires a > 0 && b > 0
    ensures a * b > 0 && v / a / b == v / (a * b)
  {
    var q, r := v / a / b, v / a % b;
    assert v == (q * b + r) * a + v % a;
    MulMonotone(r, b - 1, a);
    assert (b - 1) * a == b * a - a;
    EuclideanIsUnique(v, a * b, q, r * a + v % a);
  }

  /** Reading back what was written gives the value, for every value the width can hold. */
  lemma {:induction false} DecodeEncode(v: nat, width: nat)
    requires v < Pow256(width)
    ensures Decode(Encode(v, width)) == v
  {
    if width > 0 {
      DecodeEncode(v / 256, width - 1);
      assert Encode(v, width)[1..] == Encode(v / 256, width - 1);
    }
  }

  /** And every byte pattern is the encoding of the value it decodes to. */
  lemma {:induction false} EncodeDecode(s: seq<byte>)
    ensures Encode(Decode(s), |s|) == s
  {
    if s != [] {
      EncodeDecode(s[1..]);
      assert Decode(s) % 256 == s[0] && Decode(s) / 256 == Decode(s[1..]);
    }
  }

  function U64At(s: seq<byte>, offset: nat): u64
    requires offset + 8 <= |s|
  {
    WidthsOfWords();
    Decode(s[offset..offset + 8])
  }

  function U32At(s: seq<byte>, offset: nat): u32
    requires offset + 4 <= |s|
  {
    WidthsOfWords();
    Decode(s[offset..offset + 4])
  }

  function U16At(s: seq<byte>, offset: nat): nat
    requires offset + 2 <= |s|
  {
    Decode(s[offset..offset + 2])
  }

  /** The sequence with `field` stored at `offset`. */
  function Store(s: seq<byte>, offset: nat, field: seq<byte>): (t: seq<byte>)
    requires offset + |field| <= |s|
    ensures |t| == |s|
  {
    s[..offset] + field + s[offset + |field|..]
  }

  lemma LoadSame(s: seq<byte>, offset: nat, field: seq<byte>)
    requires offset + |field| <= |s|
    ensures Store(s, offset, field)[offset..offset + |field|] == field
  {
  }

  /** A store changes no byte range it does not overlap. */
  lemma LoadOther(s: seq<byte>, offset: nat, field: seq<byte>, lo: nat, hi: nat)
    requires offset + |field| <= |s| && lo <= hi <= |s|
    requires hi <= offset || offset + |field| <= lo
    ensures Store(s, offset, field)[lo..hi] == s[lo..hi]
  {
  }

  lemma LoadTail(s: seq<byte>, offset: nat, field: seq<byte>, lo: nat)
    requires offset + |field| <= lo <= |s|
    ensures Store(s, offset, field)[lo..] == s[lo..]
  {
  }

  lemma Load64Same(s: seq<byte>, offset: nat, v: u64)
    requires offset + 8 <= |s|
    ensures U64At(Store(s, offset, Encode(v, 8)), offset) == v
  {
    WidthsOfWords();
    LoadSame(s, offset, Encode(v, 8));
    DecodeEncode(v, 8);
  }

  /** The region of a store: storing inside a window is storing in the window. */
  lemma WindowOfStore(s: seq<byte>, lo: nat, hi: nat, offset: nat, field: seq<byte>)
    requires lo <= hi <= |s| && lo + offset + |field| <= hi
    ensures Store(s, lo + offset, field)[lo..hi] == Store(s[lo..hi], offset, field)
  {
  }

  lemma WindowOfWindow(s: seq<byte>, lo: nat, hi: nat, a: nat, b: nat)
    requires lo <= hi <= |s| && a <= b && lo + b <= hi
    ensures s[lo..hi][a..b] == s[lo + a..lo + b]
  {
    assert forall i :: 0 <= i < b - a ==> s[lo..hi][a..b][i] == s[lo + a..lo + b][i];
  }
}
