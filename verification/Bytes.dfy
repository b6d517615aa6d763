/** Bytes as bit-vectors, their numeric values, and C++ strings as sequences of 8-bit characters. */
module Bytes {

  type byteChar = c: char | c as int < 256 witness 'a'
  type Text = seq<byteChar>

  /** The byte with value d, found by counting up from zero. */
  lemma {:induction false} ByteOfValue(d: nat) returns (b: bv8)
    requires d < 256
    ensures b as int == d
  {
    if d == 0 {
      b := 0;
    } else {
      var c := ByteOfValue(d - 1);
      Successor(c);
      b := c + 1;
    }
  }

  lemma Successor(b: bv8)
    requires b < 255
    ensures (b + 1) as int == b as int + 1
  {
  }

  lemma ByteValue(d: nat)
    requires d < 256
    ensures (d as bv8) as int == d
  {
    var b := ByteOfValue(d);
    ValueByte(b);
  }

  lemma ValueByte(b: bv8)
    ensures 0 <= b as int < 256
    ensures (b as int) as bv8 == b
  {
  }

  /** The two hexadecimal digits of a byte. */
  lemma Nibbles(b: bv8)
    ensures (b >> 4) as int == b as int / 16
    ensures (b & 0x0F) as int == b as int % 16
  {
  }

  lemma JoinNibbles(hi: bv8, lo: bv8)
    requires hi < 16 && lo < 16
    ensures ((hi << 4) | lo) as int == 16 * (hi as int) + lo as int
    ensures ((hi << 4) | lo) >> 4 == hi
    ensures ((hi << 4) | lo) & 0x0F == lo
  {
  }

  lemma SplitByte(b: bv8)
    ensures ((b >> 4) << 4) | (b & 0x0F) == b
    ensures b >> 4 < 16 && b & 0x0F < 16
  {
  }
}
