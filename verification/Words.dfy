/** Words as strings of bits and as numbers, each law about one operation alone. */
module Words {

  /** Bit k of a word, counted from the least significant one. Positions wrap around at 32. */
  function Bit(x: bv32, k: bv5): bool {
    (x >> k) & 1 == 1
  }

  lemma XorBit(x: bv32, y: bv32, k: bv5)
    ensures Bit(x ^ y, k) == (Bit(x, k) != Bit(y, k))
  {
  }

  lemma AndBit(x: bv32, y: bv32, k: bv5)
    ensures Bit(x & y, k) == (Bit(x, k) && Bit(y, k))
  {
  }

  lemma NotBit(x: bv32, k: bv5)
    ensures Bit(!x, k) == !Bit(x, k)
  {
  }

  function Xor(x: bv32, y: bv32): bv32 { x ^ y }

  function And(x: bv32, y: bv32): bv32 { x & y }

  function Not(x: bv32): bv32 { !x }

  /** The bits of the three operations. */
  lemma GateBits(x: bv32, y: bv32, k: bv5)
    ensures Bit(Xor(x, y), k) == (Bit(x, k) != Bit(y, k))
    ensures Bit(And(x, y), k) == (Bit(x, k) && Bit(y, k))
    ensures Bit(Not(x), k) == !Bit(x, k)
  {
    XorBit(x, y, k);
    AndBit(x, y, k);
    NotBit(x, k);
    hide Bit;
  }

  /** The number of a word made of four bytes, most significant first. */
  lemma JoinFour(w: bv32, b3: bv8, b2: bv8, b1: bv8, b0: bv8)
    requires w == ((b3 as bv32) << 24) | ((b2 as bv32) << 16) | ((b1 as bv32) << 8) | (b0 as bv32)
    ensures w as int == 0x100_0000 * (b3 as int) + 0x1_0000 * (b2 as int) + 0x100 * (b1 as int) + b0 as int
  {
  }

  lemma SplitFour(w: bv32)
    ensures w == ((((w >> 24) & 0xFF) as bv8 as bv32) << 24) | ((((w >> 16) & 0xFF) as bv8 as bv32) << 16)
               | ((((w >> 8) & 0xFF) as bv8 as bv32) << 8) | ((w & 0xFF) as bv8 as bv32)
  {
  }

  /** The number of a word made of two bytes, least significant first. */
  lemma JoinTwo(w: bv16, low: bv8, high: bv8)
    requires w == (low as bv16) | ((high as bv16) << 8)
    ensures w as int == low as int + 256 * (high as int)
  {
  }

  lemma SplitTwo(w: bv16)
    ensures w == ((w & 0xFF) as bv8 as bv16) | (((w >> 8) as bv8 as bv16) << 8)
  {
  }

  /** The number of a 16-bit word from its two bytes. */
  lemma TwoBytesOf(w: bv16)
    ensures w as int == ((w & 0xFF) as bv8) as int + 256 * (((w >> 8) as bv8) as int)
  {
    SplitTwo(w);
    JoinTwo(w, (w & 0xFF) as bv8, (w >> 8) as bv8);
  }

  lemma FourBytesOf(w: bv32)
    ensures w as int == 0x100_0000 * ((((w >> 24) & 0xFF) as bv8) as int)
                      + 0x1_0000 * ((((w >> 16) & 0xFF) as bv8) as int)
                      + 0x100 * ((((w >> 8) & 0xFF) as bv8) as int) + ((w & 0xFF) as bv8) as int
  {
    SplitFour(w);
    JoinFour(w, ((w >> 24) & 0xFF) as bv8, ((w >> 16) & 0xFF) as bv8, ((w >> 8) & 0xFF) as bv8, (w & 0xFF) as bv8);
  }
}
