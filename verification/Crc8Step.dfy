/** One step of the CRC register, as arithmetic over GF(2) on bytes. */
module Crc8Step {

  /** Addition over GF(2). */
  function Add(a: bv8, b: bv8): bv8 { a ^ b }

  function Top(c: bv8): bool { c & 0x80 != 0 }

  function Double(c: bv8): bv8 { c << 1 }

  /** Subtracts the polynomial x^8 + x^4 + x^3 + x^2 + 1 after the x^8 term was shifted out. */
  function Reduce(c: bv8): bv8 { c ^ 0x1D }

  /** One step of the bit-serial register. */
  function Step(crc: bv8, bit: bool): bv8 {
    if Top(crc) != bit then Reduce(Double(crc)) else Double(crc)
  }

  /** The bits of a byte, most significant first. */
  function BitsOf(b: bv8): (s: seq<bool>)
    ensures |s| == 8
  {
    [b & 0x80 != 0, b & 0x40 != 0, b & 0x20 != 0, b & 0x10 != 0,
     b & 0x08 != 0, b & 0x04 != 0, b & 0x02 != 0, b & 0x01 != 0]
  }

  lemma TopLinear(a: bv8, b: bv8)
    ensures Top(Add(a, b)) == (Top(a) != Top(b))
  {
  }

  lemma DoubleLinear(a: bv8, b: bv8)
    ensures Double(Add(a, b)) == Add(Double(a), Double(b))
  {
  }

  lemma ReduceLinear(a: bv8, b: bv8)
    ensures Reduce(Add(a, b)) == Add(Reduce(a), b) == Add(a, Reduce(b))
    ensures Add(Reduce(a), Reduce(b)) == Add(a, b)
  {
  }

  lemma StepLinear(a: bv8, x: bool, b: bv8, y: bool)
    ensures Step(Add(a, b), x != y) == Add(Step(a, x), Step(b, y))
  {
    hide Add, Top, Double, Reduce;
    TopLinear(a, b);
    DoubleLinear(a, b);
    ReduceLinear(Double(a), Double(b));
  }

  lemma StepInjective(a: bv8, b: bv8, bit: bool)
    requires Step(a, bit) == Step(b, bit)
    ensures a == b
  {
  }

  lemma StepZero()
    ensures Step(0, false) == 0
  {
  }

  /** A message bit fed in is the same as a message bit added to the register beforehand. */
  lemma FeedIsAdd(crc: bv8, c: bv8)
    ensures Step(Add(crc, c), false) == Add(Step(crc, Top(c)), Double(c))
  {
    hide Add, Top, Double, Reduce;
    StepLinear(crc, Top(c), c, Top(c));
  }

  lemma AddTwice(a: bv8, b: bv8)
    ensures Add(Add(a, b), b) == a
  {
  }

  lemma AddZero(a: bv8)
    ensures Add(a, 0) == a && Add(0, a) == a
  {
  }

  lemma AddEqual(a: bv8, b: bv8)
    ensures Add(a, b) == 0 <==> a == b
  {
  }

  lemma AddRegroups(a: bv8, b: bv8, c: bv8)
    ensures Add(Add(a, b), c) == Add(a, Add(b, c))
    ensures Add(a, Add(b, c)) == Add(b, Add(a, c))
  {
  }

  lemma Regroup(a: bv8, b: bv8, c: bv8, d: bv8)
    ensures Add(Add(a, b), Add(c, d)) == Add(Add(a, c), Add(b, d))
  {
    hide Add;
    AddRegroups(a, b, Add(c, d));
    AddRegroups(b, c, d);
    AddRegroups(a, c, Add(b, d));
  }

  lemma AddSwap(a: bv8, b: bv8, c: bv8, d: bv8)
    ensures Add(a, b) == Add(c, d) <==> Add(a, c) == Add(b, d)
  {
    hide Add;
    Regroup(a, b, c, d);
    AddEqual(Add(a, b), Add(c, d));
    AddEqual(Add(a, c), Add(b, d));
  }

  lemma AddCancel(a: bv8, b: bv8, c: bv8)
    ensures Add(a, c) == Add(b, c) <==> a == b
    ensures Add(c, a) == Add(c, b) <==> a == b
  {
  }

  lemma DoubleEight(b: bv8)
    ensures Double(Double(Double(Double(Double(Double(Double(Double(b)))))))) == 0
  {
  }

  lemma TopOfDoubles(b: bv8)
    ensures var b2 := Double(Double(b));
            var b4 := Double(Double(b2));
            var b6 := Double(Double(b4));
            BitsOf(b) == [Top(b), Top(Double(b)), Top(b2), Top(Double(b2)),
                          Top(b4), Top(Double(b4)), Top(b6), Top(Double(b6))]
  {
    var b2 := Double(Double(b));
    var b4 := Double(Double(b2));
    var b6 := Double(Double(b4));
    var x := BitsOf(b);
    assert x[0] == Top(b) && x[1] == Top(Double(b));
    assert x[2] == Top(b2) && x[3] == Top(Double(b2));
    assert x[4] == Top(b4) && x[5] == Top(Double(b4));
    assert x[6] == Top(b6) && x[7] == Top(Double(b6));
  }

  lemma DoubleBits(c: bv8)
    ensures var x := BitsOf(c); BitsOf(Double(c)) == [x[1], x[2], x[3], x[4], x[5], x[6], x[7], false]
  {
    var x, y := BitsOf(c), BitsOf(Double(c));
    assert y[0] == x[1] && y[1] == x[2] && y[2] == x[3] && y[3] == x[4];
    assert y[4] == x[5] && y[5] == x[6] && y[6] == x[7] && y[7] == false;
  }

  lemma ReduceBits(c: bv8)
    ensures var x := BitsOf(c); BitsOf(Reduce(c)) == [x[0], x[1], x[2], !x[3], !x[4], !x[5], x[6], !x[7]]
  {
    var x, y := BitsOf(c), BitsOf(Reduce(c));
    assert y[0] == x[0] && y[1] == x[1] && y[2] == x[2] && y[3] == !x[3];
    assert y[4] == !x[4] && y[5] == !x[5] && y[6] == x[6] && y[7] == !x[7];
  }

  /** The register after a step, bit by bit: the shifted register, with the polynomial added on feedback. */
  lemma StepBits(r: bv8, bit: bool)
    ensures var x, t := BitsOf(r), Top(r) != bit;
            BitsOf(Step(r, bit)) == [x[1], x[2], x[3], x[4] != t, x[5] != t, x[6] != t, x[7], t]
    ensures Top(r) == BitsOf(r)[0]
  {
    assert Top(r) == BitsOf(r)[0];
    hide Top, Double, Reduce, BitsOf;
    DoubleBits(r);
    ReduceBits(Double(r));
  }

  lemma BitsInjective(a: bv8, b: bv8)
    requires BitsOf(a) == BitsOf(b)
    ensures a == b
  {
    var x, y := BitsOf(a), BitsOf(b);
    assert x[0] == y[0] && x[1] == y[1] && x[2] == y[2] && x[3] == y[3];
    assert x[4] == y[4] && x[5] == y[5] && x[6] == y[6] && x[7] == y[7];
  }

  lemma SetLowBit(c: bv8)
    requires !BitsOf(c)[7]
    ensures var x := BitsOf(c); BitsOf(c | 0x01) == [x[0], x[1], x[2], x[3], x[4], x[5], x[6], true]
  {
    var x, y := BitsOf(c), BitsOf(c | 0x01);
    assert y[0] == x[0] && y[1] == x[1] && y[2] == x[2] && y[3] == x[3];
    assert y[4] == x[4] && y[5] == x[5] && y[6] == x[6] && y[7];
  }

  lemma AppendBit(c: bv8, bit: bool) returns (b: bv8)
    ensures var x := BitsOf(c); BitsOf(b) == [x[1], x[2], x[3], x[4], x[5], x[6], x[7], bit]
  {
    hide BitsOf, Double;
    DoubleBits(c);
    b := Double(c);
    if bit {
      SetLowBit(b);
      b := b | 0x01;
    }
  }

  /** Every string of eight bits is that of a byte. */
  lemma ByteOfBits(s: seq<bool>) returns (b: bv8)
    requires |s| == 8
    ensures BitsOf(b) == s
  {
    hide BitsOf;
    b := AppendFour(0, s[0], s[1], s[2], s[3]);
    b := AppendFour(b, s[4], s[5], s[6], s[7]);
  }

  lemma AppendFour(c: bv8, s: bool, t: bool, u: bool, v: bool) returns (b: bv8)
    ensures var x := BitsOf(c); BitsOf(b) == [x[4], x[5], x[6], x[7], s, t, u, v]
  {
    hide BitsOf;
    b := AppendBit(c, s);
    b := AppendBit(b, t);
    b := AppendBit(b, u);
    b := AppendBit(b, v);
  }
}
