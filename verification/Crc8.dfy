/**
  The 8-bit SAE J1850 CRC (polynomial 0x1D): polynomial long division as the reference, the bit-serial
  register, the table-driven loop, and the error-detection laws the protection profiles rest on.
 */
module Crc8 {
  import opened Crc8Step

  // The coefficients of the polynomial below x^8: 0x1D.
  const POLY_BITS: seq<bool> := [false, false, false, true, true, true, false, true]

  function BitStream(data: seq<bv8>): (s: seq<bool>)
    ensures |s| == 8 * |data|
  {
    if data == [] then [] else BitsOf(data[0]) + BitStream(data[1..])
  }

  function XorBits(x: seq<bool>, y: seq<bool>): (r: seq<bool>)
    requires |x| == |y|
    ensures |r| == |x|
  {
    seq(|x|, i requires 0 <= i < |x| => x[i] != y[i])
  }

  /** x with y added to its first |y| coefficients. */
  function XorPrefix(x: seq<bool>, y: seq<bool>): (r: seq<bool>)
    requires |y| <= |x|
    ensures |r| == |x|
  {
    seq(|x|, i requires 0 <= i < |x| => if i < |y| then x[i] != y[i] else x[i])
  }

  function ZeroBits(n: nat): (s: seq<bool>)
    ensures |s| == n
  {
    seq(n, _ => false)
  }

  /**
    The remainder of a polynomial over GF(2), given by its coefficients from the highest degree down, on
    division by x^8 + x^4 + x^3 + x^2 + 1.
   */
  function Remainder(d: seq<bool>): (r: seq<bool>)
    requires |d| >= 8
    ensures |r| == 8
    decreases |d|
  {
    if |d| == 8 then d
    else if d[0] then Remainder(XorPrefix(d[1..], POLY_BITS))
    else Remainder(d[1..])
  }

  /** The bit-serial register after the bits of a message. */
  function Serial(crc: bv8, bits: seq<bool>): bv8
    decreases |bits|
  {
    if bits == [] then crc else Serial(Step(crc, bits[0]), bits[1..])
  }

  /** The register after n steps on zero bits. */
  function Shift(crc: bv8, n: nat): bv8
    decreases n
  {
    if n == 0 then crc else Shift(Step(crc, false), n - 1)
  }

  /** The register after a byte sequence. */
  function Register(init: bv8, data: seq<bv8>): bv8 {
    Serial(init, BitStream(data))
  }

  /** The CRC of a byte sequence: the register with a final inversion. */
  function Crc(data: seq<bv8>, init: bv8): bv8 {
    Register(init, data) ^ 0xFF
  }

  // ---- The register computes the remainder ----

  /** The dividend that a register with the bits m still to come stands for. */
  function Dividend(r: bv8, m: seq<bool>): (d: seq<bool>)
    ensures |d| == |m| + 8
  {
    XorPrefix(m + ZeroBits(8), BitsOf(r))
  }

  lemma DividendStep(r: bv8, m: seq<bool>)
    requires m != []
    ensures var d := Dividend(r, m);
            Dividend(Step(r, m[0]), m[1..]) == if d[0] then XorPrefix(d[1..], POLY_BITS) else d[1..]
  {
    hide Step, BitsOf, Top, ZeroBits;
    StepBits(r, m[0]);
    var full := m + ZeroBits(8);
    assert full[1..] == m[1..] + ZeroBits(8);
    DivideOnce(full, BitsOf(r), BitsOf(Step(r, m[0])));
  }

  lemma DivideOnce(full: seq<bool>, x: seq<bool>, y: seq<bool>)
    requires |full| >= 9 && |x| == 8
    requires var t := x[0] != full[0]; y == [x[1], x[2], x[3], x[4] != t, x[5] != t, x[6] != t, x[7], t]
    ensures var d := XorPrefix(full, x);
            XorPrefix(full[1..], y) == if d[0] then XorPrefix(d[1..], POLY_BITS) else d[1..]
  {
  }

  /**
    The bit-serial register after a message is the remainder, on division by the polynomial, of the message
    times x^8 with the initial value added to its first eight coefficients.
   */
  lemma {:induction false} SerialIsRemainder(r: bv8, m: seq<bool>)
    ensures BitsOf(Serial(r, m)) == Remainder(Dividend(r, m))
    decreases |m|
  {
    hide Step;
    if m == [] {
      assert Dividend(r, m) == BitsOf(r);
    } else {
      DividendStep(r, m);
      SerialIsRemainder(Step(r, m[0]), m[1..]);
    }
  }

  // ---- Algebra of the register ----

  lemma {:induction false} SerialConcat(r: bv8, x: seq<bool>, y: seq<bool>)
    ensures Serial(r, x + y) == Serial(Serial(r, x), y)
    decreases |x|
  {
    hide Step;
    if x == [] {
      assert x + y == y;
    } else {
      assert (x + y)[1..] == x[1..] + y;
      SerialConcat(Step(r, x[0]), x[1..], y);
    }
  }

  lemma {:induction false} SerialLinear(a: bv8, x: seq<bool>, b: bv8, y: seq<bool>)
    requires |x| == |y|
    ensures Serial(Add(a, b), XorBits(x, y)) == Add(Serial(a, x), Serial(b, y))
    decreases |x|
  {
    hide Step, Add;
    if x != [] {
      var z := XorBits(x, y);
      StepLinear(a, x[0], b, y[0]);
      assert z[1..] == XorBits(x[1..], y[1..]);
      SerialLinear(Step(a, x[0]), x[1..], Step(b, y[0]), y[1..]);
    }
  }

  lemma {:induction false} SerialInjective(a: bv8, b: bv8, m: seq<bool>)
    ensures Serial(a, m) == Serial(b, m) <==> a == b
    decreases |m|
  {
    hide Step;
    if m != [] {
      SerialInjective(Step(a, m[0]), Step(b, m[0]), m[1..]);
      if Step(a, m[0]) == Step(b, m[0]) {
        StepInjective(a, b, m[0]);
      }
    }
  }

  lemma {:induction false} SerialZeros(n: nat)
    ensures Serial(0, ZeroBits(n)) == 0
  {
    hide Step;
    if n > 0 {
      assert ZeroBits(n)[1..] == ZeroBits(n - 1);
      StepZero();
      SerialZeros(n - 1);
    }
  }

  // ---- Byte steps and the table ----

  /** c with k bits shifted out at the top. */
  function ShiftOut(c: bv8, k: nat): bv8
    decreases k
  {
    if k == 0 then c else ShiftOut(Double(c), k - 1)
  }

  /** The bits are those that leave c at the top, one by one. */
  ghost predicate TopBits(c: bv8, bits: seq<bool>) {
    forall i :: 0 <= i < |bits| ==> bits[i] == Top(ShiftOut(c, i))
  }

  lemma {:induction false} FeedBits(crc: bv8, c: bv8, bits: seq<bool>)
    requires TopBits(c, bits)
    ensures Serial(crc, bits) == Add(Shift(Add(crc, c), |bits|), ShiftOut(c, |bits|))
    decreases |bits|
  {
    hide Step, Add, Double, Top;
    if bits == [] {
      AddTwice(crc, c);
    } else {
      assert bits[0] == Top(ShiftOut(c, 0));
      FeedIsAdd(crc, c);
      forall i | 0 <= i < |bits| - 1
        ensures bits[1..][i] == Top(ShiftOut(Double(c), i))
      {
        assert bits[i + 1] == Top(ShiftOut(c, i + 1));
      }
      FeedBits(Step(crc, bits[0]), Double(c), bits[1..]);
    }
  }

  lemma {:induction false} ShiftOutStep(c: bv8, k: nat)
    ensures ShiftOut(c, k + 1) == Double(ShiftOut(c, k))
    decreases k
  {
    hide Double;
    if k > 0 {
      ShiftOutStep(Double(c), k - 1);
    }
  }

  lemma ByteTopBits(b: bv8)
    ensures TopBits(b, BitsOf(b))
    ensures ShiftOut(b, 8) == 0
  {
    assert ShiftOut(b, 0) == b;
    hide ShiftOut, Double, Top, BitsOf;
    ShiftOutStep(b, 0);
    ShiftOutStep(b, 1);
    ShiftOutStep(b, 2);
    ShiftOutStep(b, 3);
    ShiftOutStep(b, 4);
    ShiftOutStep(b, 5);
    ShiftOutStep(b, 6);
    ShiftOutStep(b, 7);
    TopOfDoubles(b);
    DoubleEight(b);
  }

  /** Eight register steps on the bits of a byte are eight shifts of the byte added to the register. */
  lemma ByteStep(crc: bv8, b: bv8)
    ensures Serial(crc, BitsOf(b)) == Shift(Add(crc, b), 8)
  {
    hide Step, Top, TopBits, ShiftOut, Shift, Serial, Add;
    ByteTopBits(b);
    FeedBits(crc, b, BitsOf(b));
    AddZero(Shift(Add(crc, b), 8));
  }

  /** The 256-entry table: entry i is the register i after eight zero bits. */
  ghost predicate IsTable(tbl: seq<bv8>) {
    |tbl| == 256 && forall i: bv8 :: tbl[i as int] == Shift(i, 8)
  }

  lemma TableStep(crc: bv8)
    ensures Step(crc, false) == if crc & 0x80 != 0 then (crc << 1) ^ 0x1D else crc << 1
  {
  }

  method BuildCrc8Table() returns (tbl: array<bv8>)
    ensures fresh(tbl) && IsTable(tbl[..])
  {
    hide Step;
    tbl := new bv8[256];
    var i: nat := 0;
    while i < 256
      invariant i <= 256
      invariant forall j: bv8 :: j as int < i ==> tbl[j as int] == Shift(j, 8)
    {
      var crc := i as bv8;
      var b := 0;
      while b < 8
        invariant 0 <= b <= 8
        invariant Shift(crc, 8 - b) == Shift(i as bv8, 8)
        invariant forall j: bv8 :: j as int < i ==> tbl[j as int] == Shift(j, 8)
      {
        TableStep(crc);
        crc := if crc & 0x80 != 0 then (crc << 1) ^ 0x1D else crc << 1;
        b := b + 1;
      }
      tbl[i] := crc;
      i := i + 1;
    }
  }

  /** The table-driven loop. */
  method ComputeCrc(tbl: array<bv8>, data: seq<bv8>, init: bv8) returns (crc: bv8)
    requires IsTable(tbl[..])
    ensures crc == Crc(data, init)
  {
    crc := init;
    assert data[..0] == [];
    assert crc == Register(init, []);
    hide IsTable, Register;
    for i := 0 to |data|
      invariant crc == Register(init, data[..i])
    {
      TableLookup(tbl[..], init, data[..i], data[i]);
      assert data[..i + 1] == data[..i] + [data[i]];
      crc := tbl[(crc ^ data[i]) as int];
    }
    assert data[..|data|] == data;
    crc := crc ^ 0xFF;
  }

  lemma TableLookup(tbl: seq<bv8>, init: bv8, done: seq<bv8>, b: bv8)
    requires IsTable(tbl)
    ensures |tbl| == 256
    ensures tbl[(Register(init, done) ^ b) as int] == Register(init, done + [b])
  {
    hide Register;
    var crc := Register(init, done);
    RegisterSnoc(init, done, b);
    ByteStep(crc, b);
    assert Add(crc, b) == crc ^ b;
  }

  lemma {:induction false} BitStreamConcat(x: seq<bv8>, y: seq<bv8>)
    ensures BitStream(x + y) == BitStream(x) + BitStream(y)
  {
    if x == [] {
      assert x + y == y;
    } else {
      assert (x + y)[1..] == x[1..] + y;
      BitStreamConcat(x[1..], y);
    }
  }

  lemma RegisterConcat(init: bv8, x: seq<bv8>, y: seq<bv8>)
    ensures Register(init, x + y) == Register(Register(init, x), y)
  {
    BitStreamConcat(x, y);
    SerialConcat(init, BitStream(x), BitStream(y));
  }

  lemma RegisterSnoc(init: bv8, x: seq<bv8>, b: bv8)
    ensures Register(init, x + [b]) == Serial(Register(init, x), BitsOf(b))
  {
    RegisterConcat(init, x, [b]);
    assert BitStream([b]) == BitsOf(b) + [] == BitsOf(b);
  }

  /** Undoing the final inversion and going on gives the CRC of the concatenation. */
  lemma CrcContinues(x: seq<bv8>, y: seq<bv8>, init: bv8)
    ensures Crc(y, Crc(x, init) ^ 0xFF) == Crc(x + y, init)
  {
    hide Register;
    RegisterConcat(init, x, y);
    InvertTwice(Register(init, x));
    assert Crc(x, init) ^ 0xFF == Register(init, x);
  }

  lemma InvertTwice(b: bv8)
    ensures (b ^ 0xFF) ^ 0xFF == b
  {
  }

  /** The table-driven CRC, bit by bit, from polynomial long division. */
  lemma CrcIsRemainder(data: seq<bv8>, init: bv8)
    ensures BitsOf(Crc(data, init) ^ 0xFF) == Remainder(Dividend(init, BitStream(data)))
  {
    SerialIsRemainder(init, BitStream(data));
    InvertTwice(Register(init, data));
  }

  /** Bit i of a byte, as in `BitsOf`. */
  function Flag(c: bv8, i: nat): bool
    requires i < 8
  {
    BitsOf(c)[i]
  }

  function Masked(c: bv8, mask: bv8): bool {
    c & mask != 0
  }

  lemma MaskedSum(a: bv8, b: bv8, mask: bv8)
    requires mask & (mask - 1) == 0
    ensures Masked(Add(a, b), mask) == (Masked(a, mask) != Masked(b, mask))
  {
  }

  lemma Flags(c: bv8)
    ensures Flag(c, 0) == Masked(c, 0x80) && Flag(c, 1) == Masked(c, 0x40)
    ensures Flag(c, 2) == Masked(c, 0x20) && Flag(c, 3) == Masked(c, 0x10)
    ensures Flag(c, 4) == Masked(c, 0x08) && Flag(c, 5) == Masked(c, 0x04)
    ensures Flag(c, 6) == Masked(c, 0x02) && Flag(c, 7) == Masked(c, 0x01)
  {
  }

  function Mask(i: nat): (m: bv8)
    requires i < 8
    ensures m & (m - 1) == 0
  {
    if i == 0 then 0x80 else if i == 1 then 0x40 else if i == 2 then 0x20 else if i == 3 then 0x10
    else if i == 4 then 0x08 else if i == 5 then 0x04 else if i == 6 then 0x02 else 0x01
  }

  lemma FlagMask(c: bv8, i: nat)
    requires i < 8
    ensures Flag(c, i) == Masked(c, Mask(i))
  {
    hide Flag, Masked;
    Flags(c);
  }

  lemma FlagSum(a: bv8, b: bv8, i: nat)
    requires i < 8
    ensures Flag(Add(a, b), i) == (Flag(a, i) != Flag(b, i))
  {
    hide Flag, Masked, Mask, Add;
    FlagMask(a, i);
    FlagMask(b, i);
    FlagMask(Add(a, b), i);
    MaskedSum(a, b, Mask(i));
  }

  lemma BitsOfSum(a: bv8, b: bv8)
    ensures BitsOf(Add(a, b)) == XorBits(BitsOf(a), BitsOf(b))
  {
    hide BitsOf, Add;
    forall i | 0 <= i < 8
      ensures BitsOf(Add(a, b))[i] == (BitsOf(a)[i] != BitsOf(b)[i])
    {
      FlagSum(a, b, i);
    }
  }

  lemma CheckStep(done: seq<bv8>, r: bv8, b: bv8, c: bv8, next: bv8)
    requires Register(0xFF, done) == r && Add(r, b) == c && Shift(c, 8) == next
    ensures Register(0xFF, done + [b]) == next
  {
    hide Register, Shift, Add;
    RegisterSnoc(0xFF, done, b);
    ByteStep(r, b);
  }

  const CHECK_TEXT: seq<bv8> := [0x31, 0x32, 0x33, 0x34, 0x35, 0x36, 0x37, 0x38, 0x39]

  lemma CheckFirstFive()
    ensures Register(0xFF, CHECK_TEXT[..5]) == 0x89
  {
    var t := CHECK_TEXT;
    assert Register(0xFF, t[..0]) == 0xFF;
    hide Register;
    CheckStep(t[..0], 0xFF, 0x31, 0xCE, 0x93);
    assert t[..0] + [0x31] == t[..1];
    CheckStep(t[..1], 0x93, 0x32, 0xA1, 0xBC);
    assert t[..1] + [0x32] == t[..2];
    CheckStep(t[..2], 0xBC, 0x33, 0x8F, 0x9D);
    assert t[..2] + [0x33] == t[..3];
    CheckStep(t[..3], 0x9D, 0x34, 0xA9, 0x54);
    assert t[..3] + [0x34] == t[..4];
    CheckStep(t[..4], 0x54, 0x35, 0x61, 0x89);
    assert t[..4] + [0x35] == t[..5];
  }

  /** The check value of the SAE J1850 CRC: that of the text "123456789". */
  lemma CheckValue()
    ensures Crc([0x31, 0x32, 0x33, 0x34, 0x35, 0x36, 0x37, 0x38, 0x39], 0xFF) == 0x4B
  {
    hide Register;
    var t := CHECK_TEXT;
    CheckFirstFive();
    CheckStep(t[..5], 0x89, 0x36, 0xBF, 0xD7);
    assert t[..5] + [0x36] == t[..6];
    CheckStep(t[..6], 0xD7, 0x37, 0xE0, 0xB2);
    assert t[..6] + [0x37] == t[..7];
    CheckStep(t[..7], 0xB2, 0x38, 0x8A, 0xF4);
    assert t[..7] + [0x38] == t[..8];
    CheckStep(t[..8], 0xF4, 0x39, 0xCD, 0xB4);
    assert t[..8] + [0x39] == t[..9];
    assert t[..9] == t;
  }

  // ---- Error detection ----

  lemma {:induction false} BitStreamInjective(x: seq<bv8>, y: seq<bv8>)
    requires |x| == |y| && BitStream(x) == BitStream(y)
    ensures x == y
  {
    if x != [] {
      assert BitsOf(x[0]) == BitStream(x)[..8] == BitStream(y)[..8] == BitsOf(y[0]);
      BitsInjective(x[0], y[0]);
      assert BitStream(x[1..]) == BitStream(x)[8..] == BitStream(y)[8..] == BitStream(y[1..]);
      BitStreamInjective(x[1..], y[1..]);
    }
  }

  /** All the places where two bit strings differ lie among the eight positions from o on. */
  ghost predicate DifferWithin(x: seq<bool>, y: seq<bool>, o: nat) {
    |x| == |y| && o + 8 <= |x| && forall i :: 0 <= i < |x| && !(o <= i < o + 8) ==> x[i] == y[i]
  }

  /** Eight consecutive message bits determine the register that follows them. */
  lemma EightBitsInjective(r: bv8, x: seq<bool>, y: seq<bool>)
    requires |x| == |y| == 8 && Serial(r, x) == Serial(r, y)
    ensures x == y
  {
    hide *;
    var a := ByteOfBits(x);
    var b := ByteOfBits(y);
    ByteStep(r, a);
    ByteStep(r, b);
    ShiftInjective(Add(r, a), Add(r, b), 8);
    AddCancel(a, b, r);
  }

  lemma {:induction false} ShiftInjective(a: bv8, b: bv8, n: nat)
    requires Shift(a, n) == Shift(b, n)
    ensures a == b
    decreases n
  {
    hide Step;
    if n > 0 {
      ShiftInjective(Step(a, false), Step(b, false), n - 1);
      StepInjective(a, b, false);
    }
  }

  lemma {:induction false} ShiftLinear(a: bv8, b: bv8, n: nat)
    ensures Shift(Add(a, b), n) == Add(Shift(a, n), Shift(b, n))
    decreases n
  {
    hide Step, Add;
    if n > 0 {
      StepLinear(a, false, b, false);
      ShiftLinear(Step(a, false), Step(b, false), n - 1);
    }
  }

  /** A difference confined to eight consecutive bits always changes the register. */
  lemma BurstChangesRegister(r: bv8, x: seq<bool>, y: seq<bool>, o: nat)
    requires DifferWithin(x, y, o) && x != y
    ensures Serial(r, x) != Serial(r, y)
  {
    var before, after := x[..o], x[o + 8..];
    var wx, wy := x[o..o + 8], y[o..o + 8];
    assert before == y[..o] && after == y[o + 8..];
    assert x == before + wx + after && y == before + wy + after;
    assert wx != wy;
    var s := Serial(r, before);
    SerialConcat(r, before + wx, after);
    SerialConcat(r, before, wx);
    SerialConcat(r, before + wy, after);
    SerialConcat(r, before, wy);
    SerialInjective(Serial(s, wx), Serial(s, wy), after);
    if Serial(s, wx) == Serial(s, wy) {
      EightBitsInjective(s, wx, wy);
    }
  }

  /** Two byte sequences whose bit strings differ, and differ within eight consecutive bits only. */
  ghost predicate BurstError(p: seq<bv8>, q: seq<bv8>) {
    |p| == |q| && p != q && exists o: nat :: DifferWithin(BitStream(p), BitStream(q), o)
  }

  lemma BurstChangesCrc(p: seq<bv8>, q: seq<bv8>, init: bv8)
    requires BurstError(p, q)
    ensures Register(init, p) != Register(init, q)
  {
    var o: nat :| DifferWithin(BitStream(p), BitStream(q), o);
    if BitStream(p) == BitStream(q) {
      BitStreamInjective(p, q);
    }
    BurstChangesRegister(init, BitStream(p), BitStream(q), o);
  }

  /** What is common to two messages before and after does not matter to whether their registers agree. */
  lemma RegisterAgreement(r: bv8, s: bv8, tail: seq<bv8>)
    ensures Register(r, tail) == Register(s, tail) <==> r == s
  {
    SerialInjective(r, s, BitStream(tail));
  }

  /** Whether two byte strings leave equal registers does not depend on the register they start from. */
  lemma AgreementAnywhere(r: bv8, s: bv8, x: seq<bv8>, y: seq<bv8>)
    requires |x| == |y|
    ensures Register(r, x) == Register(r, y) <==> Register(s, x) == Register(s, y)
  {
    var u, v := BitStream(x), BitStream(y);
    var z := XorBits(u, v);
    SerialLinear(r, u, r, v);
    SerialLinear(s, u, s, v);
    AddEqual(r, r);
    AddEqual(s, s);
    AddEqual(Serial(r, u), Serial(r, v));
    AddEqual(Serial(s, u), Serial(s, v));
  }
}
