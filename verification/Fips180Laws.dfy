/**
  What the functions of the standard mean, independently of how they are written: bit by bit, as numbers, and one
  equation for each working variable.
 */
module Fips180Laws {
  import opened Fips180
  import opened Words

  // ---- Section 4.1.2, bit by bit ----

  lemma ChGates(x: bv32, y: bv32, z: bv32)
    ensures Ch(x, y, z) == Xor(And(x, y), And(Not(x), z))
  {
  }

  /** Ch chooses: where x has a one the bit of y, elsewhere the bit of z. */
  lemma ChooseBit(x: bv32, y: bv32, z: bv32, k: bv5)
    ensures Bit(Ch(x, y, z), k) == if Bit(x, k) then Bit(y, k) else Bit(z, k)
  {
    ChGates(x, y, z);
    hide Ch, Bit, Xor, And, Not;
    GateBits(And(x, y), And(Not(x), z), k);
    GateBits(x, y, k);
    GateBits(Not(x), z, k);
  }

  /** Maj takes the vote of its three arguments. */
  lemma MajorityBit(x: bv32, y: bv32, z: bv32, k: bv5)
    ensures Bit(Maj(x, y, z), k)
       <==> (Bit(x, k) && Bit(y, k)) || (Bit(x, k) && Bit(z, k)) || (Bit(y, k) && Bit(z, k))
  {
    ThreeBits(x & y, x & z, y & z, k);
    AndBit(x, y, k);
    AndBit(x, z, k);
    AndBit(y, z, k);
    hide Bit;
  }

  lemma ThreeBits(a: bv32, b: bv32, c: bv32, k: bv5)
    ensures Bit(a ^ b ^ c, k) == (Bit(a, k) != (Bit(b, k) != Bit(c, k)))
  {
    XorBit(a ^ b, c, k);
    XorBit(a, b, k);
    hide Bit;
  }

  lemma RotateBig0(x: bv32, k: bv5)
    ensures Bit(x.RotateRight(2), k) == Bit(x, k + 2)
    ensures Bit(x.RotateRight(13), k) == Bit(x, k + 13)
    ensures Bit(x.RotateRight(22), k) == Bit(x, k + 22)
  {
  }

  lemma RotateBig1(x: bv32, k: bv5)
    ensures Bit(x.RotateRight(6), k) == Bit(x, k + 6)
    ensures Bit(x.RotateRight(11), k) == Bit(x, k + 11)
    ensures Bit(x.RotateRight(25), k) == Bit(x, k + 25)
  {
  }

  lemma RotateSmall0(x: bv32, k: bv5)
    ensures Bit(x.RotateRight(7), k) == Bit(x, k + 7)
    ensures Bit(x.RotateRight(18), k) == Bit(x, k + 18)
    ensures Bit(x >> 3, k) == (k < 29 && Bit(x, k + 3))
  {
  }

  lemma RotateSmall1(x: bv32, k: bv5)
    ensures Bit(x.RotateRight(17), k) == Bit(x, k + 17)
    ensures Bit(x.RotateRight(19), k) == Bit(x, k + 19)
    ensures Bit(x >> 10, k) == (k < 22 && Bit(x, k + 10))
  {
  }

  lemma BigSigma0Bit(x: bv32, k: bv5)
    ensures Bit(BigSigma0(x), k) == (Bit(x, k + 2) != (Bit(x, k + 13) != Bit(x, k + 22)))
  {
    RotateBig0(x, k);
    ThreeBits(x.RotateRight(2), x.RotateRight(13), x.RotateRight(22), k);
    hide Bit;
  }

  lemma BigSigma1Bit(x: bv32, k: bv5)
    ensures Bit(BigSigma1(x), k) == (Bit(x, k + 6) != (Bit(x, k + 11) != Bit(x, k + 25)))
  {
    RotateBig1(x, k);
    ThreeBits(x.RotateRight(6), x.RotateRight(11), x.RotateRight(25), k);
    hide Bit;
  }

  lemma SmallSigma0Bit(x: bv32, k: bv5)
    ensures Bit(SmallSigma0(x), k) == (Bit(x, k + 7) != (Bit(x, k + 18) != (k < 29 && Bit(x, k + 3))))
  {
    RotateSmall0(x, k);
    ThreeBits(x.RotateRight(7), x.RotateRight(18), x >> 3, k);
    hide Bit;
  }

  lemma SmallSigma1Bit(x: bv32, k: bv5)
    ensures Bit(SmallSigma1(x), k) == (Bit(x, k + 17) != (Bit(x, k + 19) != (k < 22 && Bit(x, k + 10))))
  {
    RotateSmall1(x, k);
    ThreeBits(x.RotateRight(17), x.RotateRight(19), x >> 10, k);
    hide Bit;
  }

  // ---- Words and bytes as numbers ----

  lemma FourBytes(s: seq<bv8>)
    requires |s| == 4
    ensures FromBigEndian(s)
         == 0x100_0000 * (s[0] as int) + 0x1_0000 * (s[1] as int) + 0x100 * (s[2] as int) + s[3] as int
  {
    assert s[1..][1..] == s[2..] && s[2..][1..] == s[3..] && s[3..][1..] == [];
    assert Pow256(0) == 1 && Pow256(1) == 256 && Pow256(2) == 0x1_0000 && Pow256(3) == 0x100_0000;
    assert FromBigEndian(s[3..]) == s[3] as int;
    assert FromBigEndian(s[2..]) == (s[2] as int) * 256 + s[3] as int;
    assert FromBigEndian(s[1..]) == (s[1] as int) * 0x1_0000 + ((s[2] as int) * 256 + s[3] as int);
  }

  lemma BlockWordBytes(block: seq<bv8>, i: nat)
    requires |block| == BLOCK && i < 16
    ensures BlockWord(block, i) as int
         == 0x100_0000 * (block[4 * i] as int) + 0x1_0000 * (block[4 * i + 1] as int)
            + 0x100 * (block[4 * i + 2] as int) + block[4 * i + 3] as int
  {
    JoinFour(BlockWord(block, i), block[4 * i], block[4 * i + 1], block[4 * i + 2], block[4 * i + 3]);
  }

  /** A word of a block is the number that its four bytes make, most significant first. */
  lemma BlockWordIsNumber(block: seq<bv8>, i: nat)
    requires |block| == BLOCK && i < 16
    ensures BlockWord(block, i) as int == FromBigEndian(block[4 * i..4 * i + 4])
  {
    hide BlockWord, FromBigEndian;
    BlockWordBytes(block, i);
    FourBytes(block[4 * i..4 * i + 4]);
  }

  lemma ByteNumbers(w: bv32)
    ensures var s := WordBytes(w);
            && s[0] as int == (((w >> 24) & 0xFF) as bv8) as int && s[1] as int == (((w >> 16) & 0xFF) as bv8) as int
            && s[2] as int == (((w >> 8) & 0xFF) as bv8) as int && s[3] as int == ((w & 0xFF) as bv8) as int
  {
  }

  lemma WordFromBytes(w: bv32)
    ensures var s := WordBytes(w);
            w as int == 0x100_0000 * (s[0] as int) + 0x1_0000 * (s[1] as int) + 0x100 * (s[2] as int) + s[3] as int
  {
    hide WordBytes;
    ByteNumbers(w);
    FourBytesOf(w);
  }

  lemma WordBytesAreNumber(w: bv32)
    ensures FromBigEndian(WordBytes(w)) == w as int
  {
    hide FromBigEndian, WordBytes;
    WordFromBytes(w);
    FourBytes(WordBytes(w));
  }

  /** Working variable i, in the order a to h. */
  function Variable(v: Vars, i: nat): bv32
    requires i < 8
  {
    if i == 0 then v.a else if i == 1 then v.b else if i == 2 then v.c else if i == 3 then v.d
    else if i == 4 then v.e else if i == 5 then v.f else if i == 6 then v.g else v.h
  }

  lemma SerializedHalves(v: Vars)
    ensures Serialize(v) == (WordBytes(v.a) + WordBytes(v.b) + WordBytes(v.c) + WordBytes(v.d))
                          + (WordBytes(v.e) + WordBytes(v.f) + WordBytes(v.g) + WordBytes(v.h))
  {
    hide WordBytes;
  }

  lemma SliceOfHalves(low: seq<bv8>, high: seq<bv8>, i: nat)
    requires |low| == |high| == 16 && i < 4
    ensures (low + high)[4 * i..4 * i + 4] == low[4 * i..4 * i + 4]
    ensures (low + high)[4 * (i + 4)..4 * (i + 4) + 4] == high[4 * i..4 * i + 4]
  {
  }

  lemma SerializedVariable(v: Vars, i: nat)
    requires i < 8
    ensures Serialize(v)[4 * i..4 * i + 4] == WordBytes(Variable(v, i))
  {
    hide WordBytes, Serialize;
    SerializedHalves(v);
    var a, b, c, d := WordBytes(v.a), WordBytes(v.b), WordBytes(v.c), WordBytes(v.d);
    var e, f, g, h := WordBytes(v.e), WordBytes(v.f), WordBytes(v.g), WordBytes(v.h);
    if i < 4 {
      SliceOfHalves(a + b + c + d, e + f + g + h, i);
      FourParts(a, b, c, d, i);
    } else {
      SliceOfHalves(a + b + c + d, e + f + g + h, i - 4);
      FourParts(e, f, g, h, i - 4);
    }
  }

  lemma FourParts(a: seq<bv8>, b: seq<bv8>, c: seq<bv8>, d: seq<bv8>, i: nat)
    requires |a| == |b| == |c| == |d| == 4 && i < 4
    ensures (a + b + c + d)[4 * i..4 * i + 4] == if i == 0 then a else if i == 1 then b else if i == 2 then c else d
  {
  }

  /** A digest lists the variables a to h, each as a number of four bytes. */
  lemma DigestOrder(v: Vars, i: nat)
    requires i < 8
    ensures FromBigEndian(Serialize(v)[4 * i..4 * i + 4]) == Variable(v, i) as int
  {
    hide FromBigEndian, WordBytes, Variable, Serialize;
    SerializedVariable(v, i);
    WordBytesAreNumber(Variable(v, i));
  }

  // ---- Section 6.2.2, variable by variable ----

  /** Addition counts up by ones. */
  lemma AddCounts(x: bv32, y: bv32)
    ensures Add(x, 0) == x && Add(x, y + 1) == Add(x, y) + 1
  {
  }

  /** One round: two variables are new, the others move on by one. */
  lemma RoundVariables(v: Vars, k: bv32, w: bv32)
    ensures var t1 := Add(Add(Add(Add(v.h, BigSigma1(v.e)), Ch(v.e, v.f, v.g)), k), w);
            var t2 := Add(BigSigma0(v.a), Maj(v.a, v.b, v.c));
            var r := Round(v, k, w);
            && r.a == Add(t1, t2) && r.b == v.a && r.c == v.b && r.d == v.c
            && r.e == Add(v.d, t1) && r.f == v.e && r.g == v.f && r.h == v.g
  {
    hide BigSigma0, BigSigma1, Ch, Maj, Add;
  }

  lemma SumSteps(s: bv32, a: bv32, b: bv32, c: bv32, d: bv32, t: bv32, u: bv32, v: bv32, w: bv32)
    requires s == a + b + c + d
    requires t == (a + 1) + b + c + d && u == a + (b + 1) + c + d
    requires v == a + b + (c + 1) + d && w == a + b + c + (d + 1)
    ensures t == u == v == w == s + 1
  {
  }

  /** The sum of four words counts up with each of them. */
  lemma Sum4Counts(a: bv32, b: bv32, c: bv32, d: bv32)
    ensures Sum4(0, 0, 0, 0) == 0
    ensures Sum4(a + 1, b, c, d) == Sum4(a, b + 1, c, d) == Sum4(a, b, c, d) + 1
    ensures Sum4(a, b, c + 1, d) == Sum4(a, b, c, d + 1) == Sum4(a, b, c, d) + 1
  {
    SumSteps(Sum4(a, b, c, d), a, b, c, d,
             Sum4(a + 1, b, c, d), Sum4(a, b + 1, c, d), Sum4(a, b, c + 1, d), Sum4(a, b, c, d + 1));
  }

  lemma ScheduleSums(block: seq<bv8>, t: nat)
    requires |block| == BLOCK && t < 64
    ensures var w := Schedule(block);
            if t < 16 then w[t] as int == FromBigEndian(block[4 * t..4 * t + 4])
            else w[t] == Sum4(SmallSigma1(w[t - 2]), w[t - 7], SmallSigma0(w[t - 15]), w[t - 16])
  {
    ScheduleRecurrence(block, t);
    hide BlockWord, SmallSigma0, SmallSigma1, FromBigEndian, Schedule, Sum4;
    if t < 16 {
      BlockWordIsNumber(block, t);
    }
  }

  /** The compression adds to each variable what it is after 64 rounds, round t with constant t and word t. */
  lemma {:induction false} RoundsInOrder(v: Vars, w: seq<bv32>, t: nat)
    requires t < |w| <= 64
    ensures Rounds(v, w[..0]) == v
    ensures Rounds(v, w[..t + 1]) == Round(Rounds(v, w[..t]), KNumber(t) as bv32, w[t])
  {
    assert w[..t + 1][..t] == w[..t];
    hide Round;
  }

  lemma CompressVariables(v: Vars, block: seq<bv8>, i: nat)
    requires |block| == BLOCK && i < 8
    ensures Variable(Compress(v, block), i) == Add(Variable(v, i), Variable(Rounds(v, Schedule(block)), i))
  {
    hide Rounds, Schedule, Add;
  }

  // ---- Section 5.1.1 ----

  /** A padded message: the message, the byte 0x80, zeros, and eight bytes. */
  lemma PaddedBytes(m: seq<bv8>, i: nat)
    requires i < |Pad(m)|
    ensures i < |m| ==> Pad(m)[i] == m[i]
    ensures i == |m| ==> Pad(m)[i] == 0x80
    ensures |m| < i < |Pad(m)| - 8 ==> Pad(m)[i] == 0
  {
    hide BigEndian, ZeroCount;
  }

  /** The blocks of a padded message are compressed in order, from the initial value on. */
  lemma BlocksInOrder(m: seq<bv8>, n: nat)
    requires BLOCK * (n + 1) <= |m|
    ensures Chain(m, 0) == H0
    ensures Chain(m, n + 1) == Compress(Chain(m, n), m[64 * n..64 * n + 64])
  {
    hide Compress;
  }
}
