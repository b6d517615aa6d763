/**
  The secure hash standard, FIPS 180-4, for SHA-256: the words, the functions of section 4.1.2, the
  constants of sections 4.2.2 and 5.3.3, the padding of section 5.1.1 and the computation of section 6.2.2.
  Everything here is a mathematical function; `Sha256.dfy` holds the imperative hasher that refines it.
 */
module Fips180 {
  import Bytes
  import opened Numbers

  /** The eight working variables of section 6.2.2, also used for the chaining value. */
  datatype Vars = Vars(a: bv32, b: bv32, c: bv32, d: bv32, e: bv32, f: bv32, g: bv32, h: bv32)

  const BLOCK: nat := 64

  // Section 5.3.3.
  const H0: Vars := Vars(0x6a09e667, 0xbb67ae85, 0x3c6ef372, 0xa54ff53a, 0x510e527f, 0x9b05688c, 0x1f83d9ab, 0x5be0cd19)

  type word = n: nat | n < 0x1_0000_0000

  // Section 4.2.2, as numbers.
  const K_ROWS: seq<seq<word>> := [
    [0x428a2f98, 0x71374491, 0xb5c0fbcf, 0xe9b5dba5, 0x3956c25b, 0x59f111f1, 0x923f82a4, 0xab1c5ed5],
    [0xd807aa98, 0x12835b01, 0x243185be, 0x550c7dc3, 0x72be5d74, 0x80deb1fe, 0x9bdc06a7, 0xc19bf174],
    [0xe49b69c1, 0xefbe4786, 0x0fc19dc6, 0x240ca1cc, 0x2de92c6f, 0x4a7484aa, 0x5cb0a9dc, 0x76f988da],
    [0x983e5152, 0xa831c66d, 0xb00327c8, 0xbf597fc7, 0xc6e00bf3, 0xd5a79147, 0x06ca6351, 0x14292967],
    [0x27b70a85, 0x2e1b2138, 0x4d2c6dfc, 0x53380d13, 0x650a7354, 0x766a0abb, 0x81c2c92e, 0x92722c85],
    [0xa2bfe8a1, 0xa81a664b, 0xc24b8b70, 0xc76c51a3, 0xd192e819, 0xd6990624, 0xf40e3585, 0x106aa070],
    [0x19a4c116, 0x1e376c08, 0x2748774c, 0x34b0bcb5, 0x391c0cb3, 0x4ed8aa4a, 0x5b9cca4f, 0x682e6ff3],
    [0x748f82ee, 0x78a5636f, 0x84c87814, 0x8cc70208, 0x90befffa, 0xa4506ceb, 0xbef9a3f7, 0xc67178f2]]

  function KNumber(t: nat): word
    requires t < 64
  {
    K_ROWS[t / 8][t % 8]
  }

  function K(t: nat): bv32
    requires t < 64
  {
    KNumber(t) as bv32
  }

  // The primes section 4.2.2 derives the constants from.
  const PRIME_ROWS: seq<seq<nat>> := [
    [2, 3, 5, 7, 11, 13, 17, 19],
    [23, 29, 31, 37, 41, 43, 47, 53],
    [59, 61, 67, 71, 73, 79, 83, 89],
    [97, 101, 103, 107, 109, 113, 127, 131],
    [137, 139, 149, 151, 157, 163, 167, 173],
    [179, 181, 191, 193, 197, 199, 211, 223],
    [227, 229, 233, 239, 241, 251, 257, 263],
    [269, 271, 277, 281, 283, 293, 307, 311]]

  function Prime(t: nat): nat
    requires t < 64
  {
    PRIME_ROWS[t / 8][t % 8]
  }

  /** Section 2.2.2: addition modulo 2^32. */
  function Add(x: bv32, y: bv32): bv32 { x + y }

  function Sum4(a: bv32, b: bv32, c: bv32, d: bv32): bv32 { a + b + c + d }

  // Section 4.1.2.
  function Ch(x: bv32, y: bv32, z: bv32): bv32 { (x & y) ^ (!x & z) }

  function Maj(x: bv32, y: bv32, z: bv32): bv32 { (x & y) ^ (x & z) ^ (y & z) }

  function BigSigma0(x: bv32): bv32 { x.RotateRight(2) ^ x.RotateRight(13) ^ x.RotateRight(22) }

  function BigSigma1(x: bv32): bv32 { x.RotateRight(6) ^ x.RotateRight(11) ^ x.RotateRight(25) }

  function SmallSigma0(x: bv32): bv32 { x.RotateRight(7) ^ x.RotateRight(18) ^ (x >> 3) }

  function SmallSigma1(x: bv32): bv32 { x.RotateRight(17) ^ x.RotateRight(19) ^ (x >> 10) }

  /** The i-th big-endian word of a block. */
  function BlockWord(block: seq<bv8>, i: nat): bv32
    requires |block| == BLOCK && i < 16
  {
    ((block[4 * i] as bv32) << 24) | ((block[4 * i + 1] as bv32) << 16) |
    ((block[4 * i + 2] as bv32) << 8) | (block[4 * i + 3] as bv32)
  }

  /** The next word of a schedule of which w is the beginning. */
  function NextWord(block: seq<bv8>, w: seq<bv32>): bv32
    requires |block| == BLOCK && |w| < 64
  {
    var t := |w|;
    if t < 16 then BlockWord(block, t)
    else Sum4(SmallSigma1(w[t - 2]), w[t - 7], SmallSigma0(w[t - 15]), w[t - 16])
  }

  /** Completes the beginning w of a schedule to its 64 words. */
  function CompleteSchedule(block: seq<bv8>, w: seq<bv32>): (r: seq<bv32>)
    requires |block| == BLOCK && |w| <= 64
    ensures |r| == 64 && w <= r
    decreases 64 - |w|
  {
    if |w| == 64 then w else CompleteSchedule(block, w + [NextWord(block, w)])
  }

  /** Section 6.2.2, step 1: the message schedule. */
  function Schedule(block: seq<bv8>): (w: seq<bv32>)
    requires |block| == BLOCK
    ensures |w| == 64
  {
    CompleteSchedule(block, [])
  }

  /** Section 6.2.2, step 3: one round. */
  function Round(v: Vars, k: bv32, w: bv32): Vars {
    var t1 := Add(Add(Add(Add(v.h, BigSigma1(v.e)), Ch(v.e, v.f, v.g)), k), w);
    var t2 := Add(BigSigma0(v.a), Maj(v.a, v.b, v.c));
    Vars(Add(t1, t2), v.a, v.b, v.c, Add(v.d, t1), v.e, v.f, v.g)
  }

  /** The rounds for the first |w| words of a schedule. */
  function Rounds(v: Vars, w: seq<bv32>): Vars
    requires |w| <= 64
  {
    if w == [] then v else Round(Rounds(v, w[..|w| - 1]), K(|w| - 1), w[|w| - 1])
  }

  function AddVars(x: Vars, y: Vars): Vars {
    Vars(Add(x.a, y.a), Add(x.b, y.b), Add(x.c, y.c), Add(x.d, y.d),
         Add(x.e, y.e), Add(x.f, y.f), Add(x.g, y.g), Add(x.h, y.h))
  }

  /** Section 6.2.2, steps 2 to 4. */
  function Compress(v: Vars, block: seq<bv8>): Vars
    requires |block| == BLOCK
  {
    AddVars(v, Rounds(v, Schedule(block)))
  }

  /** The chaining value after the first n blocks of m. */
  function Chain(m: seq<bv8>, n: nat): Vars
    requires BLOCK * n <= |m|
  {
    if n == 0 then H0 else Compress(Chain(m, n - 1), m[BLOCK * (n - 1)..BLOCK * n])
  }

  function Pow256(k: nat): (p: nat)
    ensures p > 0
  {
    if k == 0 then 1 else 256 * Pow256(k - 1)
  }

  /** The k low-order bytes of n, most significant first. */
  function BigEndian(n: nat, k: nat): (s: seq<bv8>)
    ensures |s| == k
  {
    seq(k, i requires 0 <= i < k => ((n / Pow256(k - 1 - i)) % 256) as bv8)
  }

  function Zeros(n: nat): (s: seq<bv8>)
    ensures |s| == n
    ensures forall i :: 0 <= i < n ==> s[i] == 0
  {
    seq(n, _ => 0 as bv8)
  }

  /** The number of zero bytes in the padding of a message of len bytes. */
  function ZeroCount(len: nat): nat {
    (119 - len % BLOCK) % BLOCK
  }

  /**
    Section 5.1.1: one bit 1, the fewest zero bits that leave 64 bits free in the last block, and the
    message length in bits as a 64-bit number (reduced modulo 2^64, which changes nothing for the lengths
    the standard admits: see `LengthFieldExact`).
   */
  function Pad(m: seq<bv8>): seq<bv8> {
    PadWith(m, 8 * |m| % TWO_64)
  }

  /** The padding with a given length field. */
  function PadWith(m: seq<bv8>, bits: nat): seq<bv8> {
    m + [0x80] + Zeros(ZeroCount(|m|)) + BigEndian(bits, 8)
  }

  function WordBytes(w: bv32): (s: seq<bv8>)
    ensures |s| == 4
  {
    [((w >> 24) & 0xFF) as bv8, ((w >> 16) & 0xFF) as bv8, ((w >> 8) & 0xFF) as bv8, (w & 0xFF) as bv8]
  }

  function Serialize(v: Vars): (s: seq<bv8>)
    ensures |s| == 32
  {
    WordBytes(v.a) + WordBytes(v.b) + WordBytes(v.c) + WordBytes(v.d) +
    WordBytes(v.e) + WordBytes(v.f) + WordBytes(v.g) + WordBytes(v.h)
  }

  /** SHA-256 of a message. */
  function Digest(m: seq<bv8>): (d: seq<bv8>)
    ensures |d| == 32
  {
    Serialize(Chain(Pad(m), |Pad(m)| / BLOCK))
  }

  /** Section 6.2.2, step 1, as the standard writes it: one equation for each word. */
  lemma ScheduleRecurrence(block: seq<bv8>, t: nat)
    requires |block| == BLOCK && t < 64
    ensures var w := Schedule(block);
            w[t] == if t < 16 then BlockWord(block, t)
                    else Sum4(SmallSigma1(w[t - 2]), w[t - 7], SmallSigma0(w[t - 15]), w[t - 16])
  {
    hide Sum4, SmallSigma0, SmallSigma1, BlockWord;
    CompletionRecurrence(block, [], t);
  }

  lemma {:induction false} CompletionRecurrence(block: seq<bv8>, w: seq<bv32>, t: nat)
    requires |block| == BLOCK && |w| <= t < 64
    ensures var r := CompleteSchedule(block, w); r[t] == NextWord(block, r[..t])
    decreases 64 - |w|
  {
    hide NextWord;
    var next := w + [NextWord(block, w)];
    var r := CompleteSchedule(block, w);
    assert r == CompleteSchedule(block, next);
    if |w| == t {
      assert r[..t] == w && r[t] == next[t];
    } else {
      CompletionRecurrence(block, next, t);
    }
  }

  /** The integer part of the cube root, for the numbers below 343. */
  function CubeRoot(p: nat): (w: nat)
    ensures p < 343 ==> w * w * w <= p < (w + 1) * (w + 1) * (w + 1)
  {
    if p < 1 then 0 else if p < 8 then 1 else if p < 27 then 2 else if p < 64 then 3
    else if p < 125 then 4 else if p < 216 then 5 else 6
  }

  /** Section 4.2.2: k is the first 32 bits of the fractional part of the cube root of p. */
  predicate CubeRootFraction(k: nat, p: nat) {
    var root := CubeRoot(p) * 0x1_0000_0000 + k;
    root * root * root <= p * 0x1_0000_0000_0000_0000_0000_0000 < (root + 1) * (root + 1) * (root + 1)
  }

  lemma RoundConstantsAreCubeRoots(t: nat)
    requires t < 64
    ensures CubeRootFraction(KNumber(t), Prime(t))
  {
    hide CubeRootFraction;
    RowOfRoots(t / 8, t % 8);
  }

  lemma RowOfRoots(row: nat, j: nat)
    requires row < 8 && j < 8
    ensures CubeRootFraction(K_ROWS[row][j], PRIME_ROWS[row][j])
  {
    hide CubeRootFraction;
    if row < 4 {
      UpperRows(row, j);
    } else {
      LowerRows(row, j);
    }
  }

  lemma UpperRows(row: nat, j: nat)
    requires row < 4 && j < 8
    ensures CubeRootFraction(K_ROWS[row][j], PRIME_ROWS[row][j])
  {
  }

  lemma LowerRows(row: nat, j: nat)
    requires 4 <= row < 8 && j < 8
    ensures CubeRootFraction(K_ROWS[row][j], PRIME_ROWS[row][j])
  {
  }

  /** The integer part of the square root, for the numbers below 25. */
  function SquareRoot(p: nat): (w: nat)
    ensures p < 25 ==> w * w <= p < (w + 1) * (w + 1)
  {
    if p < 1 then 0 else if p < 4 then 1 else if p < 9 then 2 else if p < 16 then 3 else 4
  }

  /** Section 5.3.3: h is the first 32 bits of the fractional part of the square root of p. */
  predicate SquareRootFraction(h: bv32, p: nat) {
    var root := SquareRoot(p) * 0x1_0000_0000 + h as int;
    root * root <= p * 0x1_0000_0000_0000_0000 < (root + 1) * (root + 1)
  }

  lemma FirstSquareRoots()
    ensures SquareRootFraction(H0.a, Prime(0)) && SquareRootFraction(H0.b, Prime(1))
    ensures SquareRootFraction(H0.c, Prime(2)) && SquareRootFraction(H0.d, Prime(3))
  {
  }

  lemma LastSquareRoots()
    ensures SquareRootFraction(H0.e, Prime(4)) && SquareRootFraction(H0.f, Prime(5))
    ensures SquareRootFraction(H0.g, Prime(6)) && SquareRootFraction(H0.h, Prime(7))
  {
  }

  lemma InitialValuesAreSquareRoots()
    ensures SquareRootFraction(H0.a, Prime(0)) && SquareRootFraction(H0.b, Prime(1))
    ensures SquareRootFraction(H0.c, Prime(2)) && SquareRootFraction(H0.d, Prime(3))
    ensures SquareRootFraction(H0.e, Prime(4)) && SquareRootFraction(H0.f, Prime(5))
    ensures SquareRootFraction(H0.g, Prime(6)) && SquareRootFraction(H0.h, Prime(7))
  {
    hide SquareRootFraction;
    FirstSquareRoots();
    LastSquareRoots();
  }

  /** The zero bytes bring the padding to the required congruence, and no smaller number does. */
  lemma ZeroCountIsLeast(len: nat, z: nat)
    ensures (len + 1 + ZeroCount(len)) % BLOCK == 56
    ensures (len + 1 + z) % BLOCK == 56 ==> ZeroCount(len) <= z
  {
  }

  function FromBigEndian(s: seq<bv8>): nat {
    if s == [] then 0 else (s[0] as int) * Pow256(|s| - 1) + FromBigEndian(s[1..])
  }

  lemma {:induction false} BigEndianRoundTrip(n: nat, k: nat)
    ensures FromBigEndian(BigEndian(n, k)) == n % Pow256(k)
  {
    if k > 0 {
      hide Zeros, BigEndian;
      BigEndianRoundTrip(n, k - 1);
      LeadingDigit(n, k);
      SplitDigit(n, Pow256(k - 1));
    }
  }

  lemma LeadingDigit(n: nat, k: nat)
    requires k > 0
    ensures BigEndian(n, k)[0] as int == n / Pow256(k - 1) % 256
    ensures BigEndian(n, k)[1..] == BigEndian(n, k - 1)
  {
    hide Pow256;
    Bytes.ByteValue(n / Pow256(k - 1) % 256);
  }

  lemma SplitDigit(n: nat, p: nat)
    requires p > 0
    ensures n % (256 * p) == (n / p) % 256 * p + n % p
  {
    var q, r := n / p, n % p;
    var high, low := q / 256, q % 256;
    assert n == p * q + r;
    assert p * q == (256 * p) * high + low * p by {
      assert q == 256 * high + low;
      assert p * q == p * (256 * high + low) == p * (256 * high) + p * low;
    }
    MulMono(p, low, 255);
    DivModUnique(n, 256 * p, high, low * p + r);
  }

  lemma PowEight()
    ensures Pow256(8) == TWO_64
  {
  }

  lemma EightMore(n: nat)
    requires n % BLOCK == 56
    ensures (n + 8) % BLOCK == 0
  {
  }

  lemma PadLength(m: seq<bv8>)
    ensures |Pad(m)| == |m| + 9 + ZeroCount(|m|)
    ensures |Pad(m)| % BLOCK == 0
  {
    hide BigEndian, Zeros, ZeroCount;
    ZeroCountIsLeast(|m|, ZeroCount(|m|));
    EightMore(|m| + 1 + ZeroCount(|m|));
  }

  /** The length field is the length in bits exactly for the messages shorter than 2^61 bytes. */
  lemma LengthFieldExact(m: seq<bv8>)
    ensures |Pad(m)| >= 8
    ensures FromBigEndian(Pad(m)[|Pad(m)| - 8..]) == 8 * |m| <==> |m| < 0x2000_0000_0000_0000
  {
    var bits := 8 * |m|;
    var field := BigEndian(bits % TWO_64, 8);
    assert Pad(m)[|Pad(m)| - 8..] == field;
    BigEndianRoundTrip(bits % TWO_64, 8);
    PowEight();
    assert FromBigEndian(field) == bits % TWO_64;
  }

  /** The chaining value depends only on the blocks it has seen. */
  lemma {:induction false} ChainPrefix(m: seq<bv8>, x: seq<bv8>, n: nat)
    requires BLOCK * n <= |m|
    ensures Chain(m + x, n) == Chain(m, n)
  {
    hide Compress;
    if n > 0 {
      ChainPrefix(m, x, n - 1);
      assert (m + x)[BLOCK * (n - 1)..BLOCK * n] == m[BLOCK * (n - 1)..BLOCK * n];
    }
  }
}
