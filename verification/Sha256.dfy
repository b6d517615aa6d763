/**
  The streaming SHA-256 hasher: an object with a 64-byte buffer that is fed in pieces of any length.
  The ghost field `msg` is the message absorbed so far; `Absorbed` ties the real fields to it.
 */
module Sha256Hasher {
  import opened Fips180
  import opened Numbers

  // The four mixing expressions as the hasher computes them: each rotation is a pair of shifts.

  function ScheduleS0(x: bv32): (r: bv32)
    ensures r == SmallSigma0(x)
  {
    ((x >> 7) | (x << 25)) ^ ((x >> 18) | (x << 14)) ^ (x >> 3)
  }

  function ScheduleS1(x: bv32): (r: bv32)
    ensures r == SmallSigma1(x)
  {
    ((x >> 17) | (x << 15)) ^ ((x >> 19) | (x << 13)) ^ (x >> 10)
  }

  function RoundS1(e: bv32): (r: bv32)
    ensures r == BigSigma1(e)
  {
    ((e >> 6) | (e << 26)) ^ ((e >> 11) | (e << 21)) ^ ((e >> 25) | (e << 7))
  }

  function RoundS0(a: bv32): (r: bv32)
    ensures r == BigSigma0(a)
  {
    ((a >> 2) | (a << 30)) ^ ((a >> 13) | (a << 19)) ^ ((a >> 22) | (a << 10))
  }

  lemma FirstWord(block: seq<bv8>, w: seq<bv32>)
    requires |block| == BLOCK && |w| < 16
    ensures var t := |w|;
            NextWord(block, w) == ((block[t * 4] as bv32) << 24) | ((block[t * 4 + 1] as bv32) << 16) |
                                  ((block[t * 4 + 2] as bv32) << 8) | (block[t * 4 + 3] as bv32)
  {
  }

  /** The four terms of a schedule word, in the order the hasher adds them. */
  function ScheduleSum(w16: bv32, s0: bv32, w7: bv32, s1: bv32): (r: bv32)
    ensures r == Sum4(s1, w7, s0, w16)
  {
    w16 + s0 + w7 + s1
  }

  lemma LaterWord(block: seq<bv8>, w: seq<bv32>)
    requires |block| == BLOCK && 16 <= |w| < 64
    ensures NextWord(block, w) == ScheduleSum(w[|w| - 16], ScheduleS0(w[|w| - 15]), w[|w| - 7], ScheduleS1(w[|w| - 2]))
  {
    hide ScheduleSum, Sum4, ScheduleS0, ScheduleS1, SmallSigma0, SmallSigma1, BlockWord;
  }

  function VarsOf(h: seq<bv32>): Vars
    requires |h| == 8
  {
    Vars(h[0], h[1], h[2], h[3], h[4], h[5], h[6], h[7])
  }

  /** The bytes of a message after its last full block. */
  function Leftover(m: seq<bv8>): (r: seq<bv8>)
    ensures |r| == |m| % BLOCK
  {
    m[BLOCK * (|m| / BLOCK)..]
  }

  lemma BlockCount(n: nat, k: nat)
    requires n % BLOCK + k <= BLOCK
    ensures (n + k) / BLOCK == if n % BLOCK + k < BLOCK then n / BLOCK else n / BLOCK + 1
    ensures n % BLOCK + k < BLOCK ==> (n + k) % BLOCK == n % BLOCK + k
    ensures n % BLOCK + k == BLOCK ==> (n + k) % BLOCK == 0
  {
  }

  lemma AppendInsideBlock(m: seq<bv8>, x: seq<bv8>)
    requires |Leftover(m)| + |x| < BLOCK
    ensures |m + x| / BLOCK == |m| / BLOCK
    ensures Leftover(m + x) == Leftover(m) + x
    ensures Chain(m + x, |m + x| / BLOCK) == Chain(m, |m| / BLOCK)
  {
    hide Chain;
    BlockCount(|m|, |x|);
    ChainPrefix(m, x, |m| / BLOCK);
  }

  lemma AppendFillsBlock(m: seq<bv8>, x: seq<bv8>)
    requires |Leftover(m)| + |x| == BLOCK
    ensures |m + x| / BLOCK == |m| / BLOCK + 1
    ensures Leftover(m + x) == []
    ensures Chain(m + x, |m + x| / BLOCK) == Compress(Chain(m, |m| / BLOCK), Leftover(m) + x)
  {
    hide Compress;
    var n := |m| / BLOCK;
    BlockCount(|m|, |x|);
    ChainPrefix(m, x, n);
    assert (m + x)[BLOCK * n..BLOCK * (n + 1)] == Leftover(m) + x;
  }

  lemma LengthByte(n: nat, i: nat)
    requires i < 8
    ensures BigEndian(n, 8)[7 - i] == ((n / Pow256(i)) % 256) as bv8
  {
  }

  lemma BitLength(n: nat)
    ensures n % TWO_64 * 8 % TWO_64 == 8 * n % TWO_64
  {
    var q, r := n / TWO_64, n % TWO_64;
    assert 8 * n == 8 * q * TWO_64 + 8 * r;
  }

  lemma ZeroCountReached(len: nat, n: nat)
    requires n <= ZeroCount(len)
    ensures n == ZeroCount(len) <==> (len + 1 + n) % BLOCK == 56
  {
  }

  lemma ZerosStep(n: nat)
    ensures Zeros(0) == []
    ensures Zeros(n + 1) == Zeros(n) + [0]
  {
  }

  lemma SliceStep(s: seq<bv8>, i: nat, k: nat)
    requires i + k <= |s|
    ensures s[..i + k] == s[..i] + s[i..i + k]
  {
  }

  lemma CountStep(n: nat, k: nat)
    ensures (n % TWO_64 + k) % TWO_64 == (n + k) % TWO_64
  {
  }

  class Sha256 {
    const h: array<bv32>
    const buf: array<bv8>
    var bufLen: nat
    var totalLen: nat  // a 64-bit counter
    ghost var msg: seq<bv8>

    /** The chaining value and the buffer are those of `msg`. */
    ghost predicate Absorbed()
      reads this, h, buf
    {
      && h.Length == 8 && buf.Length == BLOCK
      && totalLen < TWO_64
      && bufLen == |msg| % BLOCK
      && VarsOf(h[..]) == Chain(msg, |msg| / BLOCK)
      && buf[..bufLen] == Leftover(msg)
    }

    /** Ready for more data: the byte counter, too, is that of `msg`. */
    ghost predicate Valid()
      reads this, h, buf
    {
      Absorbed() && totalLen == |msg| % TWO_64
    }

    constructor ()
      ensures Valid() && msg == []
      ensures fresh(h) && fresh(buf)
    {
      h := new bv32[8] [0x6a09e667, 0xbb67ae85, 0x3c6ef372, 0xa54ff53a, 0x510e527f, 0x9b05688c, 0x1f83d9ab, 0x5be0cd19];
      buf := new bv8[BLOCK];
      bufLen := 0;
      totalLen := 0;
      msg := [];
    }

    method Reset()
      requires h.Length == 8 && buf.Length == BLOCK
      modifies this, h
      ensures Valid() && msg == []
    {
      h[0], h[1], h[2], h[3] := 0x6a09e667, 0xbb67ae85, 0x3c6ef372, 0xa54ff53a;
      h[4], h[5], h[6], h[7] := 0x510e527f, 0x9b05688c, 0x1f83d9ab, 0x5be0cd19;
      bufLen := 0;
      totalLen := 0;
      msg := [];
    }

    /** The message schedule, computed in place in a 64-word array. */
    static method ExpandSchedule(p: array<bv8>) returns (w: array<bv32>)
      requires p.Length == BLOCK
      ensures fresh(w) && w.Length == 64 && w[..] == Schedule(p[..])
    {
      hide NextWord, ScheduleSum, Sum4, ScheduleS0, ScheduleS1, SmallSigma0, SmallSigma1;
      ghost var block := p[..];
      w := new bv32[64];
      for i := 0 to 16
        invariant p[..] == block
        invariant CompleteSchedule(block, w[..i]) == Schedule(block)
      {
        ghost var done := w[..i];
        w[i] := ((p[i * 4] as bv32) << 24) | ((p[i * 4 + 1] as bv32) << 16) |
                ((p[i * 4 + 2] as bv32) << 8) | (p[i * 4 + 3] as bv32);
        FirstWord(block, done);
        assert w[..i + 1] == done + [NextWord(block, done)];
      }
      for i := 16 to 64
        invariant p[..] == block
        invariant CompleteSchedule(block, w[..i]) == Schedule(block)
      {
        ghost var done := w[..i];
        var s0 := ScheduleS0(w[i - 15]);
        var s1 := ScheduleS1(w[i - 2]);
        LaterWord(block, done);
        w[i] := ScheduleSum(w[i - 16], s0, w[i - 7], s1);
        assert w[..i + 1] == done + [NextWord(block, done)];
      }
      assert w[..] == w[..64];
    }

    method ProcessBlock(p: array<bv8>)
      requires h.Length == 8 && p.Length == BLOCK
      modifies h
      ensures VarsOf(h[..]) == Compress(old(VarsOf(h[..])), old(p[..]))
    {
      hide Schedule, Add, Ch, Maj, RoundS0, RoundS1, BigSigma0, BigSigma1, K;
      var w := ExpandSchedule(p);
      var a, b, c, d := h[0], h[1], h[2], h[3];
      var e, f, g, hh := h[4], h[5], h[6], h[7];
      ghost var start, words := VarsOf(h[..]), w[..];
      for i := 0 to 64
        invariant w[..] == words
        invariant Vars(a, b, c, d, e, f, g, hh) == Rounds(start, words[..i])
      {
        assert words[..i + 1][..i] == words[..i];
        var bigS1 := RoundS1(e);
        var ch := Ch(e, f, g);
        var t1 := Add(Add(Add(Add(hh, bigS1), ch), K(i)), w[i]);
        var bigS0 := RoundS0(a);
        var maj := Maj(a, b, c);
        var t2 := Add(bigS0, maj);
        hh := g; g := f; f := e; e := Add(d, t1);
        d := c; c := b; b := a; a := Add(t1, t2);
      }
      assert words[..64] == words;
      h[0], h[1], h[2], h[3] := Add(h[0], a), Add(h[1], b), Add(h[2], c), Add(h[3], d);
      h[4], h[5], h[6], h[7] := Add(h[4], e), Add(h[5], f), Add(h[6], g), Add(h[7], hh);
    }

    /** The loop body of `Update`: bytes that fit into the buffer, and the block they may complete. */
    method AbsorbPiece(piece: seq<bv8>)
      requires Absorbed() && bufLen + |piece| <= BLOCK
      modifies this, h, buf
      ensures Absorbed() && msg == old(msg) + piece && totalLen == old(totalLen)
    {
      hide Chain, Compress;
      ghost var before := msg;
      forall k | 0 <= k < |piece| {
        buf[bufLen + k] := piece[k];
      }
      bufLen := bufLen + |piece|;
      assert buf[..bufLen] == Leftover(before) + piece;
      msg := msg + piece;
      if bufLen == BLOCK {
        AppendFillsBlock(before, piece);
        assert buf[..] == buf[..BLOCK];
        ProcessBlock(buf);
        bufLen := 0;
      } else {
        AppendInsideBlock(before, piece);
      }
    }

    method Update(data: seq<bv8>)
      requires Absorbed()
      modifies this, h, buf
      ensures Absorbed() && msg == old(msg) + data
      ensures totalLen == (old(totalLen) + |data|) % TWO_64
      ensures old(Valid()) ==> Valid()
    {
      hide Chain, Leftover, VarsOf;
      totalLen := (totalLen + |data|) % TWO_64;
      ghost var total := totalLen;
      var pos := 0;
      while pos < |data|
        invariant 0 <= pos <= |data|
        invariant Absorbed() && msg == old(msg) + data[..pos] && totalLen == total
      {
        var take := if |data| - pos < BLOCK - bufLen then |data| - pos else BLOCK - bufLen;
        SliceStep(data, pos, take);
        AbsorbPiece(data[pos..pos + take]);
        pos := pos + take;
      }
      assert data[..|data|] == data;
      CountStep(|old(msg)|, |data|);
    }

    /** One padding byte: absorbed like data, but taken off the byte counter again. */
    method AppendUncounted(b: bv8)
      requires Absorbed()
      modifies this, h, buf
      ensures Absorbed() && msg == old(msg) + [b] && totalLen == old(totalLen)
    {
      hide Chain, Leftover, VarsOf;
      Update([b]);
      totalLen := (totalLen + TWO_64 - 1) % TWO_64;
    }

    /** The first part of `Finish`: a 1 bit, then zero bytes until eight bytes are free. */
    method AppendPadding()
      requires Absorbed()
      modifies this, h, buf
      ensures Absorbed() && bufLen == 56 && totalLen == old(totalLen)
      ensures msg == old(msg) + [0x80] + Zeros(ZeroCount(|old(msg)|))
    {
      hide Chain, Absorbed, ZeroCount, Zeros;
      AppendUncounted(0x80);
      ghost var n, len := 0, |old(msg)|;
      AbsorbedLength();
      ZerosStep(0);
      while bufLen != 56
        invariant Absorbed() && n <= ZeroCount(len) && bufLen == (len + 1 + n) % BLOCK
        invariant msg == old(msg) + [0x80] + Zeros(n)
        invariant totalLen == old(totalLen)
        decreases ZeroCount(len) - n
      {
        ZeroCountReached(len, n);
        AppendUncounted(0x00);
        AbsorbedLength();
        ZerosStep(n);
        n := n + 1;
      }
      ZeroCountReached(len, n);
    }

    lemma AbsorbedLength()
      requires Absorbed()
      ensures bufLen == |msg| % BLOCK
    {
    }

    /** The second part of `Finish`: the length field, written straight into the buffer. */
    method AppendLength(bitLen: nat)
      requires Absorbed() && bufLen == 56
      modifies this, h, buf
      ensures Absorbed() && msg == old(msg) + BigEndian(bitLen, 8) && totalLen == old(totalLen)
    {
      hide Chain, Compress, BigEndian, Pow256;
      ghost var tail, field := Leftover(msg), BigEndian(bitLen, 8);
      ghost var chain := VarsOf(h[..]);
      var i := 7;
      while i >= 0
        invariant -1 <= i <= 7
        invariant totalLen == old(totalLen) && msg == old(msg)
        invariant i >= 0 ==> bufLen == 63 - i && VarsOf(h[..]) == chain
        invariant i >= 0 ==> buf[..bufLen] == tail + field[..7 - i]
        invariant i < 0 ==> bufLen == 0 && VarsOf(h[..]) == Compress(chain, tail + field)
      {
        var b := ((bitLen / Pow256(i)) % 256) as bv8;
        LengthByte(bitLen, i);
        buf[bufLen] := b;
        bufLen := bufLen + 1;
        assert field[..8 - i] == field[..7 - i] + [b];
        assert buf[..bufLen] == tail + field[..8 - i];
        if bufLen == BLOCK {
          assert field[..8] == field;
          assert buf[..] == buf[..BLOCK];
          ProcessBlock(buf);
          bufLen := 0;
        }
        i := i - 1;
      }
      AppendFillsBlock(msg, field);
      msg := msg + field;
    }

    /**
      The digest of the message absorbed, when the byte counter is that of the message. A hasher that was finished
      before and not reset goes on from its padded message, with a length field from its old counter.
     */
    method Finish() returns (out: array<bv8>)
      requires Absorbed()
      modifies this, h, buf
      ensures fresh(out) && Absorbed() && totalLen == old(totalLen)
      ensures msg == PadWith(old(msg), 8 * old(totalLen) % TWO_64)
      ensures out[..] == Serialize(Chain(msg, |msg| / BLOCK))
      ensures old(Valid()) ==> msg == Pad(old(msg)) && out[..] == Digest(old(msg))
    {
      hide Chain, Leftover, BigEndian, Zeros;
      var bitLen := totalLen * 8 % TWO_64;
      BitLength(|msg|);
      AppendPadding();
      AppendLength(bitLen);
      hide VarsOf;
      out := SerializeWords();
    }

    static method StoreWord(out: array<bv8>, i: nat, w: bv32)
      requires out.Length == 32 && i < 8
      modifies out
      ensures out[4 * i..4 * i + 4] == WordBytes(w)
      ensures forall k :: 0 <= k < 32 && !(4 * i <= k < 4 * i + 4) ==> out[k] == old(out[k])
    {
      out[i * 4 + 0] := ((w >> 24) & 0xFF) as bv8;
      out[i * 4 + 1] := ((w >> 16) & 0xFF) as bv8;
      out[i * 4 + 2] := ((w >> 8) & 0xFF) as bv8;
      out[i * 4 + 3] := (w & 0xFF) as bv8;
    }

    method SerializeWords() returns (out: array<bv8>)
      requires h.Length == 8
      ensures fresh(out) && out[..] == Serialize(VarsOf(h[..]))
    {
      hide WordBytes;
      out := new bv8[32];
      for i := 0 to 8
        invariant forall j :: 0 <= j < i ==> out[4 * j..4 * j + 4] == WordBytes(h[j])
      {
        ghost var before := out[..];
        StoreWord(out, i, h[i]);
        forall j | 0 <= j < i
          ensures out[4 * j..4 * j + 4] == WordBytes(h[j])
        {
          assert out[4 * j..4 * j + 4] == before[4 * j..4 * j + 4];
        }
      }
      assert out[..] == out[0..4] + out[4..8] + out[8..12] + out[12..16] +
                        out[16..20] + out[20..24] + out[24..28] + out[28..32];
    }

    static method DigestOf(data: seq<bv8>) returns (out: array<bv8>)
      ensures fresh(out) && out[..] == Digest(data)
    {
      var s := new Sha256();
      if data != [] {
        s.Update(data);
      }
      assert s.msg == data;
      out := s.Finish();
    }
  }
}
