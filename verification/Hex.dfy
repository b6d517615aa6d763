/** Hexadecimal text: the encoder of the hasher and the decoder of the signature stage. */
module Hex {
  import opened Bytes

  const DIGITS: Text := "0123456789abcdef"

  function HexDigit(n: nat): byteChar
    requires n < 16
  {
    DIGITS[n]
  }

  function HexByte(b: bv8): (t: Text)
    ensures |t| == 2
  {
    Nibbles(b);
    [HexDigit((b >> 4) as int), HexDigit((b & 0x0F) as int)]
  }

  function HexOf(d: seq<bv8>): (t: Text)
    ensures |t| == 2 * |d|
  {
    if d == [] then [] else HexOf(d[..|d| - 1]) + HexByte(d[|d| - 1])
  }

  /** Letters A to F in lower case; every other character unchanged. */
  function LowerHex(c: byteChar): byteChar {
    if 'A' <= c <= 'F' then (c as int - 'A' as int + 'a' as int) as char else c
  }

  function LowerText(t: Text): (r: Text)
    ensures |r| == |t|
  {
    seq(|t|, i requires 0 <= i < |t| => LowerHex(t[i]))
  }

  /** The value of a hexadecimal digit of either case, or -1. */
  function Nibble(c: byteChar): (n: int)
    ensures -1 <= n < 16
  {
    if '0' <= c <= '9' then c as int - '0' as int
    else if 'a' <= c <= 'f' then c as int - 'a' as int + 10
    else if 'A' <= c <= 'F' then c as int - 'A' as int + 10
    else -1
  }

  lemma NibbleOfDigit(c: byteChar, n: nat)
    requires n < 16
    ensures Nibble(c) == n <==> LowerHex(c) == HexDigit(n)
  {
  }

  method ToHex(d: seq<bv8>) returns (out: Text)
    ensures out == HexOf(d)
  {
    hide HexDigit;
    out := [];
    for i := 0 to |d|
      invariant out == HexOf(d[..i])
    {
      ghost var before := out;
      Nibbles(d[i]);
      out := out + [HexDigit((d[i] >> 4) as int)];
      out := out + [HexDigit((d[i] & 0x0F) as int)];
      assert out == before + HexByte(d[i]);
      assert d[..i + 1][..i] == d[..i];
    }
    assert d[..|d|] == d;
  }

  function Join(hi: int, lo: int): bv8
    requires 0 <= hi < 16 && 0 <= lo < 16
  {
    ((hi as bv8) << 4) | (lo as bv8)
  }

  lemma JoinDecodes(hi: byteChar, lo: byteChar, b: bv8)
    ensures Nibble(hi) >= 0 && Nibble(lo) >= 0 && Join(Nibble(hi), Nibble(lo)) == b
       <==> [LowerHex(hi), LowerHex(lo)] == HexByte(b)
  {
    Nibbles(b);
    NibbleOfDigit(hi, (b >> 4) as int);
    NibbleOfDigit(lo, (b & 0x0F) as int);
    if Nibble(hi) >= 0 && Nibble(lo) >= 0 {
      JoinValue(Nibble(hi), Nibble(lo), b);
    }
  }

  lemma JoinNumber(hi: nat, lo: nat)
    requires hi < 16 && lo < 16
    ensures Join(hi, lo) as int == 16 * hi + lo
  {
    ByteValue(hi);
    ByteValue(lo);
    JoinNibbles(hi as bv8, lo as bv8);
  }

  lemma JoinValue(hi: nat, lo: nat, b: bv8)
    requires hi < 16 && lo < 16
    ensures Join(hi, lo) == b <==> hi == (b >> 4) as int && lo == (b & 0x0F) as int
  {
    JoinNumber(hi, lo);
    Nibbles(b);
    ValueByte(b);
    ValueByte(Join(hi, lo));
    hide Join;
  }

  predicate IsHex(t: Text) {
    forall i :: 0 <= i < |t| ==> Nibble(t[i]) >= 0
  }

  /**
    The decoding loop of the signature stage: either some character is not a digit, or the text is, up to
    letter case, the encoding of the bytes returned.
   */
  method Decode(t: Text, n: nat) returns (ok: bool, d: seq<bv8>)
    requires |t| == 2 * n
    ensures ok <==> IsHex(t)
    ensures ok ==> |d| == n && LowerText(t) == HexOf(d)
    ensures !ok ==> forall e: seq<bv8> :: |e| == n ==> LowerText(t) != HexOf(e)
  {
    hide Nibble, Join, HexByte, LowerHex;
    d := [];
    for i := 0 to n
      invariant |d| == i
      invariant LowerText(t)[..2 * i] == HexOf(d)
      invariant IsHex(t[..2 * i])
    {
      var hi := Nibble(t[i * 2]);
      var lo := Nibble(t[i * 2 + 1]);
      if hi < 0 || lo < 0 {
        forall e: seq<bv8> | |e| == n
          ensures LowerText(t) != HexOf(e)
        {
          HexOfAt(e, i);
          JoinDecodes(t[i * 2], t[i * 2 + 1], e[i]);
        }
        return false, d;
      }
      JoinDecodes(t[i * 2], t[i * 2 + 1], Join(hi, lo));
      ghost var before := d;
      d := d + [Join(hi, lo)];
      assert d[..i] == before;
    }
    ok := true;
  }

  lemma {:induction false} HexOfAt(d: seq<bv8>, i: nat)
    requires i < |d|
    ensures HexOf(d)[2 * i..2 * i + 2] == HexByte(d[i])
  {
    hide HexByte;
    var n := |d| - 1;
    var init := HexOf(d[..n]);
    assert HexOf(d) == init + HexByte(d[n]) && |init| == 2 * n;
    if i < n {
      HexOfAt(d[..n], i);
      assert HexOf(d)[2 * i..2 * i + 2] == init[2 * i..2 * i + 2];
    } else {
      assert HexOf(d)[2 * n..2 * n + 2] == HexByte(d[n]);
    }
  }

  /** Each byte becomes two lower-case digits, the high half first. */
  lemma HexCharacters(d: seq<bv8>, i: nat)
    requires i < |d|
    ensures HexOf(d)[2 * i] == "0123456789abcdef"[d[i] as int / 16]
    ensures HexOf(d)[2 * i + 1] == "0123456789abcdef"[d[i] as int % 16]
  {
    HexByteCharacters(d[i]);
    hide HexOf, HexByte;
    HexOfAt(d, i);
    assert HexOf(d)[2 * i..2 * i + 2][0] == HexOf(d)[2 * i];
    assert HexOf(d)[2 * i..2 * i + 2][1] == HexOf(d)[2 * i + 1];
  }

  lemma HexByteCharacters(b: bv8)
    ensures 0 <= b as int < 256
    ensures HexByte(b)[0] == "0123456789abcdef"[b as int / 16] && HexByte(b)[1] == "0123456789abcdef"[b as int % 16]
  {
    ValueByte(b);
    Nibbles(b);
  }

  /** The digits a signature may use, of either case, and their values; every other character is refused. */
  lemma DigitValues(c: byteChar, n: nat)
    requires n < 16
    ensures Nibble(c) == n <==> c == "0123456789abcdef"[n] || c == "0123456789ABCDEF"[n]
    ensures LowerHex("0123456789ABCDEF"[n]) == "0123456789abcdef"[n]
  {
  }

  /** Equal encodings come from equal bytes. */
  lemma HexInjective(d: seq<bv8>, e: seq<bv8>)
    requires HexOf(d) == HexOf(e)
    ensures d == e
  {
    forall i | 0 <= i < |d|
      ensures d[i] == e[i]
    {
      HexOfAt(d, i);
      HexOfAt(e, i);
      HexByteInjective(d[i], e[i]);
    }
  }

  lemma HexByteInjective(b: bv8, c: bv8)
    requires HexByte(b) == HexByte(c)
    ensures b == c
  {
    hide Nibble, Join;
    var t := HexByte(b);
    DigitsAreLower(b);
    assert [t[0], t[1]] == t;
    JoinDecodes(t[0], t[1], b);
    JoinDecodes(t[0], t[1], c);
  }

  lemma DigitsAreLower(b: bv8)
    ensures LowerHex(HexByte(b)[0]) == HexByte(b)[0] && LowerHex(HexByte(b)[1]) == HexByte(b)[1]
  {
    Nibbles(b);
    DigitIsLower((b >> 4) as int);
    DigitIsLower((b & 0x0F) as int);
  }

  lemma DigitIsLower(n: nat)
    requires n < 16
    ensures LowerHex(HexDigit(n)) == HexDigit(n)
  {
  }

  /** Encoded bytes are in lower case already. */
  lemma EncodingIsLower(d: seq<bv8>)
    ensures LowerText(HexOf(d)) == HexOf(d)
  {
    var t := HexOf(d);
    hide HexByte, LowerHex, HexOf;
    forall i | 0 <= i < |t|
      ensures LowerHex(t[i]) == t[i]
    {
      var k := i / 2;
      HexOfAt(d, k);
      DigitsAreLower(d[k]);
      assert t[2 * k..2 * k + 2][i - 2 * k] == t[i];
    }
  }
}
