/** The update manifest: its fields, the decimal form of its version, and the bytes its signature covers. */
module Manifest {
  import opened Bytes
  import opened Numbers
  import opened Options

  datatype UpdateManifest = UpdateManifest(
    name: Text,
    hardwareId: Text,
    version: nat,          // a 64-bit number
    payloadFile: Text,
    payloadSha256: Text,
    signature: Text
  )

  // ---- Decimal numbers ----

  predicate IsDigit(c: byteChar) { '0' <= c <= '9' }

  function Digit(d: nat): byteChar
    requires d < 10
  {
    ('0' as int + d) as char
  }

  function DigitValue(c: byteChar): (d: nat)
    requires IsDigit(c)
    ensures d < 10
  {
    c as int - '0' as int
  }

  function Decimal(n: nat): (t: Text)
    ensures t != []
    ensures forall i :: 0 <= i < |t| ==> IsDigit(t[i])
  {
    if n < 10 then [Digit(n)] else Decimal(n / 10) + [Digit(n % 10)]
  }

  function DecimalValue(t: Text): nat
    requires forall i :: 0 <= i < |t| ==> IsDigit(t[i])
  {
    if t == [] then 0 else 10 * DecimalValue(t[..|t| - 1]) + DigitValue(t[|t| - 1])
  }

  lemma {:induction false} DecimalRoundTrip(n: nat)
    ensures DecimalValue(Decimal(n)) == n
  {
    var t := Decimal(n);
    if n >= 10 {
      assert t[..|t| - 1] == Decimal(n / 10);
      DecimalRoundTrip(n / 10);
    } else {
      assert t[..|t| - 1] == [];
    }
  }

  predicate IsSpace(c: byteChar) {
    c == ' ' || 9 as char <= c <= 13 as char
  }

  /** The text from its first character that is not white space on. */
  function SkipWs(s: Text): (r: Text)
    ensures |r| <= |s| && r == s[|s| - |r|..]
    ensures r == [] || !IsSpace(r[0])
  {
    if s != [] && IsSpace(s[0]) then SkipWs(s[1..]) else s
  }

  /** The digits a text begins with, and what follows them. */
  function Digits(s: Text): (r: (Text, Text))
    ensures s == r.0 + r.1
    ensures forall i :: 0 <= i < |r.0| ==> IsDigit(r.0[i])
    ensures r.1 == [] || !IsDigit(r.1[0])
  {
    if s != [] && IsDigit(s[0]) then
      var (d, rest) := Digits(s[1..]);
      ([s[0]] + d, rest)
    else ([], s)
  }

  /**
    The library conversion to an unsigned 64-bit number: leading white space, an optional sign, digits;
    whatever follows is ignored. It fails without digits or beyond 64 bits; a minus sign negates modulo 2^64.
   */
  function Stoull(t: Text): Option<nat> {
    var s := SkipWs(t);
    var negative := s != [] && s[0] == '-';
    var digits := Digits(if s != [] && (s[0] == '-' || s[0] == '+') then s[1..] else s).0;
    Unsigned(negative, digits)
  }

  /** A row of digits with a sign, as an unsigned 64-bit number. */
  function Unsigned(negative: bool, digits: Text): Option<nat>
    requires forall i :: 0 <= i < |digits| ==> IsDigit(digits[i])
  {
    if digits == [] || DecimalValue(digits) >= TWO_64 then None
    else Some(if negative then (TWO_64 - DecimalValue(digits)) % TWO_64 else DecimalValue(digits))
  }

  lemma UnsignedExactly(negative: bool, d: Text)
    requires d != [] && forall i :: 0 <= i < |d| ==> IsDigit(d[i])
    ensures var n := DecimalValue(d);
            Unsigned(negative, d)
            == if n >= 0x1_0000_0000_0000_0000 then None
               else if negative && n > 0 then Some(0x1_0000_0000_0000_0000 - n) else Some(n)
  {
    hide DecimalValue, IsDigit;
  }

  lemma {:induction false} AllDigits(t: Text)
    requires forall i :: 0 <= i < |t| ==> IsDigit(t[i])
    ensures Digits(t) == (t, [])
  {
    if t != [] {
      AllDigits(t[1..]);
      assert t == [t[0]] + t[1..];
    }
  }

  lemma DigitStart(t: Text)
    requires t != [] && IsDigit(t[0])
    ensures SkipWs(t) == t && t[0] != '-' && t[0] != '+'
  {
  }

  /** Decimal notation: one digit below ten, and otherwise the notation of the tens with one digit more. */
  lemma DecimalDigits(n: nat, d: nat)
    requires d < 10
    ensures Decimal(d) == ["0123456789"[d]]
    ensures n > 0 ==> Decimal(10 * n + d) == Decimal(n) + ["0123456789"[d]]
    ensures DigitValue("0123456789"[d]) == d
  {
  }

  /** Space, tab, line feed, vertical tab, form feed and carriage return are white space, and nothing else is. */
  lemma WhiteSpace(c: byteChar)
    ensures IsSpace(c) <==> c as int in {0x20, 0x09, 0x0A, 0x0B, 0x0C, 0x0D}
  {
  }

  /**
    The library conversion on every text of white space, a sign, digits and a rest that does not begin with a digit.
   */
  lemma StoullExactly(w: Text, sign: Text, d: Text, rest: Text)
    requires forall i :: 0 <= i < |w| ==> IsSpace(w[i])
    requires forall i :: 0 <= i < |d| ==> IsDigit(d[i])
    requires sign in {"", "+", "-"} && d != []
    requires rest == [] || !IsDigit(rest[0])
    ensures var n := DecimalValue(d);
            Stoull(w + (sign + (d + rest)))
            == if n >= 0x1_0000_0000_0000_0000 then None
               else if sign == "-" && n > 0 then Some(0x1_0000_0000_0000_0000 - n) else Some(n)
  {
    hide SkipWs, Digits, DecimalValue, IsSpace, Stoull, Unsigned;
    var s := sign + (d + rest);
    SignIsNoSpace(sign, d, rest);
    SpaceSkipped(w, s);
    DigitsThenRest(d, rest);
    assert sign == "" ==> s == d + rest;
    assert sign != "" ==> s[1..] == d + rest;
    StoullParts(w + s, s, d, rest);
    UnsignedExactly(sign == "-", d);
  }

  lemma StoullParts(t: Text, s: Text, d: Text, rest: Text)
    requires SkipWs(t) == s != [] && d != [] && forall i :: 0 <= i < |d| ==> IsDigit(d[i])
    requires Digits(if s[0] == '-' || s[0] == '+' then s[1..] else s) == (d, rest)
    ensures Stoull(t) == Unsigned(s[0] == '-', d)
  {
    hide SkipWs, Digits, Unsigned, IsDigit;
  }

  lemma SignIsNoSpace(sign: Text, d: Text, rest: Text)
    requires sign in {"", "+", "-"} && d != [] && IsDigit(d[0])
    ensures var s := sign + (d + rest);
            && s != [] && !IsSpace(s[0]) && (s[0] == '-' <==> sign == "-") && (s[0] == '+' <==> sign == "+")
  {
    assert sign == "" || sign == "+" || sign == "-";
  }

  lemma {:induction false} SpaceSkipped(w: Text, s: Text)
    requires forall i :: 0 <= i < |w| ==> IsSpace(w[i])
    requires s != [] && !IsSpace(s[0])
    ensures SkipWs(w + s) == s
  {
    if w == [] {
      assert w + s == s;
    } else {
      assert (w + s)[1..] == w[1..] + s;
      SpaceSkipped(w[1..], s);
    }
  }

  lemma {:induction false} DigitsThenRest(d: Text, rest: Text)
    requires forall i :: 0 <= i < |d| ==> IsDigit(d[i])
    requires rest == [] || !IsDigit(rest[0])
    ensures Digits(d + rest) == (d, rest)
  {
    if d == [] {
      assert d + rest == rest;
    } else {
      assert (d + rest)[1..] == d[1..] + rest;
      assert d == [d[0]] + d[1..];
      DigitsThenRest(d[1..], rest);
    }
  }

  /** Reading back a printed 64-bit number. */
  lemma StoullOfDecimal(n: nat)
    requires n < TWO_64
    ensures Stoull(Decimal(n)) == Some(n)
  {
    hide Decimal, SkipWs, IsDigit, DecimalValue, Digits;
    var t := Decimal(n);
    DigitStart(t);
    AllDigits(t);
    DecimalRoundTrip(n);
  }

  // ---- Canonical bytes ----

  const NEWLINE: byteChar := '\n'
  const NAME_TAG: Text := "name="
  const HARDWARE_TAG: Text := "hardware_id="
  const VERSION_TAG: Text := "version="
  const FILE_TAG: Text := "payload_file="
  const DIGEST_TAG: Text := "payload_sha256="

  function Line(tag: Text, value: Text): Text {
    tag + value + [NEWLINE]
  }

  /** The canonical text: five lines in a fixed order. */
  function CanonicalText(m: UpdateManifest): Text {
    Line(NAME_TAG, m.name) + (Line(HARDWARE_TAG, m.hardwareId) + (Line(VERSION_TAG, Decimal(m.version))
    + (Line(FILE_TAG, m.payloadFile) + Line(DIGEST_TAG, m.payloadSha256))))
  }

  /** The canonical text, spelled out. */
  lemma CanonicalTextExactly(m: UpdateManifest)
    ensures CanonicalText(m)
         == "name=" + m.name + "\n" + "hardware_id=" + m.hardwareId + "\n" + "version=" + Decimal(m.version) + "\n"
            + "payload_file=" + m.payloadFile + "\n" + "payload_sha256=" + m.payloadSha256 + "\n"
  {
    hide Decimal;
  }

  function ToBytes(t: Text): (b: seq<bv8>)
    ensures |b| == |t|
  {
    seq(|t|, i requires 0 <= i < |t| => (t[i] as int) as bv8)
  }

  function CanonicalBytes(m: UpdateManifest): seq<bv8> {
    ToBytes(CanonicalText(m))
  }

  /** The signed bytes are the characters of the canonical text, one by one. */
  lemma CanonicalByte(m: UpdateManifest, i: nat)
    requires i < |CanonicalText(m)|
    ensures |CanonicalBytes(m)| == |CanonicalText(m)| && CanonicalBytes(m)[i] as int == CanonicalText(m)[i] as int
  {
    hide CanonicalText;
    ByteValue(CanonicalText(m)[i] as int);
  }

  lemma ToBytesInjective(s: Text, t: Text)
    requires ToBytes(s) == ToBytes(t)
    ensures s == t
  {
    assert |s| == |ToBytes(s)| == |ToBytes(t)| == |t|;
    forall i | 0 <= i < |s|
      ensures s[i] == t[i]
    {
      assert ToBytes(s)[i] == ToBytes(t)[i];
      ByteValue(s[i] as int);
      ByteValue(t[i] as int);
    }
  }

  predicate OneLine(t: Text) { NEWLINE !in t }

  /** What stands before the first newline is determined, and so is what follows it. */
  lemma FirstLine(a: Text, x: Text, b: Text, y: Text)
    requires OneLine(a) && OneLine(b) && a + [NEWLINE] + x == b + [NEWLINE] + y
    ensures a == b && x == y
  {
    var s, t := a + [NEWLINE] + x, b + [NEWLINE] + y;
    assert s[|a|] == NEWLINE && t[|b|] == NEWLINE;
    assert forall i :: 0 <= i < |a| ==> s[i] == a[i];
    assert forall i :: 0 <= i < |b| ==> t[i] == b[i];
    assert a == s[..|a|] && b == t[..|b|];
    assert x == s[|a| + 1..] && y == t[|b| + 1..];
  }

  lemma SameLine(tag: Text, u: Text, x: Text, v: Text, y: Text)
    requires OneLine(u) && OneLine(v) && Line(tag, u) + x == Line(tag, v) + y
    ensures u == v && x == y
  {
    var s, t := Line(tag, u) + x, Line(tag, v) + y;
    assert s[|tag|..] == u + [NEWLINE] + x;
    assert t[|tag|..] == v + [NEWLINE] + y;
    FirstLine(u, x, v, y);
  }

  lemma DecimalOneLine(n: nat)
    ensures OneLine(Decimal(n))
  {
    assert !IsDigit(NEWLINE);
  }

  /**
    Equal signed bytes mean equal signed fields, for manifests whose first three text fields hold no newline.
   */
  lemma CanonicalBytesInjective(m: UpdateManifest, n: UpdateManifest)
    requires OneLine(m.name) && OneLine(m.hardwareId) && OneLine(m.payloadFile)
    requires OneLine(n.name) && OneLine(n.hardwareId) && OneLine(n.payloadFile)
    requires CanonicalBytes(m) == CanonicalBytes(n)
    ensures m.(signature := n.signature) == n
  {
    hide Line, OneLine, Decimal;
    ToBytesInjective(CanonicalText(m), CanonicalText(n));
    var m4, n4 := Line(DIGEST_TAG, m.payloadSha256), Line(DIGEST_TAG, n.payloadSha256);
    var m3, n3 := Line(FILE_TAG, m.payloadFile) + m4, Line(FILE_TAG, n.payloadFile) + n4;
    var m2, n2 := Line(VERSION_TAG, Decimal(m.version)) + m3, Line(VERSION_TAG, Decimal(n.version)) + n3;
    var m1, n1 := Line(HARDWARE_TAG, m.hardwareId) + m2, Line(HARDWARE_TAG, n.hardwareId) + n2;
    SameLine(NAME_TAG, m.name, m1, n.name, n1);
    SameLine(HARDWARE_TAG, m.hardwareId, m2, n.hardwareId, n2);
    DecimalOneLine(m.version);
    DecimalOneLine(n.version);
    SameLine(VERSION_TAG, Decimal(m.version), m3, Decimal(n.version), n3);
    DecimalRoundTrip(m.version);
    DecimalRoundTrip(n.version);
    SameLine(FILE_TAG, m.payloadFile, m4, n.payloadFile, n4);
    LastLine(m.payloadSha256, n.payloadSha256);
  }

  lemma LastLine(u: Text, v: Text)
    requires Line(DIGEST_TAG, u) == Line(DIGEST_TAG, v)
    ensures u == v
  {
    var k := |DIGEST_TAG|;
    assert u == Line(DIGEST_TAG, u)[k..k + |u|];
    assert v == Line(DIGEST_TAG, v)[k..k + |v|];
    assert |Line(DIGEST_TAG, u)| == |Line(DIGEST_TAG, v)|;
  }
}
