/**
  A printer for flat JSON manifests that escapes nothing but the quote, with the members in any order and any
  white space between tokens; the proof that the parser inverts it, and that it accepts nothing else.
 */
module ManifestPrinter {
  import opened Bytes
  import opened Manifest
  import opened ManifestParser
  import opened Numbers
  import opened Options

  datatype Value = Quoted(text: Text) | Bare(text: Text)

  /** A member and the white space before its key, before and after its colon, and after its value. */
  datatype Entry = Entry(w0: Text, key: Text, w1: Text, w2: Text, value: Value, w3: Text)

  function Escape(t: Text): Text {
    if t == [] then [] else (if t[0] == QUOTE then [BACKSLASH, QUOTE] else [t[0]]) + Escape(t[1..])
  }

  function Quote(t: Text): Text {
    [QUOTE] + Escape(t) + [QUOTE]
  }

  function PrintValue(v: Value): Text {
    if v.Quoted? then Quote(v.text) else v.text
  }

  function PrintEntry(e: Entry): Text {
    e.w0 + (Quote(e.key) + (e.w1 + ([':'] + (e.w2 + (PrintValue(e.value) + e.w3)))))
  }

  /** How a list of members ends: with the brace, or with a last comma (or no member at all) and white space. */
  datatype Ending = Closed | Dangling(w: Text)

  /** The members, separated by commas, and the closing brace. */
  function PrintMembers(es: seq<Entry>, end: Ending): Text {
    if es == [] then (if end.Dangling? then end.w else []) + ['}']
    else PrintEntry(es[0]) + if |es| == 1 && end.Closed? then ['}'] else [','] + PrintMembers(es[1..], end)
  }

  predicate White(t: Text) { forall i :: 0 <= i < |t| ==> IsSpace(t[i]) }

  predicate EndsWithBackslash(t: Text) { t != [] && t[|t| - 1] == BACKSLASH }

  predicate ValidEntry(e: Entry) {
    && White(e.w0) && White(e.w1) && White(e.w2) && White(e.w3)
    && !EndsWithBackslash(e.key)
    && match e.value
       case Quoted(t) => !EndsWithBackslash(t)
       case Bare(t) => t != [] && forall i :: 0 <= i < |t| ==> IsDigit(t[i])
  }

  // ---- Strings ----

  lemma EscapeStart(t: Text)
    ensures t != [] ==> Escape(t) != [] && Escape(t)[0] != QUOTE
    ensures t == [] ==> Escape(t) == []
  {
  }

  lemma ReadOne(c: byteChar, s: Text)
    requires c != QUOTE && !(c == BACKSLASH && StartsWith(s, QUOTE))
    ensures ReadBody([c] + s) == Prepend([c], ReadBody(s))
  {
    assert ([c] + s)[1..] == s;
  }

  lemma ReadEscape(s: Text)
    ensures ReadBody([BACKSLASH, QUOTE] + s) == Prepend([QUOTE], ReadBody(s))
  {
    assert ([BACKSLASH, QUOTE] + s)[2..] == s;
  }

  /** The reader undoes the escaping of a string exactly when the string does not end in a backslash. */
  lemma {:induction false} ReadEscaped(t: Text, rest: Text)
    ensures ReadBody(Escape(t) + ([QUOTE] + rest)) == Read(t, rest) <==> !EndsWithBackslash(t)
  {
    if t == [] {
      assert Escape(t) + ([QUOTE] + rest) == [QUOTE] + rest;
      assert ([QUOTE] + rest)[1..] == rest;
    } else {
      var tail := Escape(t[1..]) + ([QUOTE] + rest);
      ReadEscaped(t[1..], rest);
      EscapeStart(t[1..]);
      assert t == [t[0]] + t[1..];
      if t[0] == QUOTE {
        assert Escape(t) + ([QUOTE] + rest) == [BACKSLASH, QUOTE] + tail;
        ReadEscape(tail);
      } else {
        assert Escape(t) + ([QUOTE] + rest) == [t[0]] + tail;
        if t == [BACKSLASH] {
          assert [BACKSLASH] + tail == [BACKSLASH, QUOTE] + rest;
          ReadEscape(rest);
        } else {
          ReadOne(t[0], tail);
        }
      }
    }
  }

  lemma ReadQuoted(t: Text, rest: Text)
    requires !EndsWithBackslash(t)
    ensures ReadString(Quote(t) + rest) == Read(t, rest)
  {
    var s := Quote(t) + rest;
    ReadEscaped(t, rest);
    assert s[1..] == Escape(t) + ([QUOTE] + rest);
  }

  // ---- Tokens ----

  lemma SkipWhite(w: Text, s: Text)
    requires White(w) && s != [] && !IsSpace(s[0])
    ensures SkipWs(w + s) == s
  {
    SpaceSkipped(w, s);
  }

  /** What may follow a value: white space and then a comma or a brace. */
  predicate Separator(s: Text) { s != [] && (s[0] == ',' || s[0] == '}') }

  lemma NotSpace(s: Text)
    requires Separator(s)
    ensures !IsSpace(s[0]) && !IsSpace(':') && !IsSpace(QUOTE) && !IsSpace('{')
  {
  }

  lemma ReadPrintedValue(v: Value, w: Text, s: Text)
    requires Separator(s) && White(w)
    requires match v case Quoted(t) => !EndsWithBackslash(t)
                     case Bare(t) => t != [] && forall i :: 0 <= i < |t| ==> IsDigit(t[i])
    ensures ReadValue(PrintValue(v) + (w + s)) == Read(v.text, w + s)
    ensures PrintValue(v) != [] && !IsSpace(PrintValue(v)[0])
  {
    match v
    case Quoted(t) =>
      ReadQuoted(t, w + s);
    case Bare(t) =>
      assert !IsDigit((w + s)[0]) by {
        assert w != [] ==> IsSpace(w[0]);
      }
      DigitsThenRest(t, w + s);
      assert IsDigit(t[0]);
  }

  lemma ReadPrintedAfterKey(e: Entry, s: Text)
    requires ValidEntry(e) && Separator(s)
    ensures ReadAfterKey(e.key, e.w1 + ([':'] + (e.w2 + (PrintValue(e.value) + (e.w3 + s)))))
         == Read((e.key, e.value.text), s)
  {
    NotSpace(s);
    hide ReadValue, PrintValue, SkipWs, IsSpace, White, Separator;
    var value := PrintValue(e.value) + (e.w3 + s);
    ReadPrintedValue(e.value, e.w3, s);
    SkipWhite(e.w3, s);
    assert value[0] == PrintValue(e.value)[0];
    AfterToken(e.w1, ':', e.w2 + value);
    SkipWhite(e.w2, value);
  }

  /** A one-character token after white space, and what follows it. */
  lemma AfterToken(w: Text, c: byteChar, rest: Text)
    requires White(w) && !IsSpace(c)
    ensures var s := SkipWs(w + ([c] + rest)); StartsWith(s, c) && s[1..] == rest
  {
    SkipWhite(w, [c] + rest);
  }

  lemma ReadPrintedMember(e: Entry, s: Text)
    requires ValidEntry(e) && Separator(s)
    ensures StartsWith(SkipWs(PrintEntry(e) + s), QUOTE)
    ensures ReadMember(SkipWs(PrintEntry(e) + s)) == Read((e.key, e.value.text), s)
  {
    hide ReadAfterKey, PrintValue;
    var afterKey := e.w1 + ([':'] + (e.w2 + (PrintValue(e.value) + (e.w3 + s))));
    var member := Quote(e.key) + afterKey;
    assert PrintEntry(e) + s == e.w0 + member;
    assert member[0] == QUOTE;
    SkipWhite(e.w0, member);
    ReadQuoted(e.key, afterKey);
    ReadPrintedAfterKey(e, s);
  }

  // ---- Documents ----

  /** The map the entries describe; of two entries with one key the later counts. */
  function Store(kv: map<Text, Text>, es: seq<Entry>): map<Text, Text>
    decreases |es|
  {
    if es == [] then kv else Store(kv[es[0].key := es[0].value.text], es[1..])
  }

  predicate ValidMembers(es: seq<Entry>, end: Ending) {
    && (end.Dangling? ==> White(end.w))
    && forall i :: 0 <= i < |es| ==> ValidEntry(es[i])
  }

  /** Of several members with one key the last one counts; keys that no member has keep their value. */
  lemma {:induction false} StoredExactly(kv: map<Text, Text>, es: seq<Entry>, i: nat, key: Text)
    ensures i < |es| && (forall j :: i < j < |es| ==> es[j].key != es[i].key) ==>
              es[i].key in Store(kv, es) && Store(kv, es)[es[i].key] == es[i].value.text
    ensures (forall j :: 0 <= j < |es| ==> es[j].key != key) ==>
              (key in Store(kv, es) <==> key in kv) && (key in kv ==> Store(kv, es)[key] == kv[key])
    decreases |es|
  {
    if es != [] {
      var kv' := kv[es[0].key := es[0].value.text];
      if i == 0 {
        StoredExactly(kv', es[1..], |es|, es[0].key);
        StoredExactly(kv', es[1..], |es|, key);
      } else {
        StoredExactly(kv', es[1..], i - 1, key);
      }
    }
  }

  lemma NoMember(w: Text, tail: Text, kv: map<Text, Text>)
    requires White(w)
    ensures Members(w + (['}'] + tail), kv) == Some(kv)
  {
    var s := ['}'] + tail;
    assert !IsSpace(s[0]);
    SkipWhite(w, s);
  }

  /** One printed member, and what the loop does after it. */
  lemma OneMember(e: Entry, s: Text, kv: map<Text, Text>)
    requires ValidEntry(e) && Separator(s)
    ensures Members(PrintEntry(e) + s, kv)
         == if s[0] == '}' then Some(kv[e.key := e.value.text]) else Members(s[1..], kv[e.key := e.value.text])
  {
    hide ReadMember, PrintEntry, SkipWs, ValidEntry;
    ReadPrintedMember(e, s);
  }

  lemma {:induction false} MembersOfPrinted(es: seq<Entry>, end: Ending, tail: Text, kv: map<Text, Text>)
    requires ValidMembers(es, end)
    ensures Members(PrintMembers(es, end) + tail, kv) == Some(Store(kv, es))
    decreases |es|
  {
    hide PrintEntry, ValidEntry, White, Members;
    if es == [] {
      var w := if end.Dangling? then end.w else [];
      assert White(w) by { EmptyIsWhite(); }
      NoMember(w, tail, kv);
      assert PrintMembers(es, end) + tail == w + (['}'] + tail);
    } else {
      var kv' := kv[es[0].key := es[0].value.text];
      var s := (if |es| == 1 && end.Closed? then ['}'] else [','] + PrintMembers(es[1..], end)) + tail;
      assert PrintMembers(es, end) + tail == PrintEntry(es[0]) + s;
      OneMember(es[0], s, kv);
      if |es| == 1 && end.Closed? {
        assert es[1..] == [];
      } else {
        assert s[1..] == PrintMembers(es[1..], end) + tail;
        MembersOfPrinted(es[1..], end, tail, kv');
      }
    }
  }

  lemma EmptyIsWhite()
    ensures White([])
  {
  }

  function Document(before: Text, es: seq<Entry>, end: Ending, after: Text): Text {
    before + (['{'] + (PrintMembers(es, end) + after))
  }

  lemma ReadDocument(before: Text, es: seq<Entry>, end: Ending, after: Text)
    requires White(before) && ValidMembers(es, end)
    ensures KeyValues(Document(before, es, end, after)) == Some(Store(map[], es))
  {
    NotSpace([',']);
    hide Members, ValidEntry, PrintMembers, SkipWs, IsSpace, White;
    AfterToken(before, '{', PrintMembers(es, end) + after);
    MembersOfPrinted(es, end, after, map[]);
  }

  // ---- Everything that is read was printed ----

  lemma EmptyBody(s: Text)
    ensures ReadBody(s).Read? && ReadBody(s).value == [] ==> s != [] && s[0] == QUOTE
  {
  }

  /** The text s is the printed string v, up to its closing quote, and then the rest. */
  predicate WasEscaped(s: Text, v: Text, rest: Text) {
    s == Escape(v) + ([QUOTE] + rest) && !EndsWithBackslash(v)
  }

  lemma EscapeMore(c: byteChar, t: Text, v: Text, rest: Text)
    requires WasEscaped(t, v, rest) && (v == [] ==> c != BACKSLASH)
    ensures WasEscaped((if c == QUOTE then [BACKSLASH, QUOTE] else [c]) + t, [c] + v, rest)
  {
    assert ([c] + v)[1..] == v;
  }

  lemma {:induction false} BodyWasEscaped(s: Text)
    ensures var r := ReadBody(s); r.Read? ==> WasEscaped(s, r.value, r.rest)
  {
    if ReadBody(s).Read? {
      if s[0] == QUOTE {
        assert WasEscaped(s, [], s[1..]);
      } else {
        hide WasEscaped;
        var escape := s[0] == BACKSLASH && |s| > 1 && s[1] == QUOTE;
        var t := if escape then s[2..] else s[1..];
        var tail := ReadBody(t);
        BodyWasEscaped(t);
        EmptyBody(t);
        EscapeMore(if escape then QUOTE else s[0], t, tail.value, tail.rest);
        assert s == (if escape then [BACKSLASH, QUOTE] else [s[0]]) + t;
      }
    }
  }

  lemma StringWasQuoted(s: Text)
    ensures var r := ReadString(s); r.Read? ==> s == Quote(r.value) + r.rest && !EndsWithBackslash(r.value)
  {
    if ReadString(s).Read? {
      BodyWasEscaped(s[1..]);
    }
  }

  lemma SkippedWhite(s: Text) returns (w: Text)
    ensures White(w) && s == w + SkipWs(s)
  {
    w := s[..|s| - |SkipWs(s)|];
    SkippedIsWhite(s);
  }

  lemma {:induction false} SkippedIsWhite(s: Text)
    ensures White(s[..|s| - |SkipWs(s)|])
  {
    if s != [] && IsSpace(s[0]) {
      SkippedIsWhite(s[1..]);
      var w := s[..|s| - |SkipWs(s)|];
      assert w[1..] == s[1..][..|s[1..]| - |SkipWs(s[1..])|];
      assert forall i :: 0 < i < |w| ==> w[i] == w[1..][i - 1];
    }
  }

  lemma ValueWasPrinted(s: Text) returns (v: Value)
    requires ReadValue(s).Read?
    ensures s == PrintValue(v) + ReadValue(s).rest && v.text == ReadValue(s).value
    ensures match v case Quoted(t) => !EndsWithBackslash(t)
                    case Bare(t) => t != [] && forall i :: 0 <= i < |t| ==> IsDigit(t[i])
  {
    hide ReadString, EndsWithBackslash, Quote;
    if s != [] && s[0] == QUOTE {
      StringWasQuoted(s);
      v := Quoted(ReadValue(s).value);
    } else {
      v := Bare(ReadValue(s).value);
    }
  }

  lemma AfterKeyWasPrinted(key: Text, s: Text) returns (w1: Text, w2: Text, v: Value, w3: Text)
    requires ReadAfterKey(key, s).Read?
    ensures White(w1) && White(w2) && White(w3)
    ensures match v case Quoted(t) => !EndsWithBackslash(t)
                    case Bare(t) => t != [] && forall i :: 0 <= i < |t| ==> IsDigit(t[i])
    ensures var r := ReadAfterKey(key, s);
            r.value == (key, v.text) && s == w1 + ([':'] + (w2 + (PrintValue(v) + (w3 + r.rest))))
  {
    hide White, SkipWs, ReadValue, PrintValue, EndsWithBackslash, IsDigit;
    w1 := SkippedWhite(s);
    var colon := SkipWs(s);
    w2 := SkippedWhite(colon[1..]);
    var value := SkipWs(colon[1..]);
    v := ValueWasPrinted(value);
    w3 := SkippedWhite(ReadValue(value).rest);
    assert colon == [':'] + colon[1..];
  }

  lemma MemberWasPrinted(s: Text) returns (e: Entry)
    requires ReadMember(SkipWs(s)).Read?
    ensures ValidEntry(e)
    ensures var r := ReadMember(SkipWs(s)); s == PrintEntry(e) + r.rest && r.value == (e.key, e.value.text)
  {
    hide White, SkipWs, ReadAfterKey, ReadString, PrintValue, EndsWithBackslash, IsDigit, Quote;
    var w0 := SkippedWhite(s);
    var first := SkipWs(s);
    StringWasQuoted(first);
    var key := ReadString(first);
    var w1, w2, v, w3 := AfterKeyWasPrinted(key.value, key.rest);
    e := Entry(w0, key.value, w1, w2, v, w3);
    var rest := ReadMember(first).rest;
    Regrouped(w0, Quote(key.value), w1, w2, PrintValue(v), w3, rest);
  }

  lemma Regrouped(a: Text, b: Text, c: Text, d: Text, e: Text, f: Text, rest: Text)
    ensures (a + (b + (c + ([':'] + (d + (e + f)))))) + rest == a + (b + (c + ([':'] + (d + (e + (f + rest))))))
  {
  }

  lemma {:induction false} MembersWerePrinted(s: Text, kv: map<Text, Text>)
      returns (es: seq<Entry>, end: Ending, tail: Text)
    requires Members(s, kv).Some?
    ensures ValidMembers(es, end) && (es == [] ==> end.Dangling?)
    ensures s == PrintMembers(es, end) + tail && Members(s, kv).value == Store(kv, es)
    decreases |s|
  {
    hide White, SkipWs, ReadMember, PrintEntry, ValidEntry;
    var first := SkipWs(s);
    if StartsWith(first, '}') {
      var w := SkippedWhite(s);
      es, end, tail := [], Dangling(w), first[1..];
      assert s == (w + ['}']) + tail;
    } else {
      var e := MemberWasPrinted(s);
      var member := ReadMember(first);
      if StartsWith(member.rest, ',') {
        es, end, tail := MembersWerePrinted(member.rest[1..], kv[e.key := e.value.text]);
        OneMoreEntry(kv, e, es, end, tail);
        es := [e] + es;
        assert member.rest == [','] + member.rest[1..];
      } else {
        es, end, tail := [e], Closed, member.rest[1..];
        LastEntry(kv, e, tail);
        assert member.rest == ['}'] + tail;
      }
    }
  }

  lemma OneMoreEntry(kv: map<Text, Text>, e: Entry, es: seq<Entry>, end: Ending, tail: Text)
    requires ValidEntry(e) && ValidMembers(es, end) && (es == [] ==> end.Dangling?)
    ensures ValidMembers([e] + es, end)
    ensures PrintMembers([e] + es, end) + tail == PrintEntry(e) + ([','] + (PrintMembers(es, end) + tail))
    ensures Store(kv, [e] + es) == Store(kv[e.key := e.value.text], es)
  {
    hide PrintEntry, ValidEntry, White;
    assert ([e] + es)[1..] == es;
  }

  lemma LastEntry(kv: map<Text, Text>, e: Entry, tail: Text)
    requires ValidEntry(e)
    ensures ValidMembers([e], Closed)
    ensures PrintMembers([e], Closed) + tail == PrintEntry(e) + (['}'] + tail)
    ensures Store(kv, [e]) == kv[e.key := e.value.text]
  {
    hide PrintEntry, ValidEntry, White;
    assert [e][1..] == [];
  }

  predicate PrintedAs(json: Text, kv: map<Text, Text>, before: Text, es: seq<Entry>, end: Ending, after: Text) {
    White(before) && ValidMembers(es, end) && json == Document(before, es, end, after) && kv == Store(map[], es)
  }

  /** What the index loop accepts: exactly the printed documents, with the map of their members. */
  lemma AcceptedLanguage(json: Text, kv: map<Text, Text>)
    ensures KeyValues(json) == Some(kv) <==>
              exists before, es, end, after :: PrintedAs(json, kv, before, es, end, after)
  {
    hide White, SkipWs, Members, PrintMembers, ValidMembers;
    if KeyValues(json) == Some(kv) {
      var before := SkippedWhite(json);
      var s := SkipWs(json);
      var es, end, after := MembersWerePrinted(s[1..], map[]);
      assert s == ['{'] + s[1..];
      assert PrintedAs(json, kv, before, es, end, after);
    }
    forall before, es, end, after | PrintedAs(json, kv, before, es, end, after)
      ensures KeyValues(json) == Some(kv)
    {
      ReadDocument(before, es, end, after);
    }
  }

  // ---- Manifests ----

  /** The text of each field under its key. */
  function Fields(m: UpdateManifest): map<Text, Text> {
    map[KEY_NAME := m.name, KEY_HARDWARE := m.hardwareId, KEY_VERSION := Decimal(m.version),
        KEY_FILE := m.payloadFile, KEY_DIGEST := m.payloadSha256, KEY_SIGNATURE := m.signature]
  }

  lemma KeysApart()
    ensures |KEY_NAME| == 4 && |KEY_HARDWARE| == 11 && |KEY_VERSION| == 7
    ensures |KEY_FILE| == 12 && |KEY_DIGEST| == 14 && |KEY_SIGNATURE| == 9
  {
  }

  /** The entries are the fields of the manifest, in any order. */
  predicate Describes(es: seq<Entry>, m: UpdateManifest) {
    && (forall i :: 0 <= i < |es| ==> es[i].key in Fields(m) && es[i].value.text == Fields(m)[es[i].key])
    && (forall k :: k in Fields(m) ==> exists i :: 0 <= i < |es| && es[i].key == k)
  }

  lemma {:induction false} StoreAgrees(kv: map<Text, Text>, es: seq<Entry>, target: map<Text, Text>)
    requires forall i :: 0 <= i < |es| ==> es[i].key in target && es[i].value.text == target[es[i].key]
    requires forall k :: k in kv ==> k in target && kv[k] == target[k]
    requires forall k :: k in target ==> k in kv || exists i :: 0 <= i < |es| && es[i].key == k
    ensures Store(kv, es) == target
    decreases |es|
  {
    if es != [] {
      var kv' := kv[es[0].key := es[0].value.text];
      forall k | k in target
        ensures k in kv' || exists i :: 0 <= i < |es[1..]| && es[1..][i].key == k
      {
        if k !in kv' {
          var i :| 0 <= i < |es| && es[i].key == k;
          assert es[1..][i - 1].key == k;
        }
      }
      StoreAgrees(kv', es[1..], target);
    }
  }

  lemma ManifestOfFields(m: UpdateManifest)
    requires m.version < TWO_64
    ensures ToManifest(Fields(m)) == Some(m)
  {
    KeysApart();
    StoullOfDecimal(m.version);
    hide Stoull, Decimal, KEY_NAME, KEY_HARDWARE, KEY_VERSION, KEY_FILE, KEY_DIGEST, KEY_SIGNATURE;
    var kv := Fields(m);
    assert KEY_NAME in kv && kv[KEY_NAME] == m.name;
    assert KEY_HARDWARE in kv && kv[KEY_HARDWARE] == m.hardwareId;
    assert KEY_VERSION in kv && kv[KEY_VERSION] == Decimal(m.version);
    assert KEY_FILE in kv && kv[KEY_FILE] == m.payloadFile;
    assert KEY_DIGEST in kv && kv[KEY_DIGEST] == m.payloadSha256;
    assert KEY_SIGNATURE in kv && kv[KEY_SIGNATURE] == m.signature;
  }

  /**
    Every manifest with a 64-bit version is parsed back from every printed form: the members in any order,
    any white space between tokens, the version bare or quoted, a comma after the last member or none, anything
    after the closing brace; as long as no printed string ends in a backslash.
   */
  lemma ManifestRoundTrip(m: UpdateManifest, before: Text, es: seq<Entry>, end: Ending, after: Text)
    requires m.version < TWO_64
    requires White(before) && ValidMembers(es, end) && Describes(es, m)
    ensures Parse(Document(before, es, end, after)) == Some(m)
  {
    hide KeyValues, ToManifest, Document, ValidEntry, Fields;
    ReadDocument(before, es, end, after);
    StoreAgrees(map[], es, Fields(m));
    ManifestOfFields(m);
  }

  // ---- Which manifests can be read at all ----

  predicate NoneEndsInBackslash(kv: map<Text, Text>) {
    forall k :: k in kv ==> !EndsWithBackslash(kv[k])
  }

  lemma {:induction false} StoredValues(kv: map<Text, Text>, es: seq<Entry>)
    requires NoneEndsInBackslash(kv) && forall i :: 0 <= i < |es| ==> ValidEntry(es[i])
    ensures NoneEndsInBackslash(Store(kv, es))
    decreases |es|
  {
    if es != [] {
      EntryValue(es[0]);
      hide EndsWithBackslash, ValidEntry;
      StoredValues(kv[es[0].key := es[0].value.text], es[1..]);
    }
  }

  lemma EntryValue(e: Entry)
    requires ValidEntry(e)
    ensures !EndsWithBackslash(e.value.text)
  {
    assert !IsDigit(BACKSLASH);
  }

  /** No text that the parser yields ends in a backslash. */
  lemma ReadTexts(json: Text)
    requires KeyValues(json).Some?
    ensures NoneEndsInBackslash(KeyValues(json).value)
  {
    var kv := KeyValues(json).value;
    hide White, Members, PrintMembers, ValidEntry, EndsWithBackslash;
    AcceptedLanguage(json, kv);
    var before, es, end, after :| PrintedAs(json, kv, before, es, end, after);
    StoredValues(map[], es);
  }

  predicate Readable(m: UpdateManifest) {
    && m.version < TWO_64
    && !EndsWithBackslash(m.name) && !EndsWithBackslash(m.hardwareId) && !EndsWithBackslash(m.payloadFile)
    && !EndsWithBackslash(m.payloadSha256) && !EndsWithBackslash(m.signature)
  }

  lemma ParsedIsReadable(json: Text)
    requires Parse(json).Some?
    ensures Readable(Parse(json).value)
  {
    ParsedVersion(json);
    ReadTexts(json);
    hide KeyValues, Stoull, EndsWithBackslash;
  }

  /** A member without white space around its tokens. */
  function Plain(key: Text, v: Value): Entry {
    Entry([], key, [], [], v, [])
  }

  function PlainEntries(m: UpdateManifest): seq<Entry> {
    [Plain(KEY_NAME, Quoted(m.name)), Plain(KEY_HARDWARE, Quoted(m.hardwareId)),
     Plain(KEY_VERSION, Bare(Decimal(m.version))), Plain(KEY_FILE, Quoted(m.payloadFile)),
     Plain(KEY_DIGEST, Quoted(m.payloadSha256)), Plain(KEY_SIGNATURE, Quoted(m.signature))]
  }

  function PlainDocument(m: UpdateManifest): Text {
    Document([], PlainEntries(m), Closed, [])
  }

  lemma PlainKeys()
    ensures !EndsWithBackslash(KEY_NAME) && !EndsWithBackslash(KEY_HARDWARE) && !EndsWithBackslash(KEY_VERSION)
    ensures !EndsWithBackslash(KEY_FILE) && !EndsWithBackslash(KEY_DIGEST) && !EndsWithBackslash(KEY_SIGNATURE)
  {
  }

  lemma PlainEntriesValid(m: UpdateManifest)
    requires Readable(m)
    ensures ValidMembers(PlainEntries(m), Closed)
  {
    PlainKeys();
    hide EndsWithBackslash, IsSpace, Decimal, IsDigit;
  }

  lemma PlainEntriesDescribe(m: UpdateManifest)
    ensures Describes(PlainEntries(m), m)
  {
    KeysApart();
    hide Decimal, KEY_NAME, KEY_HARDWARE, KEY_VERSION, KEY_FILE, KEY_DIGEST, KEY_SIGNATURE;
    var es := PlainEntries(m);
    assert es[0].key == KEY_NAME && es[1].key == KEY_HARDWARE && es[2].key == KEY_VERSION;
    assert es[3].key == KEY_FILE && es[4].key == KEY_DIGEST && es[5].key == KEY_SIGNATURE;
  }

  lemma PlainDocumentReads(m: UpdateManifest)
    requires Readable(m)
    ensures Parse(PlainDocument(m)) == Some(m)
  {
    PlainEntriesValid(m);
    PlainEntriesDescribe(m);
    hide Parse, Document, ValidMembers, Describes, PlainEntries;
    ManifestRoundTrip(m, [], PlainEntries(m), Closed, []);
  }

  /** Exactly the manifests with a 64-bit version and no text that ends in a backslash have a readable file. */
  lemma ReadableExactly(m: UpdateManifest)
    ensures (exists json :: Parse(json) == Some(m)) <==> Readable(m)
  {
    if Readable(m) {
      PlainDocumentReads(m);
    }
    forall json | Parse(json) == Some(m)
      ensures Readable(m)
    {
      ParsedIsReadable(json);
    }
  }
}
