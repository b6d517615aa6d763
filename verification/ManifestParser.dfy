/**
  The flat JSON reader for manifests: a scanner over one index that fills a map, its meaning as functions on
  the text still to be read, and the printer it inverts.
 */
module ManifestParser {
  import opened Bytes
  import opened Manifest
  import opened Numbers
  import opened Options

  const QUOTE: byteChar := '"'
  const BACKSLASH: byteChar := '\\'

  /** A result and the text after it. */
  datatype Parsed<T> = Failed | Read(value: T, rest: Text)

  // ---- Meaning, as functions on the remaining text ----

  /** A string after its opening quote. The only escape is a backslash before a quote. */
  function ReadBody(s: Text): (r: Parsed<Text>)
    ensures r.Read? ==> |r.rest| < |s|
  {
    if s == [] then Failed
    else if s[0] == QUOTE then Read([], s[1..])
    else
      var escape := s[0] == BACKSLASH && |s| > 1 && s[1] == QUOTE;
      var tail := ReadBody(if escape then s[2..] else s[1..]);
      if tail.Failed? then Failed else Read([if escape then QUOTE else s[0]] + tail.value, tail.rest)
  }

  function ReadString(s: Text): (r: Parsed<Text>)
    ensures r.Read? ==> |r.rest| < |s|
  {
    if s == [] || s[0] != QUOTE then Failed else ReadBody(s[1..])
  }

  function ReadValue(s: Text): (r: Parsed<Text>)
    ensures r.Read? ==> |r.rest| < |s|
  {
    if s != [] && s[0] == QUOTE then ReadString(s)
    else
      var (digits, rest) := Digits(s);
      if digits == [] then Failed else Read(digits, rest)
  }

  predicate StartsWith(s: Text, c: byteChar) { s != [] && s[0] == c }

  /** The colon and the value that belong to a key, with white space around them. */
  function ReadAfterKey(key: Text, s: Text): (r: Parsed<(Text, Text)>)
    ensures r.Read? ==> |r.rest| < |s|
  {
    var colon := SkipWs(s);
    if !StartsWith(colon, ':') then Failed
    else
      var value := ReadValue(SkipWs(colon[1..]));
      if value.Failed? then Failed else Read((key, value.value), SkipWs(value.rest))
  }

  function ReadMember(s: Text): (r: Parsed<(Text, Text)>)
    ensures r.Read? ==> |r.rest| < |s|
  {
    var key := ReadString(s);
    if key.Failed? then Failed else ReadAfterKey(key.value, key.rest)
  }

  /** The members up to the closing brace; what comes after the brace is not looked at. */
  function Members(s: Text, kv: map<Text, Text>): Option<map<Text, Text>>
    decreases |s|
  {
    var first := SkipWs(s);
    if StartsWith(first, '}') then Some(kv)
    else
      var member := ReadMember(first);
      if member.Failed? then None
      else
        var kv' := kv[member.value.0 := member.value.1];
        if StartsWith(member.rest, ',') then Members(member.rest[1..], kv')
        else if StartsWith(member.rest, '}') then Some(kv')
        else None
  }

  const KEY_NAME: Text := "name"
  const KEY_HARDWARE: Text := "hardware_id"
  const KEY_VERSION: Text := "version"
  const KEY_FILE: Text := "payload_file"
  const KEY_DIGEST: Text := "payload_sha256"
  const KEY_SIGNATURE: Text := "signature"

  function ToManifest(kv: map<Text, Text>): Option<UpdateManifest> {
    if KEY_NAME in kv && KEY_HARDWARE in kv && KEY_VERSION in kv
       && KEY_FILE in kv && KEY_DIGEST in kv && KEY_SIGNATURE in kv then
      var version := Stoull(kv[KEY_VERSION]);
      if version.None? then None
      else Some(UpdateManifest(kv[KEY_NAME], kv[KEY_HARDWARE], version.value,
                               kv[KEY_FILE], kv[KEY_DIGEST], kv[KEY_SIGNATURE]))
    else None
  }

  /** The six keys, spelled out: all must be there, and the version must be a number. */
  lemma FieldsByKey(kv: map<Text, Text>)
    ensures var m := ToManifest(kv);
            && (m.Some? <==> && "name" in kv && "hardware_id" in kv && "version" in kv && "payload_file" in kv
                             && "payload_sha256" in kv && "signature" in kv && Stoull(kv["version"]).Some?)
            && (m.Some? ==> && m.value.name == kv["name"] && m.value.hardwareId == kv["hardware_id"]
                            && Some(m.value.version) == Stoull(kv["version"])
                            && m.value.payloadFile == kv["payload_file"]
                            && m.value.payloadSha256 == kv["payload_sha256"] && m.value.signature == kv["signature"])
  {
    hide Stoull;
  }

  function KeyValues(json: Text): Option<map<Text, Text>> {
    var s := SkipWs(json);
    if StartsWith(s, '{') then Members(s[1..], map[]) else None
  }

  function Parse(json: Text): Option<UpdateManifest> {
    var kv := KeyValues(json);
    if kv.None? then None else ToManifest(kv.value)
  }

  /** A parsed version is a 64-bit number. */
  lemma ParsedVersion(json: Text)
    ensures Parse(json).Some? ==> Parse(json).value.version < TWO_64
  {
    hide KeyValues;
    if KeyValues(json).Some? {
      StoullRange(if KEY_VERSION in KeyValues(json).value then KeyValues(json).value[KEY_VERSION] else []);
    }
  }

  lemma StoullRange(t: Text)
    ensures Stoull(t).Some? ==> Stoull(t).value < TWO_64
  {
  }

  /** Puts what a scan has gathered before what it will still read. */
  function Prepend(out: Text, r: Parsed<Text>): Parsed<Text> {
    if r.Failed? then Failed else Read(out + r.value, r.rest)
  }

  /** How a string is read, character by character: a backslash escapes a quote and nothing else. */
  lemma StringCharacters(c: byteChar, s: Text)
    ensures ReadString(s).Read? ==> s[0] == '"'
    ensures ReadBody(['"'] + s) == Read([], s) && ReadBody([]) == Failed
    ensures ReadBody(['\\', '"'] + s) == Prepend(['"'], ReadBody(s))
    ensures c != '"' && !(c == '\\' && StartsWith(s, '"')) ==> ReadBody([c] + s) == Prepend([c], ReadBody(s))
  {
    assert (['"'] + s)[1..] == s && (['\\', '"'] + s)[2..] == s && ([c] + s)[1..] == s;
  }

  // ---- The scanner ----

  lemma {:induction false} SkipStep(json: Text, i: nat)
    requires i < |json|
    ensures SkipWs(json[i..]) == if IsSpace(json[i]) then SkipWs(json[i + 1..]) else json[i..]
  {
    assert json[i..][1..] == json[i + 1..];
  }

  method ScanWs(json: Text, start: nat) returns (i: nat)
    requires start <= |json|
    ensures start <= i <= |json|
    ensures json[i..] == SkipWs(json[start..])
  {
    i := start;
    while i < |json| && IsSpace(json[i])
      invariant start <= i <= |json|
      invariant SkipWs(json[i..]) == SkipWs(json[start..])
    {
      SkipStep(json, i);
      i := i + 1;
    }
    if i < |json| {
      SkipStep(json, i);
    }
  }

  lemma PrependEnds(out: Text, r: Parsed<Text>, rest: Text)
    ensures Prepend([], r) == r && Prepend(out, Failed) == Failed && Prepend(out, Read([], rest)) == Read(out, rest)
  {
    assert out + [] == out;
    if r.Read? {
      assert [] + r.value == r.value;
    }
  }

  lemma BodyStep(json: Text, i: nat, out: Text)
    requires i < |json| && json[i] != QUOTE
    ensures var escape := json[i] == BACKSLASH && i + 1 < |json| && json[i + 1] == QUOTE;
            Prepend(out, ReadBody(json[i..]))
            == if escape then Prepend(out + [QUOTE], ReadBody(json[i + 2..]))
               else Prepend(out + [json[i]], ReadBody(json[i + 1..]))
  {
    var s := json[i..];
    assert s[1..] == json[i + 1..];
    if json[i] == BACKSLASH && i + 1 < |json| && json[i + 1] == QUOTE {
      assert s[2..] == json[i + 2..];
      var tail := ReadBody(json[i + 2..]);
      if tail.Read? {
        assert out + ([QUOTE] + tail.value) == out + [QUOTE] + tail.value;
      }
    } else {
      var tail := ReadBody(json[i + 1..]);
      if tail.Read? {
        assert out + ([json[i]] + tail.value) == out + [json[i]] + tail.value;
      }
    }
  }

  lemma BodyEnds(json: Text, i: nat)
    requires i <= |json| && (i < |json| ==> json[i] == QUOTE)
    ensures ReadBody(json[i..]) == if i < |json| then Read([], json[i + 1..]) else Failed
  {
    if i < |json| {
      assert json[i..][1..] == json[i + 1..];
    }
  }

  /** The body of a string, up to its closing quote. */
  method ScanBody(json: Text, start: nat) returns (ok: bool, out: Text, i: nat)
    requires start <= |json|
    ensures start <= i <= |json|
    ensures ReadBody(json[start..]) == if ok then Read(out, json[i..]) else Failed
  {
    i, out := start, [];
    PrependEnds(out, ReadBody(json[start..]), []);
    hide *;
    while i < |json| && json[i] != QUOTE
      invariant start <= i <= |json|
      invariant Prepend(out, ReadBody(json[i..])) == ReadBody(json[start..])
    {
      BodyStep(json, i, out);
      if json[i] == BACKSLASH && i + 1 < |json| && json[i + 1] == QUOTE {
        out := out + [QUOTE];
        i := i + 2;
      } else {
        out := out + [json[i]];
        i := i + 1;
      }
    }
    BodyEnds(json, i);
    if i >= |json| {
      PrependEnds(out, Failed, []);
      return false, out, i;
    }
    PrependEnds(out, Failed, json[i + 1..]);
    return true, out, i + 1;
  }

  method ScanString(json: Text, start: nat) returns (ok: bool, out: Text, i: nat)
    requires start <= |json|
    ensures start <= i <= |json|
    ensures ReadString(json[start..]) == if ok then Read(out, json[i..]) else Failed
  {
    hide ReadBody;
    if start >= |json| || json[start] != QUOTE {
      return false, [], start;
    }
    assert json[start..][1..] == json[start + 1..];
    ok, out, i := ScanBody(json, start + 1);
  }

  function Led(out: Text, r: (Text, Text)): (Text, Text) {
    (out + r.0, r.1)
  }

  lemma LedEnds(out: Text, r: (Text, Text), rest: Text)
    ensures Led([], r) == r && Led(out, ([], rest)) == (out, rest)
  {
    assert [] + r.0 == r.0 && out + [] == out;
  }

  lemma DigitStep(json: Text, i: nat, out: Text)
    requires i < |json| && IsDigit(json[i])
    ensures Led(out, Digits(json[i..])) == Led(out + [json[i]], Digits(json[i + 1..]))
  {
    assert json[i..][1..] == json[i + 1..];
    var d := Digits(json[i + 1..]).0;
    assert out + ([json[i]] + d) == out + [json[i]] + d;
  }

  lemma DigitsEnd(json: Text, i: nat)
    requires i <= |json| && (i < |json| ==> !IsDigit(json[i]))
    ensures Digits(json[i..]) == ([], json[i..])
  {
  }

  method ScanDigits(json: Text, start: nat) returns (out: Text, i: nat)
    requires start <= |json|
    ensures start <= i <= |json| && Digits(json[start..]) == (out, json[i..])
  {
    i, out := start, [];
    LedEnds(out, Digits(json[start..]), []);
    hide Digits, Led;
    while i < |json| && IsDigit(json[i])
      invariant start <= i <= |json|
      invariant Digits(json[start..]) == Led(out, Digits(json[i..]))
    {
      DigitStep(json, i, out);
      out := out + [json[i]];
      i := i + 1;
    }
    DigitsEnd(json, i);
    LedEnds(out, ([], []), json[i..]);
  }

  method ScanValue(json: Text, start: nat) returns (ok: bool, value: Text, i: nat)
    requires start <= |json|
    ensures start <= i <= |json|
    ensures ReadValue(json[start..]) == if ok then Read(value, json[i..]) else Failed
  {
    hide Digits, ReadString;
    if start < |json| && json[start] == QUOTE {
      ok, value, i := ScanString(json, start);
    } else {
      value, i := ScanDigits(json, start);
      ok := value != [];
    }
  }

  lemma At(json: Text, i: nat, c: byteChar)
    requires i <= |json|
    ensures StartsWith(json[i..], c) <==> i < |json| && json[i] == c
    ensures i < |json| ==> json[i..][1..] == json[i + 1..]
  {
  }

  method ScanAfterKey(json: Text, start: nat, ghost key: Text) returns (ok: bool, value: Text, i: nat)
    requires start <= |json|
    ensures start <= i <= |json|
    ensures ReadAfterKey(key, json[start..]) == if ok then Read((key, value), json[i..]) else Failed
  {
    hide ReadValue, SkipWs, StartsWith;
    value := [];
    i := ScanWs(json, start);
    At(json, i, ':');
    if i >= |json| || json[i] != ':' {
      return false, value, i;
    }
    i := i + 1;
    i := ScanWs(json, i);
    ok, value, i := ScanValue(json, i);
    if ok {
      i := ScanWs(json, i);
    }
  }

  method ScanMember(json: Text, start: nat) returns (ok: bool, key: Text, value: Text, i: nat)
    requires start <= |json|
    ensures start <= i <= |json|
    ensures ReadMember(json[start..]) == if ok then Read((key, value), json[i..]) else Failed
  {
    hide ReadAfterKey, ReadString;
    value := [];
    ok, key, i := ScanString(json, start);
    if ok {
      ok, value, i := ScanAfterKey(json, i, key);
    }
  }

  /** One turn of the loop over the members. */
  lemma MembersTurn(s: Text, kv: map<Text, Text>)
    ensures var first := SkipWs(s);
            var member := ReadMember(first);
            Members(s, kv)
            == if StartsWith(first, '}') then Some(kv)
               else if member.Failed? then None
               else if StartsWith(member.rest, ',') then Members(member.rest[1..], kv[member.value.0 := member.value.1])
               else if StartsWith(member.rest, '}') then Some(kv[member.value.0 := member.value.1])
               else None
  {
    hide SkipWs, ReadMember;
  }

  method ScanKeyValues(json: Text) returns (ok: bool, kv: map<Text, Text>)
    ensures KeyValues(json) == if ok then Some(kv) else None
  {
    hide ReadMember, SkipWs, StartsWith, ReadString, ReadAfterKey, IsSpace, Members;
    kv := map[];
    var i := ScanWs(json, 0);
    assert json[0..] == json;
    At(json, i, '{');
    if i >= |json| || json[i] != '{' {
      return false, kv;
    }
    i := i + 1;
    ghost var whole := Members(json[i..], kv);
    while true
      invariant i <= |json| && Members(json[i..], kv) == whole
      decreases |json| - i
    {
      MembersTurn(json[i..], kv);
      var j := ScanWs(json, i);
      At(json, j, '}');
      if j < |json| && json[j] == '}' {
        return true, kv;
      }
      var key, value;
      ok, key, value, j := ScanMember(json, j);
      if !ok {
        return false, kv;
      }
      kv := kv[key := value];
      At(json, j, ',');
      At(json, j, '}');
      if j < |json| && json[j] == ',' {
        i := j + 1;
      } else if j < |json| && json[j] == '}' {
        return true, kv;
      } else {
        return false, kv;
      }
    }
  }

  /** The parser returns on every input, and returns the meaning defined above. */
  method ParseManifest(json: Text) returns (m: Option<UpdateManifest>)
    ensures m == Parse(json)
  {
    hide KeyValues;
    var ok, kv := ScanKeyValues(json);
    if !ok {
      return None;
    }
    return ToManifest(kv);
  }
}
