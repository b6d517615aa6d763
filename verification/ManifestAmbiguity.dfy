/**
  Which manifests share their signed bytes with another one: exactly those with a field that itself contains the
  text that stands between two fields.
 */
module ManifestAmbiguity {
  import opened Manifest
  import opened Bytes
  import opened Numbers

  // What stands between the fields: a line break and the next tag.
  const TO_HARDWARE: Text := [NEWLINE] + HARDWARE_TAG
  const TO_VERSION: Text := [NEWLINE] + VERSION_TAG
  const TO_FILE: Text := [NEWLINE] + FILE_TAG
  const TO_DIGEST: Text := [NEWLINE] + DIGEST_TAG

  /** The version of a manifest with the text on both sides of it. */
  function VersionBlock(w: nat): Text {
    TO_VERSION + (Decimal(w) + TO_FILE)
  }

  predicate OccursAt(t: Text, s: Text, i: nat)
    requires i + |s| <= |t|
  {
    t[i..i + |s|] == s
  }

  predicate Contains(t: Text, s: Text) {
    exists i :: 0 <= i <= |t| - |s| && OccursAt(t, s, i)
  }

  ghost predicate ContainsVersion(t: Text) {
    exists w: nat :: w < TWO_64 && Contains(t, VersionBlock(w))
  }

  /** Some field contains what stands between it and a neighbour. */
  ghost predicate Ambiguous(m: UpdateManifest) {
    || Contains(m.name, TO_HARDWARE) || Contains(m.hardwareId, TO_HARDWARE)
    || ContainsVersion(m.hardwareId) || ContainsVersion(m.payloadFile)
    || Contains(m.payloadFile, TO_DIGEST) || Contains(m.payloadSha256, TO_DIGEST)
  }

  /** The same signed bytes, but other signed fields. */
  ghost predicate Collides(m: UpdateManifest, n: UpdateManifest) {
    n.version < TWO_64 && CanonicalBytes(n) == CanonicalBytes(m) && n.(signature := m.signature) != m
  }

  // ---- The canonical text as fields and separators ----

  function Body(m: UpdateManifest): Text {
    m.name + (TO_HARDWARE + (m.hardwareId + (TO_VERSION + (Decimal(m.version) + (TO_FILE + Tail(m))))))
  }

  function Tail(m: UpdateManifest): Text {
    m.payloadFile + (TO_DIGEST + m.payloadSha256)
  }

  lemma CanonicalBody(m: UpdateManifest)
    ensures CanonicalText(m) == NAME_TAG + Body(m) + [NEWLINE]
  {
    Lines(NAME_TAG, m.name, HARDWARE_TAG, m.hardwareId, VERSION_TAG, Decimal(m.version),
          FILE_TAG, m.payloadFile, DIGEST_TAG, m.payloadSha256);
  }

  /** Lines that end in a line break are fields with a line break between them. */
  lemma Lines(s: Text, a: Text, t: Text, b: Text, u: Text, c: Text, v: Text, d: Text, w: Text, e: Text)
    ensures Line(s, a) + (Line(t, b) + (Line(u, c) + (Line(v, d) + Line(w, e))))
         == s + (a + ([NEWLINE] + t + (b + ([NEWLINE] + u + (c + ([NEWLINE] + v + (d + ([NEWLINE] + w + e))))))))
            + [NEWLINE]
  {
    var flat := s + a + [NEWLINE] + t + b + [NEWLINE] + u + c + [NEWLINE] + v + d + [NEWLINE] + w + e + [NEWLINE];
    assert Line(s, a) + (Line(t, b) + (Line(u, c) + (Line(v, d) + Line(w, e)))) == flat;
  }

  lemma SameBody(m: UpdateManifest, n: UpdateManifest)
    ensures CanonicalBytes(m) == CanonicalBytes(n) <==> Body(m) == Body(n)
  {
    CanonicalBody(m);
    CanonicalBody(n);
    hide CanonicalText, Body;
    var s, t := CanonicalText(m), CanonicalText(n);
    if CanonicalBytes(m) == CanonicalBytes(n) {
      ToBytesInjective(s, t);
      assert Body(m) == s[|NAME_TAG|..|s| - 1] == t[|NAME_TAG|..|t| - 1] == Body(n);
    }
  }

  // ---- Separators ----

  /** A separator has its only line break in front. */
  predicate Separator(s: Text) {
    s != [] && s[0] == NEWLINE && forall i :: 0 < i < |s| ==> s[i] != NEWLINE
  }

  predicate Apart(s: Text, t: Text) {
    exists k :: 0 <= k < |s| && k < |t| && s[k] != t[k]
  }

  lemma Separators()
    ensures Separator(TO_HARDWARE) && Separator(TO_VERSION) && Separator(TO_FILE) && Separator(TO_DIGEST)
    ensures Apart(TO_VERSION, TO_HARDWARE) && Apart(TO_HARDWARE, TO_FILE) && Apart(TO_VERSION, TO_FILE)
    ensures Apart(TO_DIGEST, TO_VERSION) && Apart(TO_DIGEST, TO_FILE)
  {
    assert TO_HARDWARE[1] == 'h' && TO_VERSION[1] == 'v' && TO_FILE[1] == 'p' && TO_DIGEST[1] == 'p';
    assert TO_FILE[9] == 'f' && TO_DIGEST[9] == 's';
  }

  /** Of two separators in one text, the later one begins after the earlier one ends. */
  lemma Later(a: Text, s: Text, b: Text, c: Text, t: Text, d: Text) returns (x: Text)
    requires Separator(s) && Separator(t) && a + (s + b) == c + (t + d) && |c| < |a|
    ensures a == c + (t + x) && d == x + (s + b)
  {
    var u := a + (s + b);
    assert u[|a|] == NEWLINE;
    assert u[|c|..|c| + |t|] == t;
    var k := if |a| < |c| + |t| then |a| - |c| else 0;
    assert u[|c| + k] == t[k];
    assert a == u[..|a|] && u[..|c|] == c && u[|c| + |t|..] == d;
    x := a[|c| + |t|..];
  }

  lemma Together(a: Text, s: Text, b: Text, c: Text, t: Text, d: Text)
    requires a + (s + b) == c + (t + d) && |a| == |c|
    ensures a == c && s + b == t + d
    ensures s == t ==> b == d
    ensures !Apart(s, t)
  {
    var u := a + (s + b);
    assert a == u[..|a|] == c;
    assert s + b == u[|a|..] == t + d;
    if s == t {
      assert b == (s + b)[|s|..] == (t + d)[|t|..] == d;
    }
    forall k | 0 <= k < |s| && k < |t|
      ensures s[k] == t[k]
    {
      assert (s + b)[k] == (t + d)[k];
    }
  }

  lemma ContainsPart(a: Text, s: Text, b: Text)
    ensures Contains(a + (s + b), s)
  {
    assert OccursAt(a + (s + b), s, |a|);
  }

  lemma PartOf(t: Text, s: Text) returns (a: Text, b: Text)
    requires Contains(t, s)
    ensures t == a + (s + b)
  {
    var i :| 0 <= i <= |t| - |s| && OccursAt(t, s, i);
    a, b := t[..i], t[i + |s|..];
  }

  // ---- A collision needs an ambiguous field ----

  /** A decimal number holds no line break, so it does not reach over a separator. */
  lemma NumberInside(x: Text, s: Text, b: Text, w: nat, d: Text) returns (y: Text)
    requires Separator(s) && Apart(s, TO_FILE) && x + (s + b) == Decimal(w) + (TO_FILE + d)
    ensures x == Decimal(w) + (TO_FILE + y) && d == y + (s + b)
  {
    Separators();
    DecimalOneLine(w);
    var t := Decimal(w);
    var u := x + (s + b);
    assert u[|x|] == NEWLINE;
    var k := if |x| < |t| then |x| else 0;
    assert u[k] == t[k];
    hide Decimal, Separator, Apart;
    if |x| == |t| {
      Together(x, s, b, t, TO_FILE, d);
    }
    y := Later(x, s, b, t, TO_FILE, d);
  }

  /** A version separator found at or after the payload file. */
  lemma VersionInTail(f: Text, d: Text, g: Text, w: nat, r: Text, e: Text)
    requires w < TWO_64 && f + (TO_DIGEST + d) == g + (TO_VERSION + (Decimal(w) + (TO_FILE + (r + (TO_DIGEST + e)))))
    ensures ContainsVersion(f) || Contains(d, TO_DIGEST)
  {
    Separators();
    hide Decimal, Separator, Apart, Contains;
    var rest := Decimal(w) + (TO_FILE + (r + (TO_DIGEST + e)));
    if |g| == |f| {
      Together(f, TO_DIGEST, d, g, TO_VERSION, rest);
    } else if |g| < |f| {
      var x := Later(f, TO_DIGEST, d, g, TO_VERSION, rest);
      var y := NumberInside(x, TO_DIGEST, d, w, r + (TO_DIGEST + e));
      BlockPart(g, w, y);
    } else {
      var x := Later(g, TO_VERSION, rest, f, TO_DIGEST, d);
      var front := x + (TO_VERSION + (Decimal(w) + (TO_FILE + r)));
      assert d == front + (TO_DIGEST + e);
      ContainsPart(front, TO_DIGEST, e);
    }
  }

  lemma BlockPart(g: Text, w: nat, y: Text)
    requires w < TWO_64
    ensures ContainsVersion(g + (TO_VERSION + (Decimal(w) + (TO_FILE + y))))
  {
    assert g + (TO_VERSION + (Decimal(w) + (TO_FILE + y))) == g + (VersionBlock(w) + y);
    ContainsPart(g, VersionBlock(w), y);
  }

  /** Equal tails: the file and the digest text agree, or one of them contains the separator. */
  lemma TailsAgree(f: Text, d: Text, r: Text, e: Text)
    requires f + (TO_DIGEST + d) == r + (TO_DIGEST + e)
    ensures (f == r && d == e) || Contains(f, TO_DIGEST) || Contains(d, TO_DIGEST)
  {
    Separators();
    hide Separator, Apart, Contains;
    if |f| == |r| {
      Together(f, TO_DIGEST, d, r, TO_DIGEST, e);
    } else if |r| < |f| {
      var x := Later(f, TO_DIGEST, d, r, TO_DIGEST, e);
      ContainsPart(r, TO_DIGEST, x);
    } else {
      var x := Later(r, TO_DIGEST, e, f, TO_DIGEST, d);
      ContainsPart(x, TO_DIGEST, e);
    }
  }

  /** Equal numbers before equal separators. */
  lemma NumbersAgree(v: nat, x: Text, w: nat, y: Text)
    requires Decimal(v) + (TO_FILE + x) == Decimal(w) + (TO_FILE + y)
    ensures v == w && x == y
  {
    DecimalOneLine(v);
    DecimalOneLine(w);
    DecimalRoundTrip(v);
    DecimalRoundTrip(w);
    hide Decimal;
    assert Decimal(v) + (TO_FILE + x) == Decimal(v) + [NEWLINE] + (FILE_TAG + x);
    assert Decimal(w) + (TO_FILE + y) == Decimal(w) + [NEWLINE] + (FILE_TAG + y);
    FirstLine(Decimal(v), FILE_TAG + x, Decimal(w), FILE_TAG + y);
    assert x == (FILE_TAG + x)[|FILE_TAG|..] == (FILE_TAG + y)[|FILE_TAG|..] == y;
  }

  /** Everything after the first separator: a field, the version, the tail. */
  lemma MiddlesAgree(h: Text, v: nat, f: Text, d: Text, k: Text, w: nat, r: Text, e: Text)
    requires w < TWO_64
    requires h + (TO_VERSION + (Decimal(v) + (TO_FILE + (f + (TO_DIGEST + d)))))
          == k + (TO_VERSION + (Decimal(w) + (TO_FILE + (r + (TO_DIGEST + e)))))
    ensures || (h == k && v == w && f == r && d == e)
            || ContainsVersion(h) || ContainsVersion(f) || Contains(f, TO_DIGEST) || Contains(d, TO_DIGEST)
  {
    Separators();
    hide Decimal, Separator, Apart, Contains, ContainsVersion;
    var mine, other := f + (TO_DIGEST + d), r + (TO_DIGEST + e);
    var x := Decimal(v) + (TO_FILE + mine);
    var y := Decimal(w) + (TO_FILE + other);
    if |h| == |k| {
      Together(h, TO_VERSION, x, k, TO_VERSION, y);
      NumbersAgree(v, mine, w, other);
      TailsAgree(f, d, r, e);
    } else if |k| < |h| {
      var z := Later(h, TO_VERSION, x, k, TO_VERSION, y);
      var z' := NumberInside(z, TO_VERSION, x, w, other);
      BlockPart(k, w, z');
    } else {
      var z := Later(k, TO_VERSION, y, h, TO_VERSION, x);
      var z' := NumberInside(z, TO_VERSION, y, v, mine);
      VersionInTail(f, d, z', w, r, e);
    }
  }

  lemma CollisionIsAmbiguous(m: UpdateManifest, n: UpdateManifest)
    requires n.version < TWO_64 && Body(m) == Body(n)
    ensures n.(signature := m.signature) == m || Ambiguous(m)
  {
    Separators();
    hide Decimal, Separator, Apart, Contains, ContainsVersion;
    var mine := TO_VERSION + (Decimal(m.version) + (TO_FILE + Tail(m)));
    var other := TO_VERSION + (Decimal(n.version) + (TO_FILE + Tail(n)));
    if |m.name| == |n.name| {
      Together(m.name, TO_HARDWARE, m.hardwareId + mine, n.name, TO_HARDWARE, n.hardwareId + other);
      MiddlesAgree(m.hardwareId, m.version, m.payloadFile, m.payloadSha256,
                   n.hardwareId, n.version, n.payloadFile, n.payloadSha256);
    } else if |n.name| < |m.name| {
      var x := Later(m.name, TO_HARDWARE, m.hardwareId + mine, n.name, TO_HARDWARE, n.hardwareId + other);
      ContainsPart(n.name, TO_HARDWARE, x);
    } else {
      var x := Later(n.name, TO_HARDWARE, n.hardwareId + other, m.name, TO_HARDWARE, m.hardwareId + mine);
      HardwareLater(m, x, n);
    }
  }

  /** The other name reaches beyond the own one. */
  lemma HardwareLater(m: UpdateManifest, x: Text, n: UpdateManifest)
    requires n.version < TWO_64
    requires m.hardwareId + (TO_VERSION + (Decimal(m.version) + (TO_FILE + Tail(m))))
          == x + (TO_HARDWARE + (n.hardwareId + (TO_VERSION + (Decimal(n.version) + (TO_FILE + Tail(n))))))
    ensures Ambiguous(m)
  {
    Separators();
    hide Decimal, Separator, Apart, Contains, ContainsVersion;
    var mine := Decimal(m.version) + (TO_FILE + Tail(m));
    var other := TO_VERSION + (Decimal(n.version) + (TO_FILE + Tail(n)));
    if |x| == |m.hardwareId| {
      Together(m.hardwareId, TO_VERSION, mine, x, TO_HARDWARE, n.hardwareId + other);
    } else if |x| < |m.hardwareId| {
      var y := Later(m.hardwareId, TO_VERSION, mine, x, TO_HARDWARE, n.hardwareId + other);
      ContainsPart(x, TO_HARDWARE, y);
    } else {
      var y := Later(x, TO_HARDWARE, n.hardwareId + other, m.hardwareId, TO_VERSION, mine);
      var z := NumberInside(y, TO_HARDWARE, n.hardwareId + other, m.version, Tail(m));
      assert z + (TO_HARDWARE + (n.hardwareId + other)) == z + (TO_HARDWARE + n.hardwareId) + other;
      VersionInTail(m.payloadFile, m.payloadSha256, z + (TO_HARDWARE + n.hardwareId),
                    n.version, n.payloadFile, n.payloadSha256);
    }
  }

  // ---- An ambiguous field makes a collision ----

  /** The manifest with the same signature and these signed fields. */
  function With(m: UpdateManifest, name: Text, hardware: Text, version: nat, file: Text, digest: Text): UpdateManifest {
    UpdateManifest(name, hardware, version, file, digest, m.signature)
  }

  lemma MoveSeparator(p: Text, s: Text, a: Text, b: Text, rest: Text)
    ensures (p + (s + a)) + (s + (b + rest)) == p + (s + ((a + (s + b)) + rest))
  {
    assert (a + (s + b)) + rest == a + (s + (b + rest));
  }

  lemma NameSplits(m: UpdateManifest) returns (n: UpdateManifest)
    requires m.version < TWO_64 && Contains(m.name, TO_HARDWARE)
    ensures Collides(m, n)
  {
    var a, b := PartOf(m.name, TO_HARDWARE);
    n := With(m, a, b + (TO_HARDWARE + m.hardwareId), m.version, m.payloadFile, m.payloadSha256);
    hide Decimal, Contains, CanonicalBytes;
    var rest := TO_VERSION + (Decimal(m.version) + (TO_FILE + Tail(m)));
    assert Tail(n) == Tail(m);
    MoveSeparator(a, TO_HARDWARE, b, m.hardwareId, rest);
    SameBody(m, n);
    assert |n.name| < |m.name|;
  }

  lemma HardwareSplits(m: UpdateManifest) returns (n: UpdateManifest)
    requires m.version < TWO_64 && Contains(m.hardwareId, TO_HARDWARE)
    ensures Collides(m, n)
  {
    var a, b := PartOf(m.hardwareId, TO_HARDWARE);
    n := With(m, m.name + (TO_HARDWARE + a), b, m.version, m.payloadFile, m.payloadSha256);
    hide Decimal, Contains, CanonicalBytes;
    var rest := TO_VERSION + (Decimal(m.version) + (TO_FILE + Tail(m)));
    assert Tail(n) == Tail(m);
    MoveSeparator(m.name, TO_HARDWARE, a, b, rest);
    SameBody(m, n);
    assert |n.name| > |m.name|;
  }

  /** Another version is signed by the same bytes when a version block stands in the hardware identifier. */
  lemma HardwareHoldsVersion(m: UpdateManifest, w: nat) returns (n: UpdateManifest)
    requires w < TWO_64 && Contains(m.hardwareId, VersionBlock(w))
    ensures Collides(m, n) && n.version == w
  {
    var a, b := PartOf(m.hardwareId, VersionBlock(w));
    n := With(m, m.name, a, w, b + (VersionBlock(m.version) + m.payloadFile), m.payloadSha256);
    hide Decimal, Contains, CanonicalBytes;
    MoveBlock(m.name, TO_HARDWARE, a, TO_VERSION, Decimal(w), TO_FILE, b, Decimal(m.version), m.payloadFile,
              TO_DIGEST + m.payloadSha256);
    SameBody(m, n);
    assert |n.hardwareId| < |m.hardwareId|;
  }

  lemma FileHoldsVersion(m: UpdateManifest, w: nat) returns (n: UpdateManifest)
    requires w < TWO_64 && Contains(m.payloadFile, VersionBlock(w))
    ensures Collides(m, n) && n.version == w
  {
    var a, b := PartOf(m.payloadFile, VersionBlock(w));
    n := With(m, m.name, m.hardwareId + (VersionBlock(m.version) + a), w, b, m.payloadSha256);
    hide Decimal, Contains, CanonicalBytes;
    MoveBlock(m.name, TO_HARDWARE, m.hardwareId, TO_VERSION, Decimal(m.version), TO_FILE, a, Decimal(w), b,
              TO_DIGEST + m.payloadSha256);
    SameBody(m, n);
    assert |n.hardwareId| > |m.hardwareId|;
  }

  /** Two blocks s x t and s y t in a row: the first or the second may be read as the version. */
  lemma MoveBlock(p: Text, h: Text, k: Text, s: Text, x: Text, t: Text, a: Text, y: Text, b: Text, rest: Text)
    ensures p + (h + (k + (s + (x + (t + ((a + ((s + (y + t)) + b)) + rest))))))
         == p + (h + ((k + ((s + (x + t)) + a)) + (s + (y + (t + (b + rest))))))
  {
    var block := s + (y + (t + (b + rest)));
    assert (a + ((s + (y + t)) + b)) + rest == a + block;
    assert (k + ((s + (x + t)) + a)) + block == k + (s + (x + (t + (a + block))));
  }

  lemma FileSplits(m: UpdateManifest) returns (n: UpdateManifest)
    requires m.version < TWO_64 && Contains(m.payloadFile, TO_DIGEST)
    ensures Collides(m, n)
  {
    var a, b := PartOf(m.payloadFile, TO_DIGEST);
    n := With(m, m.name, m.hardwareId, m.version, a, b + (TO_DIGEST + m.payloadSha256));
    hide Decimal, Contains, CanonicalBytes;
    assert Tail(n) == Tail(m);
    SameBody(m, n);
    assert |n.payloadFile| < |m.payloadFile|;
  }

  lemma DigestSplits(m: UpdateManifest) returns (n: UpdateManifest)
    requires m.version < TWO_64 && Contains(m.payloadSha256, TO_DIGEST)
    ensures Collides(m, n)
  {
    var a, b := PartOf(m.payloadSha256, TO_DIGEST);
    n := With(m, m.name, m.hardwareId, m.version, m.payloadFile + (TO_DIGEST + a), b);
    hide Decimal, Contains, CanonicalBytes;
    assert Tail(n) == Tail(m);
    SameBody(m, n);
    assert |n.payloadFile| > |m.payloadFile|;
  }

  lemma AmbiguousCollides(m: UpdateManifest) returns (n: UpdateManifest)
    requires m.version < TWO_64 && Ambiguous(m)
    ensures Collides(m, n)
  {
    hide Contains, Collides;
    if Contains(m.name, TO_HARDWARE) {
      n := NameSplits(m);
    } else if Contains(m.hardwareId, TO_HARDWARE) {
      n := HardwareSplits(m);
    } else if ContainsVersion(m.hardwareId) {
      var w: nat :| w < TWO_64 && Contains(m.hardwareId, VersionBlock(w));
      n := HardwareHoldsVersion(m, w);
    } else if ContainsVersion(m.payloadFile) {
      var w: nat :| w < TWO_64 && Contains(m.payloadFile, VersionBlock(w));
      n := FileHoldsVersion(m, w);
    } else if Contains(m.payloadFile, TO_DIGEST) {
      n := FileSplits(m);
    } else {
      n := DigestSplits(m);
    }
  }

  /**
    Exactly the ambiguous manifests share their signed bytes with a manifest of other signed fields: a check on
    the fields of the one manifest alone.
   */
  lemma CanonicalAmbiguous(m: UpdateManifest)
    requires m.version < TWO_64
    ensures (exists n :: Collides(m, n)) <==> Ambiguous(m)
  {
    if Ambiguous(m) {
      var n := AmbiguousCollides(m);
    }
    forall n | Collides(m, n)
      ensures Ambiguous(m)
    {
      SameBody(n, m);
      CollisionIsAmbiguous(m, n);
    }
  }
}
