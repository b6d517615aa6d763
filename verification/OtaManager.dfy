/**
  The update manager: staging a signed package into the inactive slot, committing it and rolling it back.
  Each operation has a specification function on the disk image and the manager's own state, and the method
  that performs it writes the disk step by step.
 */
module OtaManager {
  import opened Bytes
  import opened Fips180
  import opened Hex
  import opened Hmac
  import opened Manifest
  import opened ManifestParser
  import opened Numbers
  import opened Options
  import opened OtaDisk
  import opened Sha256Hasher

  datatype OtaState = Idle | Verifying | Installing | PendingCommit | Failed

  datatype Reason =
    | Busy | ManifestUnreadable | ParseError
    | SignatureLength | SignatureNotHex | SignatureMismatch | HardwareMismatch | NotNewer
    | PayloadUnreadable | DigestMismatch | InstallFailed
    | NothingStaged | NothingToRollBack

  datatype OtaResult = Done | Rejected(why: Reason)

  /** How copying the payload ends: it is there, or the slot holds whatever the failed copy left. */
  datatype CopyOutcome = Copied | Broken(left: Files)

  /** What does not change while an ECU lives. */
  datatype Config = Config(hardwareId: Text, key: seq<bv8>)

  /** What a power loss takes away. */
  datatype Session = Session(state: OtaState, staged: UpdateManifest)

  const NO_MANIFEST: UpdateManifest := UpdateManifest([], [], 0, [], [], [])

  /** The outside world during one call of startUpdate. */
  datatype Package = Package(manifest: Option<Text>, payload: Option<seq<bv8>>, copy: CopyOutcome, stages: seq<Files>)

  // ---- Specification ----

  /** The signature covers the signed fields: up to letter case it is the HMAC of the canonical bytes. */
  predicate Authentic(cfg: Config, m: UpdateManifest) {
    |m.signature| == 64 && LowerText(m.signature) == HexOf(Mac(cfg.key, CanonicalBytes(m)))
  }

  /** Signature first, then hardware, then version. */
  function ManifestVerdict(cfg: Config, installed: nat, m: UpdateManifest): OtaResult {
    if |m.signature| != 64 then Rejected(SignatureLength)
    else if !IsHex(m.signature) then Rejected(SignatureNotHex)
    else if !Authentic(cfg, m) then Rejected(SignatureMismatch)
    else if m.hardwareId != cfg.hardwareId then Rejected(HardwareMismatch)
    else if m.version <= installed then Rejected(NotNewer)
    else Done
  }

  /** A text that is an encoding up to letter case consists of hexadecimal digits. */
  lemma EncodingIsHex(t: Text, d: seq<bv8>)
    requires LowerText(t) == HexOf(d)
    ensures IsHex(t)
  {
    hide Nibble, Join, HexByte, LowerHex;
    forall i | 0 <= i < |t|
      ensures Nibble(t[i]) >= 0
    {
      var k := i / 2;
      HexOfAt(d, k);
      JoinDecodes(t[2 * k], t[2 * k + 1], d[k]);
    }
  }

  /** The signature stage lets a manifest pass exactly when it is authentic, and nothing else does. */
  lemma SignatureDecides(cfg: Config, installed: nat, m: UpdateManifest)
    ensures var r := ManifestVerdict(cfg, installed, m);
            && (r in {Rejected(SignatureLength), Rejected(SignatureNotHex), Rejected(SignatureMismatch)}
                <==> !Authentic(cfg, m))
            && (r == Done <==> Authentic(cfg, m) && m.hardwareId == cfg.hardwareId && m.version > installed)
  {
    hide Mac, CanonicalBytes, IsHex, LowerText, HexOf;
    if Authentic(cfg, m) {
      EncodingIsHex(m.signature, Mac(cfg.key, CanonicalBytes(m)));
    }
  }

  function PayloadVerdict(m: UpdateManifest, payload: Option<seq<bv8>>): OtaResult {
    if payload.None? then Rejected(PayloadUnreadable)
    else if HexOf(Digest(payload.value)) != m.payloadSha256 then Rejected(DigestMismatch)
    else Done
  }

  /** Everything that is checked before a slot is touched; the manifest on success. */
  function Screen(cfg: Config, img: Image, pkg: Package): (OtaResult, UpdateManifest) {
    if pkg.manifest.None? then (Rejected(ManifestUnreadable), NO_MANIFEST)
    else
      var m := Parse(pkg.manifest.value);
      if m.None? then (Rejected(ParseError), NO_MANIFEST)
      else
        var v := ManifestVerdict(cfg, InstalledVersion(img), m.value);
        if v.Rejected? then (v, m.value) else (PayloadVerdict(m.value, pkg.payload), m.value)
  }

  function Staged(files: Files, name: Text, pkg: Package): Files
    requires pkg.payload.Some?
  {
    match pkg.copy
    case Copied => files[name := pkg.payload.value]
    case Broken(left) => left
  }

  function Releases(stages: seq<Files>, version: nat): (s: seq<Slot>)
    ensures |s| == |stages|
  {
    seq(|stages|, i requires 0 <= i < |stages| => Slot(stages[i], version))
  }

  /** startUpdate: the images it leaves on the way, the manager's state afterwards, and the answer. */
  function StartTrail(cfg: Config, img: Image, ses: Session, pkg: Package): seq<Image> {
    var (verdict, m) := Screen(cfg, img, pkg);
    if !ses.state.Idle? || verdict.Rejected? || pkg.payload.None? then []
    else
      var slot := InactiveSlot(img);
      var content := Slot(Staged(SlotOf(img, slot).files, m.payloadFile, pkg), m.version);
      SlotStages(img, slot, Releases(pkg.stages, m.version) + [content])
  }

  function StartSession(cfg: Config, img: Image, ses: Session, pkg: Package): Session {
    var (verdict, m) := Screen(cfg, img, pkg);
    if !ses.state.Idle? then ses
    else if verdict.Rejected? || pkg.copy.Broken? then Session(Idle, ses.staged)
    else Session(PendingCommit, m)
  }

  function StartAnswer(cfg: Config, img: Image, ses: Session, pkg: Package): OtaResult {
    var (verdict, _) := Screen(cfg, img, pkg);
    if !ses.state.Idle? then Rejected(Busy)
    else if verdict.Rejected? then verdict
    else if pkg.copy.Broken? then Rejected(InstallFailed)
    else Done
  }

  /** commit: the version is written before the slot is switched. */
  function CommitTrail(img: Image, ses: Session): seq<Image> {
    if !ses.state.PendingCommit? then []
    else
      var versioned := img.(versionFile := Some(Decimal(ses.staged.version)));
      [versioned, versioned.(activeFile := Some(InactiveSlot(img)))]
  }

  function CommitSession(ses: Session): Session {
    if ses.state.PendingCommit? then ses.(state := Idle) else ses
  }

  /** rollback: the inactive slot is emptied. */
  function RollbackTrail(img: Image, ses: Session, stages: seq<Files>): seq<Image> {
    if !ses.state.PendingCommit? && !ses.state.Failed? then []
    else SlotStages(img, InactiveSlot(img), Releases(stages, 0) + [Slot(map[], 0)])
  }

  function RollbackSession(ses: Session): Session {
    if ses.state.PendingCommit? || ses.state.Failed? then ses.(state := Idle) else ses
  }

  /** Construction after power-up: missing slots and state files are created. */
  function WithSlot(img: Image, slot: Text): Image {
    if slot in img.slots then img else PutSlot(img, slot, Slot(map[], 0))
  }

  function WithActive(img: Image): Image {
    if img.activeFile.Some? then img else img.(activeFile := Some(SLOT_A))
  }

  function WithVersion(img: Image): Image {
    if img.versionFile.Some? then img else img.(versionFile := Some(ZERO))
  }

  function Booted(img: Image): Image {
    WithVersion(WithActive(WithSlot(WithSlot(img, SLOT_A), SLOT_B)))
  }

  /** The images left on the way are those after each write; a step that writes nothing leaves none. */
  function Written(before: Image, after: Image): seq<Image> {
    if before == after then [] else [after]
  }

  function BootTrail(img: Image): seq<Image> {
    var a := WithSlot(img, SLOT_A);
    var b := WithSlot(a, SLOT_B);
    var c := WithActive(b);
    Written(img, a) + Written(a, b) + Written(b, c) + Written(c, WithVersion(c))
  }

  /** The image after the last write of a trail. */
  function Final(img: Image, trail: seq<Image>): Image {
    if trail == [] then img else trail[|trail| - 1]
  }

  /** After power-up nothing is missing, what was there is unchanged; a new slot is empty, a new state file a or 0. */
  lemma BootedExactly(img: Image)
    ensures var b := Booted(img);
            && b.slots.Keys == img.slots.Keys + {"a", "b"}
            && (forall s :: s in img.slots ==> b.slots[s] == img.slots[s])
            && (forall s :: s in b.slots && s !in img.slots ==> b.slots[s].files == map[])
            && b.activeFile == (if img.activeFile.Some? then img.activeFile else Some("a"))
            && b.versionFile == (if img.versionFile.Some? then img.versionFile else Some("0"))
  {
  }

  /** The reason of every answer, on the manifest's fields and the payload alone. */
  lemma ReasonsExactly(cfg: Config, img: Image, ses: Session, pkg: Package)
    ensures var r := StartAnswer(cfg, img, ses, pkg);
            var file, payload := pkg.manifest, pkg.payload;
            && (r == Rejected(Busy) <==> !ses.state.Idle?)
            && (r == Rejected(ManifestUnreadable) <==> ses.state.Idle? && file.None?)
            && (r == Rejected(ParseError) <==> ses.state.Idle? && file.Some? && Parse(file.value).None?)
            && (ses.state.Idle? && file.Some? && Parse(file.value).Some? ==>
              var m := Parse(file.value).value;
              var known := Authentic(cfg, m);
              var fits := known && m.hardwareId == cfg.hardwareId;
              var newer := fits && m.version > InstalledVersion(img);
              var intact := newer && payload.Some? && HexOf(Digest(payload.value)) == m.payloadSha256;
              && (r == Rejected(SignatureLength) <==> |m.signature| != 64)
              && (r == Rejected(SignatureNotHex) <==> |m.signature| == 64 && !IsHex(m.signature))
              && (r == Rejected(SignatureMismatch) <==> |m.signature| == 64 && IsHex(m.signature) && !known)
              && (r == Rejected(HardwareMismatch) <==> known && m.hardwareId != cfg.hardwareId)
              && (r == Rejected(NotNewer) <==> fits && m.version <= InstalledVersion(img))
              && (r == Rejected(PayloadUnreadable) <==> newer && payload.None?)
              && (r == Rejected(DigestMismatch) <==> newer && payload.Some? && !intact)
              && (r == Rejected(InstallFailed) <==> intact && pkg.copy.Broken?)
              && (r == Done <==> intact && pkg.copy.Copied?))
  {
    hide Parse, InstalledVersion, Digest, HexOf, IsHex, LowerText, Mac, CanonicalBytes;
    if pkg.manifest.Some? && Parse(pkg.manifest.value).Some? {
      var m := Parse(pkg.manifest.value).value;
      if Authentic(cfg, m) {
        EncodingIsHex(m.signature, Mac(cfg.key, CanonicalBytes(m)));
      }
    }
  }

  /** A copied payload goes under the manifest's file name, and the slot's other files stay. */
  lemma StagedFiles(files: Files, name: Text, pkg: Package, other: Text)
    requires pkg.payload.Some? && pkg.copy.Copied?
    ensures var staged := Staged(files, name, pkg);
            && name in staged && staged[name] == pkg.payload.value
            && (other != name ==> (other in staged <==> other in files))
            && (other != name && other in files ==> staged[other] == files[other])
  {
  }

  /** The trail of startUpdate: nothing before the package is screened, one rewritten slot afterwards. */
  lemma StartTrailCases(cfg: Config, img: Image, ses: Session, pkg: Package)
    ensures var (verdict, m) := Screen(cfg, img, pkg);
            var trail := StartTrail(cfg, img, ses, pkg);
            var slot := InactiveSlot(img);
            if ses.state.Idle? && verdict.Done? then
              pkg.payload.Some? &&
              var content := Slot(Staged(SlotOf(img, slot).files, m.payloadFile, pkg), m.version);
              && trail == SlotStages(img, slot, Releases(pkg.stages, m.version) + [content])
              && Final(img, trail) == PutSlot(img, slot, content)
            else trail == [] && Final(img, trail) == img
  {
    hide ManifestVerdict, Parse, InstalledVersion, InactiveSlot, Staged;
  }

  /** What is staged has passed every check, whichever way the call ends. */
  lemma StartKeepsInv(cfg: Config, img: Image, ses: Session, pkg: Package)
    requires SessionInv(cfg, img, ses)
    ensures SessionInv(cfg, Final(img, StartTrail(cfg, img, ses, pkg)), StartSession(cfg, img, ses, pkg))
  {
    hide Digest, Mac, CanonicalBytes, InstalledVersion, Parse;
    if pkg.manifest.Some? {
      ParsedVersion(pkg.manifest.value);
    }
    var slot := InactiveSlot(img);
    var done := Final(img, StartTrail(cfg, img, ses, pkg));
    if StartTrail(cfg, img, ses, pkg) != [] {
      SlotWriteKeepsState(img, done);
    }
  }

  lemma SlotWriteKeepsState(img: Image, after: Image)
    requires after.activeFile == img.activeFile && after.versionFile == img.versionFile
    ensures ActiveSlot(after) == ActiveSlot(img) && InactiveSlot(after) == InactiveSlot(img)
    ensures InstalledVersion(after) == InstalledVersion(img)
  {
  }

  /** The manifest's file is there, with the manifest's digest. */
  predicate HoldsPayload(files: Files, m: UpdateManifest) {
    m.payloadFile in files && HexOf(Digest(files[m.payloadFile])) == m.payloadSha256
  }

  /**
    What the manager holds whenever no call is running: no intermediate state, and if an update is pending,
    the staged manifest is authentic, for this hardware and newer than what is installed, and the inactive
    slot holds, under the manifest's file name, bytes with the manifest's digest.
   */
  ghost predicate SessionInv(cfg: Config, img: Image, ses: Session) {
    && (ses.state.Idle? || ses.state.PendingCommit?)
    && (ses.state.PendingCommit? ==>
      var m, slot := ses.staged, SlotOf(img, InactiveSlot(img));
      && Authentic(cfg, m) && m.hardwareId == cfg.hardwareId
      && InstalledVersion(img) < m.version < TWO_64
      && slot.release == m.version
      && HoldsPayload(slot.files, m))
  }

  /** The four ways a start can go. */
  lemma StartCases(cfg: Config, img: Image, ses: Session, pkg: Package)
    ensures var (verdict, m) := Screen(cfg, img, pkg);
            var answer, after := StartAnswer(cfg, img, ses, pkg), StartSession(cfg, img, ses, pkg);
            if !ses.state.Idle? then answer == Rejected(Busy) && after == ses
            else if verdict.Rejected? then answer == verdict && after == Session(Idle, ses.staged)
            else if pkg.copy.Broken? then answer == Rejected(InstallFailed) && after == Session(Idle, ses.staged)
            else answer == Done && after == Session(PendingCommit, m)
  {
    hide Screen;
  }

  // ---- The manager ----

  class OtaManager {
    const disk: Disk
    const cfg: Config
    var state: OtaState
    var staged: UpdateManifest

    function Ses(): Session
      reads this
    {
      Session(state, staged)
    }

    ghost predicate Valid()
      reads this, disk
    {
      SessionInv(cfg, disk.View(), Ses())
    }

    constructor (disk: Disk, cfg: Config)
      modifies disk
      ensures this.disk == disk && this.cfg == cfg
      ensures disk.View() == Booted(old(disk.View())) && disk.trail == old(disk.trail) + BootTrail(old(disk.View()))
      ensures Ses() == Session(Idle, NO_MANIFEST) && Valid()
    {
      this.disk, this.cfg, state, staged := disk, cfg, Idle, NO_MANIFEST;
      new;
      hide WithSlot, Written;
      CreateSlot(disk, SLOT_A);
      CreateSlot(disk, SLOT_B);
      CreateStateFiles(disk);
    }

    static method CreateSlot(disk: Disk, slot: Text)
      modifies disk
      ensures disk.View() == WithSlot(old(disk.View()), slot)
      ensures disk.trail == old(disk.trail) + Written(old(disk.View()), disk.View())
    {
      if slot !in disk.slots {
        disk.WriteSlot(slot, Slot(map[], 0), []);
        assert slot in disk.slots;
      }
    }

    static method CreateStateFiles(disk: Disk)
      modifies disk
      ensures var c := WithActive(old(disk.View()));
              && disk.View() == WithVersion(c)
              && disk.trail == old(disk.trail) + Written(old(disk.View()), c) + Written(c, WithVersion(c))
    {
      if disk.activeFile.None? {
        disk.WriteActive(SLOT_A);
      }
      if disk.versionFile.None? {
        disk.WriteVersion(ZERO);
      }
    }

    method VerifyManifest(m: UpdateManifest) returns (r: OtaResult)
      ensures r == ManifestVerdict(cfg, InstalledVersion(disk.View()), m)
    {
      hide Mac, CanonicalBytes, InstalledVersion;
      var expected := HmacSha256(cfg.key, CanonicalBytes(m));
      if |m.signature| != 64 {
        return Rejected(SignatureLength);
      }
      var isHex, provided := Decode(m.signature, 32);
      if !isHex {
        return Rejected(SignatureNotHex);
      }
      var equal := ConstantTimeEqual(expected[..], provided);
      if HexOf(provided) == HexOf(expected[..]) {
        HexInjective(provided, expected[..]);
      }
      if !equal {
        return Rejected(SignatureMismatch);
      }
      if m.hardwareId != cfg.hardwareId {
        return Rejected(HardwareMismatch);
      }
      if m.version <= InstalledVersion(disk.View()) {
        return Rejected(NotNewer);
      }
      return Done;
    }

    /** The digest of a file, streamed in pieces of 64 KiB. */
    static method StreamDigest(file: seq<bv8>) returns (d: array<bv8>)
      ensures fresh(d) && d[..] == Digest(file)
    {
      hide Digest, Sha256.Absorbed, Sha256.Valid;
      var sha := new Sha256();
      var pos, good := 0, true;
      while good
        invariant sha.Absorbed() && sha.Valid() && fresh(sha) && fresh(sha.h) && fresh(sha.buf)
        invariant pos <= |file| && sha.msg == file[..pos]
        invariant !good ==> pos == |file|
        decreases |file| - pos, good
      {
        var n := if |file| - pos < 65536 then |file| - pos else 65536;
        good := n == 65536;
        if n > 0 {
          assert file[..pos + n] == file[..pos] + file[pos..pos + n];
          sha.Update(file[pos..pos + n]);
          pos := pos + n;
        }
      }
      assert file[..|file|] == file;
      d := sha.Finish();
    }

    method VerifyPayload(m: UpdateManifest, payload: Option<seq<bv8>>) returns (r: OtaResult)
      ensures r == PayloadVerdict(m, payload)
    {
      hide Digest;
      if payload.None? {
        return Rejected(PayloadUnreadable);
      }
      var d := StreamDigest(payload.value);
      var actual := ToHex(d[..]);
      if actual != m.payloadSha256 {
        return Rejected(DigestMismatch);
      }
      return Done;
    }

    method InstallToInactiveSlot(m: UpdateManifest, pkg: Package) returns (r: OtaResult)
      requires pkg.payload.Some?
      modifies disk
      ensures r == if pkg.copy.Broken? then Rejected(InstallFailed) else Done
      ensures var img := old(disk.View());
              var slot := InactiveSlot(img);
              var content := Slot(Staged(SlotOf(img, slot).files, m.payloadFile, pkg), m.version);
              && disk.View() == PutSlot(img, slot, content)
              && disk.trail == old(disk.trail) + SlotStages(img, slot, Releases(pkg.stages, m.version) + [content])
    {
      var slot := InactiveSlot(disk.View());
      var files := Staged(SlotOf(disk.View(), slot).files, m.payloadFile, pkg);
      disk.WriteSlot(slot, Slot(files, m.version), Releases(pkg.stages, m.version));
      return if pkg.copy.Broken? then Rejected(InstallFailed) else Done;
    }

    /** Any failure leaves the manager idle again, so that a corrected package can be tried. */
    method Fail(why: Reason) returns (r: OtaResult)
      modifies this
      ensures r == Rejected(why) && state == Idle && staged == old(staged)
    {
      state := OtaState.Failed;
      state := Idle;
      return Rejected(why);
    }

    /** The part of `StartUpdate` before a slot is touched: read, parse, verify manifest, verify payload. */
    method ScreenPackage(pkg: Package) returns (r: OtaResult, m: UpdateManifest)
      ensures (r, m) == Screen(cfg, disk.View(), pkg)
      ensures r.Done? ==> pkg.payload.Some?
    {
      hide ManifestVerdict, InstalledVersion, Parse;
      m := NO_MANIFEST;
      if pkg.manifest.None? {
        return Rejected(ManifestUnreadable), m;
      }
      var parsed := ParseManifest(pkg.manifest.value);
      if parsed.None? {
        return Rejected(ParseError), m;
      }
      m := parsed.value;
      r := VerifyManifest(m);
      if r.Done? {
        r := VerifyPayload(m, pkg.payload);
      }
    }

    method StartUpdate(pkg: Package) returns (r: OtaResult)
      requires Valid()
      modifies this, disk
      ensures r == StartAnswer(cfg, old(disk.View()), old(Ses()), pkg)
      ensures Ses() == StartSession(cfg, old(disk.View()), old(Ses()), pkg)
      ensures disk.trail == old(disk.trail) + StartTrail(cfg, old(disk.View()), old(Ses()), pkg)
      ensures disk.View() == Final(old(disk.View()), StartTrail(cfg, old(disk.View()), old(Ses()), pkg))
      ensures Valid()
    {
      ghost var img, ses := disk.View(), Ses();
      StartKeepsInv(cfg, img, ses, pkg);
      StartTrailCases(cfg, img, ses, pkg);
      StartCases(cfg, img, ses, pkg);
      hide SessionInv, StartTrail, SlotStages, PutSlot, Screen, InactiveSlot, Staged, Releases, Final;
      hide StartAnswer, StartSession, SlotOf;
      if state != Idle {
        return Rejected(Busy);
      }
      state := Verifying;
      var m;
      r, m := ScreenPackage(pkg);
      if r.Rejected? {
        r := Fail(r.why);
        return;
      }
      state := Installing;
      r := InstallToInactiveSlot(m, pkg);
      if r.Rejected? {
        r := Fail(r.why);
        return;
      }
      staged := m;
      state := PendingCommit;
      return Done;
    }

    method Commit() returns (r: OtaResult)
      requires Valid()
      modifies this, disk
      ensures r == if old(state) == PendingCommit then Done else Rejected(NothingStaged)
      ensures Ses() == CommitSession(old(Ses()))
      ensures disk.trail == old(disk.trail) + CommitTrail(old(disk.View()), old(Ses()))
      ensures disk.View() == Final(old(disk.View()), CommitTrail(old(disk.View()), old(Ses())))
      ensures Valid()
    {
      hide Authentic, HoldsPayload, InstalledVersion, Decimal;
      if state != PendingCommit {
        return Rejected(NothingStaged);
      }
      var newActive := InactiveSlot(disk.View());
      disk.WriteVersion(Decimal(staged.version));
      disk.WriteActive(newActive);
      state := Idle;
      return Done;
    }

    method Rollback(ghost stages: seq<Files>) returns (r: OtaResult)
      requires Valid()
      modifies this, disk
      ensures r == if old(state) == PendingCommit then Done else Rejected(NothingToRollBack)
      ensures Ses() == RollbackSession(old(Ses()))
      ensures disk.trail == old(disk.trail) + RollbackTrail(old(disk.View()), old(Ses()), stages)
      ensures disk.View() == Final(old(disk.View()), RollbackTrail(old(disk.View()), old(Ses()), stages))
      ensures Valid()
    {
      if state != PendingCommit && state != OtaState.Failed {
        return Rejected(NothingToRollBack);
      }
      disk.WriteSlot(InactiveSlot(disk.View()), Slot(map[], 0), Releases(stages, 0));
      state := Idle;
      return Done;
    }
  }
}
