/**
  Whole lives of an ECU: updates, commits, rollbacks, power losses after any disk write of any operation, and
  restarts. The operations are those of `OtaManager`; a power loss keeps the disk image after the last
  completed write and loses the manager's own state.
 */
module OtaRuns {
  import opened Bytes
  import opened Fips180
  import opened Hex
  import opened Hmac
  import opened Manifest
  import opened Options
  import opened ManifestParser
  import opened ManifestPrinter
  import opened Numbers
  import opened OtaDisk
  import opened OtaManager

  /** The disk, and the manager's own state while it runs. */
  datatype World = World(disk: Image, session: Option<Session>)

  datatype Operation = Boot | Start(pkg: Package) | Commit | Rollback(stages: seq<Files>)

  /** An operation either finishes or is cut off after some of its writes. */
  datatype Event = Finish(op: Operation) | PowerLoss(op: Operation, writes: nat)

  /** The manager boots once, and then serves calls. */
  predicate Callable(w: World, op: Operation) {
    op.Boot? <==> w.session.None?
  }

  function Trail(cfg: Config, w: World, op: Operation): seq<Image>
    requires Callable(w, op)
  {
    match op
    case Boot => BootTrail(w.disk)
    case Start(pkg) => StartTrail(cfg, w.disk, w.session.value, pkg)
    case Commit => CommitTrail(w.disk, w.session.value)
    case Rollback(stages) => RollbackTrail(w.disk, w.session.value, stages)
  }

  function SessionAfter(cfg: Config, w: World, op: Operation): Session
    requires Callable(w, op)
  {
    match op
    case Boot => Session(Idle, NO_MANIFEST)
    case Start(pkg) => StartSession(cfg, w.disk, w.session.value, pkg)
    case Commit => CommitSession(w.session.value)
    case Rollback(_) => RollbackSession(w.session.value)
  }

  predicate Possible(cfg: Config, w: World, e: Event) {
    Callable(w, e.op) && (e.PowerLoss? ==> e.writes <= |Trail(cfg, w, e.op)|)
  }

  function After(cfg: Config, w: World, e: Event): World
    requires Possible(cfg, w, e)
  {
    match e
    case Finish(op) => World(Final(w.disk, Trail(cfg, w, op)), Some(SessionAfter(cfg, w, op)))
    case PowerLoss(op, writes) => World(Final(w.disk, Trail(cfg, w, op)[..writes]), None)
  }

  ghost predicate Run(cfg: Config, w: World, events: seq<Event>, end: World)
    decreases |events|
  {
    if events == [] then w == end
    else Possible(cfg, w, events[0]) && Run(cfg, After(cfg, w, events[0]), events[1..], end)
  }

  /** The image in the active slot is not newer than what is recorded as installed. */
  predicate ActiveRecorded(img: Image) {
    SlotOf(img, ActiveSlot(img)).release <= InstalledVersion(img)
  }

  ghost predicate Inv(cfg: Config, w: World) {
    ActiveRecorded(w.disk) && (w.session.Some? ==> SessionInv(cfg, w.disk, w.session.value))
  }

  /** What no write of any operation ever does to a disk: lower the version, or touch the slot in use. */
  ghost predicate SafeSuccessor(before: Image, after: Image) {
    && InstalledVersion(before) <= InstalledVersion(after)
    && SlotOf(after, ActiveSlot(before)).files == SlotOf(before, ActiveSlot(before)).files
    && ActiveRecorded(after)
  }

  /** Images that differ in nothing the manager can tell. */
  ghost predicate Alike(a: Image, b: Image) {
    && ActiveSlot(a) == ActiveSlot(b) && InstalledVersion(a) == InstalledVersion(b)
    && forall s :: SlotOf(a, s) == SlotOf(b, s)
  }

  lemma BootImages(img: Image, k: nat)
    requires k <= |BootTrail(img)|
    ensures Alike(img, Final(img, BootTrail(img)[..k]))
    ensures Final(img, BootTrail(img)) == Booted(img)
  {
    var a := WithSlot(img, SLOT_A);
    var b := WithSlot(a, SLOT_B);
    var c := WithActive(b);
    var d := WithVersion(c);
    BootSlot(img, SLOT_A);
    BootSlot(a, SLOT_B);
    BootFiles(b);
    hide Alike, WithSlot, WithActive, WithVersion;
    AlikeChain(img, a, b, c, d);
    assert forall i :: 0 <= i < |BootTrail(img)| ==> BootTrail(img)[i] in {a, b, c, d};
    assert k > 0 ==> BootTrail(img)[..k][k - 1] == BootTrail(img)[k - 1];
  }

  lemma BootSlot(img: Image, slot: Text)
    ensures Alike(img, WithSlot(img, slot))
  {
    SlotWriteKeepsState(img, WithSlot(img, slot));
  }

  lemma BootFiles(img: Image)
    ensures Alike(img, WithActive(img))
    ensures Alike(WithActive(img), WithVersion(WithActive(img)))
  {
    hide Stoull;
    assert OneLine(SLOT_A) && OneLine(ZERO);
    assert SLOT_A != [] && ZERO != [];
  }

  lemma AlikeChain(a: Image, b: Image, c: Image, d: Image, e: Image)
    requires Alike(a, b) && Alike(b, c) && Alike(c, d) && Alike(d, e)
    ensures Alike(a, a) && Alike(a, c) && Alike(a, d) && Alike(a, e)
  {
  }

  lemma SlotRewriteSafe(img: Image, content: Slot)
    requires ActiveRecorded(img)
    ensures SafeSuccessor(img, PutSlot(img, InactiveSlot(img), content))
  {
    hide ActiveSlot, InactiveSlot, InstalledVersion;
    SlotWriteKeepsState(img, PutSlot(img, InactiveSlot(img), content));
    OtherSlot(img, InactiveSlot(img), content, ActiveSlot(img));
  }

  lemma OtherSlot(img: Image, slot: Text, content: Slot, other: Text)
    requires slot != other
    ensures SlotOf(PutSlot(img, slot, content), other) == SlotOf(img, other)
  {
  }

  /** Rewriting the inactive slot, at any stage. */
  lemma SlotStageSafe(img: Image, stages: seq<Slot>, k: nat)
    requires ActiveRecorded(img) && k <= |stages|
    ensures SafeSuccessor(img, Final(img, SlotStages(img, InactiveSlot(img), stages)[..k]))
  {
    hide ActiveSlot, InactiveSlot, InstalledVersion, SafeSuccessor, PutSlot;
    if k > 0 {
      SlotRewriteSafe(img, stages[k - 1]);
      assert SlotStages(img, InactiveSlot(img), stages)[..k][k - 1] == PutSlot(img, InactiveSlot(img), stages[k - 1]);
    } else {
      SafeItself(img);
    }
  }

  lemma SafeItself(img: Image)
    requires ActiveRecorded(img)
    ensures SafeSuccessor(img, img)
  {
    hide ActiveSlot, InstalledVersion;
  }

  /** The two images of a commit. */
  lemma CommitImages(cfg: Config, img: Image, ses: Session)
    requires SessionInv(cfg, img, ses) && ses.state.PendingCommit?
    ensures |CommitTrail(img, ses)| == 2
    ensures var versioned := CommitTrail(img, ses)[0];
            && ActiveSlot(versioned) == ActiveSlot(img) && versioned.slots == img.slots
            && InstalledVersion(versioned) == ses.staged.version
    ensures var done := CommitTrail(img, ses)[1];
            && ActiveSlot(done) == InactiveSlot(img) && done.slots == img.slots
            && InstalledVersion(done) == ses.staged.version
  {
    hide Digest, Mac, CanonicalBytes, Stoull, Decimal;
    VersionReadsBack(img, ses.staged.version);
    SlotNamesReadBack(img.(versionFile := Some(Decimal(ses.staged.version))), InactiveSlot(img));
  }

  /** Every image that passes over the disk during an operation is a safe successor of the one before it. */
  lemma EveryImageSafe(cfg: Config, w: World, op: Operation, k: nat)
    requires Inv(cfg, w) && Callable(w, op) && k <= |Trail(cfg, w, op)|
    ensures SafeSuccessor(w.disk, Final(w.disk, Trail(cfg, w, op)[..k]))
  {
    hide SessionInv, InstalledVersion, ActiveSlot, InactiveSlot, Screen, BootTrail, SlotStages;
    assert Trail(cfg, w, op)[..0] == [];
    match op
    case Boot =>
      BootImages(w.disk, k);
    case Start(pkg) =>
      StartTrailCases(cfg, w.disk, w.session.value, pkg);
      var slot := InactiveSlot(w.disk);
      if Trail(cfg, w, op) != [] {
        var m := Screen(cfg, w.disk, pkg).1;
        var content := Slot(Staged(SlotOf(w.disk, slot).files, m.payloadFile, pkg), m.version);
        SlotStageSafe(w.disk, Releases(pkg.stages, m.version) + [content], k);
      }
    case Commit =>
      if w.session.value.state.PendingCommit? {
        CommitSafe(cfg, w.disk, w.session.value, k);
      }
    case Rollback(stages) =>
      if Trail(cfg, w, op) != [] {
        SlotStageSafe(w.disk, Releases(stages, 0) + [Slot(map[], 0)], k);
      }
  }

  lemma CommitSafe(cfg: Config, img: Image, ses: Session, k: nat)
    requires ActiveRecorded(img) && SessionInv(cfg, img, ses) && ses.state.PendingCommit?
    requires k <= |CommitTrail(img, ses)|
    ensures SafeSuccessor(img, Final(img, CommitTrail(img, ses)[..k]))
  {
    hide SessionInv, InstalledVersion, ActiveSlot, InactiveSlot, CommitTrail;
    hide SafeSuccessor, Authentic, HoldsPayload, SlotOf;
    CommitImages(cfg, img, ses);
    PendingRelease(cfg, img, ses);
    var trail := CommitTrail(img, ses);
    if k == 0 {
      SafeItself(img);
    } else {
      assert trail[..k][k - 1] == trail[k - 1];
      SameSlotsSafe(img, trail[k - 1]);
    }
  }

  /** What the invariant says while an update is pending. */
  lemma PendingRelease(cfg: Config, img: Image, ses: Session)
    requires SessionInv(cfg, img, ses) && ses.state.PendingCommit?
    ensures SlotOf(img, InactiveSlot(img)).release == ses.staged.version > InstalledVersion(img)
    ensures Authentic(cfg, ses.staged) && ses.staged.hardwareId == cfg.hardwareId
    ensures HoldsPayload(SlotOf(img, InactiveSlot(img)).files, ses.staged)
  {
    hide InstalledVersion, ActiveSlot, InactiveSlot, Digest, Authentic, HexOf;
  }

  lemma SameSlotsSafe(before: Image, after: Image)
    requires after.slots == before.slots && ActiveRecorded(before)
    requires InstalledVersion(before) <= InstalledVersion(after)
    requires ActiveSlot(after) == ActiveSlot(before)
          || SlotOf(before, ActiveSlot(after)).release <= InstalledVersion(after)
    ensures SafeSuccessor(before, after)
  {
    hide InstalledVersion, ActiveSlot;
  }

  lemma EventInv(cfg: Config, w: World, e: Event)
    requires Inv(cfg, w) && Possible(cfg, w, e)
    ensures Inv(cfg, After(cfg, w, e))
    ensures SafeSuccessor(w.disk, After(cfg, w, e).disk)
  {
    var trail := Trail(cfg, w, e.op);
    EveryImageSafe(cfg, w, e.op, if e.PowerLoss? then e.writes else |trail|);
    assert trail[..|trail|] == trail;
    if e.Finish? {
      FinishedSession(cfg, w, e.op);
    }
  }

  lemma FinishedSession(cfg: Config, w: World, op: Operation)
    requires Inv(cfg, w) && Callable(w, op)
    ensures SessionInv(cfg, Final(w.disk, Trail(cfg, w, op)), SessionAfter(cfg, w, op))
  {
    match op
    case Boot =>
    case Start(pkg) =>
      hide SessionInv;
      StartKeepsInv(cfg, w.disk, w.session.value, pkg);
    case Commit =>
      IdleInv(cfg, w.disk, Final(w.disk, Trail(cfg, w, op)), w.session.value);
    case Rollback(_) =>
      IdleInv(cfg, w.disk, Final(w.disk, Trail(cfg, w, op)), w.session.value);
  }

  /** With nothing pending the disk does not matter. */
  lemma IdleInv(cfg: Config, before: Image, after: Image, ses: Session)
    requires SessionInv(cfg, before, ses)
    ensures SessionInv(cfg, after, ses.(state := Idle))
    ensures !ses.state.PendingCommit? ==> ses.state == Idle
  {
    hide Authentic, HoldsPayload, InstalledVersion;
  }

  /** A new unit, switched off, whose slots the manager has never written. */
  lemma FactoryInv(cfg: Config, img: Image)
    requires forall s :: s in img.slots ==> img.slots[s].release == 0
    ensures Inv(cfg, World(img, None))
  {
    hide ActiveSlot, InstalledVersion;
  }

  /**
    Over every run, with power losses anywhere: the installed version never decreases, the active image is
    never newer than the installed version, and a pending update has passed all its checks.
   */
  lemma {:induction false} RunSafety(cfg: Config, w: World, events: seq<Event>, end: World)
    requires Inv(cfg, w) && Run(cfg, w, events, end)
    ensures Inv(cfg, end)
    ensures InstalledVersion(w.disk) <= InstalledVersion(end.disk)
    decreases |events|
  {
    hide Inv, Possible, After, InstalledVersion;
    if events != [] {
      EventInv(cfg, w, events[0]);
      RunSafety(cfg, After(cfg, w, events[0]), events[1..], end);
    }
  }

  /** No event, whether it finishes or is cut off, changes a file of the slot that was active before it. */
  lemma ActiveSlotUntouched(cfg: Config, start: World, events: seq<Event>, w: World, e: Event)
    requires Inv(cfg, start) && Run(cfg, start, events, w) && Possible(cfg, w, e)
    ensures var slot := ActiveSlot(w.disk);
            SlotOf(After(cfg, w, e).disk, slot).files == SlotOf(w.disk, slot).files
  {
    RunSafety(cfg, start, events, w);
    EventInv(cfg, w, e);
  }

  /**
    A finished commit strictly raises the installed version, and the slot that is active afterwards holds the
    bytes that were staged, under the name and with the digest of an authentic manifest for this hardware.
   */
  lemma CommitActivates(cfg: Config, start: World, events: seq<Event>, w: World)
    requires Inv(cfg, start) && Run(cfg, start, events, w)
    requires w.session.Some? && w.session.value.state.PendingCommit?
    ensures var done := After(cfg, w, Finish(Commit)).disk;
            var m := w.session.value.staged;
            var files := SlotOf(done, ActiveSlot(done)).files;
            && InstalledVersion(w.disk) < InstalledVersion(done) == m.version
            && ActiveSlot(done) == InactiveSlot(w.disk)
            && files == SlotOf(w.disk, InactiveSlot(w.disk)).files
            && Authentic(cfg, m) && m.hardwareId == cfg.hardwareId && HoldsPayload(files, m)
  {
    hide SessionInv, InstalledVersion, ActiveSlot, InactiveSlot, CommitTrail, Authentic, HoldsPayload;
    RunSafety(cfg, start, events, w);
    CommitImages(cfg, w.disk, w.session.value);
    PendingRelease(cfg, w.disk, w.session.value);
  }

  /** Authentic, for this hardware, newer than what is installed, intact, and copied without an error. */
  predicate GoodPackage(cfg: Config, img: Image, pkg: Package, m: UpdateManifest) {
    && pkg.manifest.Some? && Parse(pkg.manifest.value) == Some(m)
    && Authentic(cfg, m) && m.hardwareId == cfg.hardwareId && m.version > InstalledVersion(img)
    && pkg.payload.Some? && HexOf(Digest(pkg.payload.value)) == m.payloadSha256 && pkg.copy.Copied?
  }

  lemma GoodPackageIsStaged(cfg: Config, img: Image, ses: Session, pkg: Package, m: UpdateManifest)
    requires ses.state.Idle? && GoodPackage(cfg, img, pkg, m)
    ensures StartAnswer(cfg, img, ses, pkg) == Done
    ensures StartSession(cfg, img, ses, pkg) == Session(PendingCommit, m)
    ensures var staged := Final(img, StartTrail(cfg, img, ses, pkg));
            && staged.activeFile == img.activeFile && staged.versionFile == img.versionFile
            && var files := SlotOf(staged, InactiveSlot(img)).files;
               m.payloadFile in files && files[m.payloadFile] == pkg.payload.value
  {
    hide Parse, Authentic, InstalledVersion, InactiveSlot, Digest, HexOf;
    SignatureDecides(cfg, InstalledVersion(img), m);
    hide ManifestVerdict;
    StartTrailCases(cfg, img, ses, pkg);
  }

  /**
    Nothing good is refused: an idle manager stages every good package, and the commit that follows makes its
    payload the active one, under its version.
   */
  lemma GoodPackageGoesLive(cfg: Config, img: Image, ses: Session, pkg: Package, m: UpdateManifest)
    requires SessionInv(cfg, img, ses) && ses.state.Idle? && GoodPackage(cfg, img, pkg, m)
    ensures StartAnswer(cfg, img, ses, pkg) == Done
    ensures var staged := Final(img, StartTrail(cfg, img, ses, pkg));
            var done := Final(staged, CommitTrail(staged, StartSession(cfg, img, ses, pkg)));
            var files := SlotOf(done, ActiveSlot(done)).files;
            && ActiveSlot(done) == InactiveSlot(img) && InstalledVersion(done) == m.version
            && m.payloadFile in files && files[m.payloadFile] == pkg.payload.value
  {
    hide Parse, Authentic, InstalledVersion, ActiveSlot, InactiveSlot, SessionInv, CommitTrail, StartTrail;
    hide Digest, HexOf, StartSession, StartAnswer;
    GoodPackageIsStaged(cfg, img, ses, pkg, m);
    var staged := Final(img, StartTrail(cfg, img, ses, pkg));
    StartKeepsInv(cfg, img, ses, pkg);
    SlotWriteKeepsState(img, staged);
    CommitImages(cfg, staged, Session(PendingCommit, m));
  }

  // ---- What is in the active slot ----

  /** Files that came from an authentic manifest for this hardware, of this version or an older one. */
  ghost predicate Trusted(cfg: Config, files: Files, version: nat) {
    exists m :: Authentic(cfg, m) && m.hardwareId == cfg.hardwareId && m.version <= version && HoldsPayload(files, m)
  }

  function ActiveFiles(img: Image): Files {
    SlotOf(img, ActiveSlot(img)).files
  }

  /** Rewriting a slot does not move the active one. */
  lemma StagesKeepActive(img: Image, slot: Text, stages: seq<Slot>, k: nat)
    requires k <= |stages|
    ensures ActiveSlot(Final(img, SlotStages(img, slot, stages)[..k])) == ActiveSlot(img)
  {
    if k > 0 {
      assert SlotStages(img, slot, stages)[..k][k - 1] == PutSlot(img, slot, stages[k - 1]);
      SlotWriteKeepsState(img, PutSlot(img, slot, stages[k - 1]));
    } else {
      assert SlotStages(img, slot, stages)[..k] == [];
    }
  }

  lemma OperationKeepsActive(cfg: Config, w: World, op: Operation, k: nat)
    requires Callable(w, op) && k <= |Trail(cfg, w, op)| && !op.Commit?
    ensures ActiveSlot(Final(w.disk, Trail(cfg, w, op)[..k])) == ActiveSlot(w.disk)
  {
    hide ActiveSlot, InactiveSlot, Screen, BootTrail, SlotStages, InstalledVersion;
    assert Trail(cfg, w, op)[..0] == [];
    match op
    case Boot =>
      BootImages(w.disk, k);
    case Start(pkg) =>
      StartTrailCases(cfg, w.disk, w.session.value, pkg);
      if Trail(cfg, w, op) != [] {
        var slot, m := InactiveSlot(w.disk), Screen(cfg, w.disk, pkg).1;
        var content := Slot(Staged(SlotOf(w.disk, slot).files, m.payloadFile, pkg), m.version);
        StagesKeepActive(w.disk, slot, Releases(pkg.stages, m.version) + [content], k);
      }
    case Commit =>
    case Rollback(stages) =>
      if Trail(cfg, w, op) != [] {
        StagesKeepActive(w.disk, InactiveSlot(w.disk), Releases(stages, 0) + [Slot(map[], 0)], k);
      }
  }

  lemma CommitTrusted(cfg: Config, img: Image, ses: Session, k: nat)
    requires SessionInv(cfg, img, ses) && k <= |CommitTrail(img, ses)|
    ensures var after := Final(img, CommitTrail(img, ses)[..k]);
            ActiveFiles(after) == ActiveFiles(img) || Trusted(cfg, ActiveFiles(after), InstalledVersion(after))
  {
    hide SessionInv, InstalledVersion, ActiveSlot, InactiveSlot, Authentic, HoldsPayload;
    var trail := CommitTrail(img, ses);
    if k == 0 {
      assert trail[..k] == [];
    } else {
      hide CommitTrail;
      assert trail[..k][k - 1] == trail[k - 1];
      PendingTrail(img, ses);
      CommitImages(cfg, img, ses);
      PendingRelease(cfg, img, ses);
    }
  }

  lemma PendingTrail(img: Image, ses: Session)
    ensures CommitTrail(img, ses) != [] ==> ses.state.PendingCommit?
  {
  }

  lemma EventTrusted(cfg: Config, w: World, e: Event)
    requires Inv(cfg, w) && Possible(cfg, w, e)
    ensures var after := After(cfg, w, e).disk;
            ActiveFiles(after) == ActiveFiles(w.disk) || Trusted(cfg, ActiveFiles(after), InstalledVersion(after))
  {
    hide SessionInv, InstalledVersion, ActiveSlot, Trusted, CommitTrail;
    var trail := Trail(cfg, w, e.op);
    var k := if e.PowerLoss? then e.writes else |trail|;
    assert trail[..|trail|] == trail;
    if e.op.Commit? {
      CommitTrusted(cfg, w.disk, w.session.value, k);
    } else {
      hide Trail;
      OperationKeepsActive(cfg, w, e.op, k);
      EveryImageSafe(cfg, w, e.op, k);
    }
  }

  /**
    In every run the active slot holds what the unit started with, or, under an authentic manifest for this
    hardware that is not newer than the recorded version, bytes with that manifest's digest.
   */
  lemma {:induction false} ActiveIsTrusted(cfg: Config, w: World, events: seq<Event>, end: World)
    requires Inv(cfg, w) && Run(cfg, w, events, end)
    ensures ActiveFiles(end.disk) == ActiveFiles(w.disk)
         || Trusted(cfg, ActiveFiles(end.disk), InstalledVersion(end.disk))
    decreases |events|
  {
    hide Inv, Possible, After, InstalledVersion, ActiveFiles, Authentic, HoldsPayload;
    if events != [] {
      EventInv(cfg, w, events[0]);
      EventTrusted(cfg, w, events[0]);
      RunSafety(cfg, After(cfg, w, events[0]), events[1..], end);
      ActiveIsTrusted(cfg, After(cfg, w, events[0]), events[1..], end);
    }
  }

  /** The manager accepts a package exactly when it is idle and the package is good. */
  lemma AcceptedExactly(cfg: Config, img: Image, ses: Session, pkg: Package)
    ensures StartAnswer(cfg, img, ses, pkg) == Done <==> ses.state.Idle? && exists m :: GoodPackage(cfg, img, pkg, m)
  {
    hide Parse, Authentic, InstalledVersion, Digest, HexOf;
    if pkg.manifest.Some? && Parse(pkg.manifest.value).Some? {
      var m := Parse(pkg.manifest.value).value;
      SignatureDecides(cfg, InstalledVersion(img), m);
      hide ManifestVerdict;
      assert StartAnswer(cfg, img, ses, pkg) == Done ==> GoodPackage(cfg, img, pkg, m);
    }
  }

  // ---- Who can be updated at all ----

  const IMAGE_FILE: Text := "image"

  /** An update of a given unit: one version on, signed with its key. */
  function NextManifest(cfg: Config, img: Image, payload: seq<bv8>): UpdateManifest {
    var digest := HexOf(Digest(payload));
    var m := UpdateManifest(IMAGE_FILE, cfg.hardwareId, InstalledVersion(img) + 1, IMAGE_FILE, digest, []);
    m.(signature := HexOf(Mac(cfg.key, CanonicalBytes(m))))
  }

  function NextPackage(cfg: Config, img: Image, payload: seq<bv8>): Package {
    Package(Some(PlainDocument(NextManifest(cfg, img, payload))), Some(payload), Copied, [])
  }

  lemma HexEndsWell(d: seq<bv8>)
    ensures !EndsWithBackslash(HexOf(d))
  {
    EncodingIsLower(d);
    EncodingIsHex(HexOf(d), d);
    assert Nibble(BACKSLASH) < 0;
  }

  lemma ImageFileEndsWell()
    ensures !EndsWithBackslash(IMAGE_FILE)
  {
  }

  lemma NextManifestIsGood(cfg: Config, img: Image, payload: seq<bv8>)
    requires InstalledVersion(img) + 1 < TWO_64 && !EndsWithBackslash(cfg.hardwareId)
    ensures var m := NextManifest(cfg, img, payload); Authentic(cfg, m) && Readable(m)
  {
    hide Mac, Digest, InstalledVersion, EndsWithBackslash, CanonicalText, LowerText, HexOf;
    var m := NextManifest(cfg, img, payload);
    var mac := Mac(cfg.key, CanonicalBytes(m));
    SameSignedText(m, m.(signature := []));
    EncodingIsLower(mac);
    HexEndsWell(mac);
    HexEndsWell(Digest(payload));
    ImageFileEndsWell();
  }

  /** The signature is not among the signed fields. */
  lemma SameSignedText(m: UpdateManifest, n: UpdateManifest)
    requires m == n.(signature := m.signature)
    ensures CanonicalBytes(m) == CanonicalBytes(n)
  {
    hide Line, Decimal;
  }

  lemma NextPackageIsGood(cfg: Config, img: Image, payload: seq<bv8>)
    requires InstalledVersion(img) + 1 < TWO_64 && !EndsWithBackslash(cfg.hardwareId)
    ensures GoodPackage(cfg, img, NextPackage(cfg, img, payload), NextManifest(cfg, img, payload))
  {
    hide Mac, Digest, HexOf, Authentic, CanonicalBytes, InstalledVersion;
    hide EndsWithBackslash, Readable, PlainDocument, Parse;
    NextManifestIsGood(cfg, img, payload);
    PlainDocumentReads(NextManifest(cfg, img, payload));
  }

  /**
    Some package is good for a unit, and so can bring it forward, exactly when its version counter is not
    exhausted and its hardware identifier does not end in a backslash.
   */
  lemma UpdatableExactly(cfg: Config, img: Image)
    ensures (exists pkg, m :: GoodPackage(cfg, img, pkg, m))
       <==> InstalledVersion(img) + 1 < TWO_64 && !EndsWithBackslash(cfg.hardwareId)
  {
    if InstalledVersion(img) + 1 < TWO_64 && !EndsWithBackslash(cfg.hardwareId) {
      NextPackageIsGood(cfg, img, []);
    }
    hide Parse, Authentic, InstalledVersion, Digest, HexOf, EndsWithBackslash;
    forall pkg, m | GoodPackage(cfg, img, pkg, m)
      ensures InstalledVersion(img) + 1 < TWO_64 && !EndsWithBackslash(cfg.hardwareId)
    {
      ParsedIsReadable(pkg.manifest.value);
    }
  }

  /**
    Wherever an update is pending, rolling it back empties the inactive slot and ends the update; both state files,
    the active slot with all it holds, and the installed version stay.
   */
  lemma RollbackExactly(cfg: Config, w: World, stages: seq<Files>)
    requires w.session.Some? && w.session.value.state.PendingCommit?
    ensures var after := After(cfg, w, Finish(Rollback(stages)));
            && SlotOf(after.disk, InactiveSlot(w.disk)).files == map[]
            && after.disk.activeFile == w.disk.activeFile && after.disk.versionFile == w.disk.versionFile
            && ActiveSlot(after.disk) == ActiveSlot(w.disk) && InstalledVersion(after.disk) == InstalledVersion(w.disk)
            && SlotOf(after.disk, ActiveSlot(w.disk)) == SlotOf(w.disk, ActiveSlot(w.disk))
            && after.session == Some(Session(Idle, w.session.value.staged))
  {
    RolledBack(w.disk, w.session.value, stages);
    hide RollbackTrail, Final, InactiveSlot, ActiveSlot, InstalledVersion, SlotOf;
  }

  lemma RolledBack(img: Image, ses: Session, stages: seq<Files>)
    requires ses.state.PendingCommit?
    ensures var after := Final(img, RollbackTrail(img, ses, stages));
            && SlotOf(after, InactiveSlot(img)).files == map[]
            && after.activeFile == img.activeFile && after.versionFile == img.versionFile
            && ActiveSlot(after) == ActiveSlot(img) && InstalledVersion(after) == InstalledVersion(img)
            && SlotOf(after, ActiveSlot(img)) == SlotOf(img, ActiveSlot(img))
  {
    hide InactiveSlot, InstalledVersion, ActiveSlot;
    var slot := InactiveSlot(img);
    assert Final(img, RollbackTrail(img, ses, stages)) == PutSlot(img, slot, Slot(map[], 0));
    SlotWriteKeepsState(img, PutSlot(img, slot, Slot(map[], 0)));
    OtherSlot(img, slot, Slot(map[], 0), ActiveSlot(img));
  }

  /** When nothing is pending, commit and rollback change nothing; a finished commit ends the update. */
  lemma CommitEnds(cfg: Config, w: World, stages: seq<Files>)
    requires w.session.Some? && SessionInv(cfg, w.disk, w.session.value)
    ensures w.session.value.state.Idle? ==>
              After(cfg, w, Finish(Commit)) == w && After(cfg, w, Finish(Rollback(stages))) == w
    ensures After(cfg, w, Finish(Commit)).session == Some(Session(Idle, w.session.value.staged))
  {
    hide Authentic, HoldsPayload, InstalledVersion, InactiveSlot;
  }

  /** A start that does not succeed leaves the state files and the active slot as they were. */
  lemma FailedStartHarmless(cfg: Config, w: World, pkg: Package)
    requires Inv(cfg, w) && w.session.Some?
    requires StartAnswer(cfg, w.disk, w.session.value, pkg).Rejected?
    ensures var after := After(cfg, w, Finish(Start(pkg))).disk;
            && after.activeFile == w.disk.activeFile && after.versionFile == w.disk.versionFile
            && SlotOf(after, ActiveSlot(after)) == SlotOf(w.disk, ActiveSlot(w.disk))
            && (StartAnswer(cfg, w.disk, w.session.value, pkg) != Rejected(InstallFailed) ==> after == w.disk)
    ensures After(cfg, w, Finish(Start(pkg))).session == w.session
  {
    FailedStart(cfg, w.disk, w.session.value, pkg);
    hide StartAnswer, StartTrail, StartSession, Final, ActiveSlot, SlotOf;
  }

  lemma FailedStart(cfg: Config, img: Image, ses: Session, pkg: Package)
    requires StartAnswer(cfg, img, ses, pkg).Rejected?
    ensures var after := Final(img, StartTrail(cfg, img, ses, pkg));
            && after.activeFile == img.activeFile && after.versionFile == img.versionFile
            && SlotOf(after, ActiveSlot(after)) == SlotOf(img, ActiveSlot(img))
            && (StartAnswer(cfg, img, ses, pkg) != Rejected(InstallFailed) ==> after == img)
    ensures StartSession(cfg, img, ses, pkg) == ses
  {
    StartTrailCases(cfg, img, ses, pkg);
    hide Screen, InactiveSlot, Staged, Releases, StartTrail, Final, SlotStages;
    SlotWriteKeepsState(img, Final(img, StartTrail(cfg, img, ses, pkg)));
  }

  /**
    Power loss between the two writes of a commit: the new version is recorded while the old slot stays
    active. From then on, over every run, a package is accepted only if it is strictly newer than the one
    whose commit was cut off; that same package is refused.
   */
  lemma InterruptedCommit(cfg: Config, w: World, events: seq<Event>, later: World, pkg: Package)
    requires Inv(cfg, w) && w.session.Some? && w.session.value.state.PendingCommit?
    requires Possible(cfg, w, PowerLoss(Commit, 1))
    requires Run(cfg, After(cfg, w, PowerLoss(Commit, 1)), events, later)
    ensures ActiveSlot(After(cfg, w, PowerLoss(Commit, 1)).disk) == ActiveSlot(w.disk)
    ensures InstalledVersion(After(cfg, w, PowerLoss(Commit, 1)).disk) == w.session.value.staged.version
    ensures later.session.Some? && StartAnswer(cfg, later.disk, later.session.value, pkg).Done?
            ==> Screen(cfg, later.disk, pkg).1.version > w.session.value.staged.version
  {
    hide SessionInv, InstalledVersion, ActiveSlot, InactiveSlot, CommitTrail, Screen;
    var cut := PowerLoss(Commit, 1);
    EventInv(cfg, w, cut);
    CommitImages(cfg, w.disk, w.session.value);
    assert CommitTrail(w.disk, w.session.value)[..1] == [CommitTrail(w.disk, w.session.value)[0]];
    RunSafety(cfg, After(cfg, w, cut), events, later);
    if later.session.Some? && StartAnswer(cfg, later.disk, later.session.value, pkg).Done? {
      ScreenedVersion(cfg, later.disk, pkg);
    }
  }

  /** The disk after a commit was cut off behind k of its two writes, and the unit was started again. */
  function Restarted(img: Image, ses: Session, k: nat): Image
    requires k <= |CommitTrail(img, ses)|
  {
    var cut := Final(img, CommitTrail(img, ses)[..k]);
    Final(cut, BootTrail(cut))
  }

  /** That disk is the one such a run leads to. */
  lemma RestartedIsRun(cfg: Config, w: World, k: nat)
    requires w.session.Some? && w.session.value.state.PendingCommit? && k <= 2
    ensures |CommitTrail(w.disk, w.session.value)| == 2
    ensures Run(cfg, w, [PowerLoss(Commit, k), Finish(Boot)],
                World(Restarted(w.disk, w.session.value, k), Some(Session(Idle, NO_MANIFEST))))
  {
    hide InactiveSlot, BootTrail, Final;
    var events := [PowerLoss(Commit, k), Finish(Boot)];
    var cut := After(cfg, w, events[0]);
    assert events[1..] == [Finish(Boot)];
    assert Run(cfg, After(cfg, cut, Finish(Boot)), [], After(cfg, cut, Finish(Boot)));
    assert events[1..][1..] == [];
  }

  lemma RestartedState(cfg: Config, img: Image, ses: Session, k: nat)
    requires SessionInv(cfg, img, ses) && ses.state.PendingCommit? && k <= 2
    ensures |CommitTrail(img, ses)| == 2
    ensures InstalledVersion(Restarted(img, ses, k)) == if k == 0 then InstalledVersion(img) else ses.staged.version
    ensures ActiveSlot(Restarted(img, ses, k)) == if k == 2 then InactiveSlot(img) else ActiveSlot(img)
  {
    hide SessionInv, InstalledVersion, ActiveSlot, InactiveSlot, CommitTrail, BootTrail;
    CommitImages(cfg, img, ses);
    var trail := CommitTrail(img, ses);
    var cut := Final(img, trail[..k]);
    BootImages(cut, |BootTrail(cut)|);
    assert BootTrail(cut)[..|BootTrail(cut)|] == BootTrail(cut);
    if k > 0 {
      assert trail[..k][k - 1] == trail[k - 1];
    }
  }

  /**
    Whether the package of a commit that was cut off can be tried again after the restart: exactly when not even
    the version was written. Between the two writes it cannot, and the old slot is active; behind them the new one is.
   */
  lemma RetryExactly(cfg: Config, img: Image, ses: Session, k: nat, pkg: Package)
    requires SessionInv(cfg, img, ses) && ses.state.PendingCommit? && k <= 2
    requires GoodPackage(cfg, img, pkg, ses.staged)
    ensures |CommitTrail(img, ses)| == 2
    ensures StartAnswer(cfg, Restarted(img, ses, k), Session(Idle, NO_MANIFEST), pkg) == Done <==> k == 0
    ensures ActiveSlot(Restarted(img, ses, k)) == if k == 2 then InactiveSlot(img) else ActiveSlot(img)
  {
    hide SessionInv, InstalledVersion, ActiveSlot, InactiveSlot, CommitTrail, Restarted, StartAnswer;
    hide Parse, Authentic, Digest, HexOf;
    RestartedState(cfg, img, ses, k);
    var disk := Restarted(img, ses, k);
    AcceptedExactly(cfg, disk, Session(Idle, NO_MANIFEST), pkg);
    assert GoodPackage(cfg, disk, pkg, ses.staged) <==> k == 0;
    assert forall m :: GoodPackage(cfg, disk, pkg, m) ==> m == ses.staged;
  }

  lemma ScreenedVersion(cfg: Config, img: Image, pkg: Package)
    requires Screen(cfg, img, pkg).0.Done?
    ensures Screen(cfg, img, pkg).1.version > InstalledVersion(img)
  {
    hide InstalledVersion, Parse, Authentic;
  }
}
