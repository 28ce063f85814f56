// The per-host artefact cache: one directory per MAC holding the kernel, the initrd and
// the metadata that says what they were extracted from.
module Cache {
  import opened Prelude
  import opened BlockStream
  import opened Extraction

  datatype Host = Host(name: string, mac: string, imagePath: string, kernelPath: Option<string>, initrdPath: Option<string>)

  // The cache key. The size cap is not part of it, and the time is in whole seconds.
  datatype Metadata = Metadata(
    imagePath: string,
    mtimeSecs: nat,
    size: nat,
    kernelOverride: Option<string>,
    initrdOverride: Option<string>)

  // A metadata file parses to a key, or it does not.
  datatype MetaFile = Parsed(key: Metadata) | Garbage

  datatype HostDir = HostDir(kernel: Option<bytes>, initrd: Option<bytes>, meta: Option<MetaFile>, legacy: bool)

  const EMPTY_DIR := HostDir(None, None, None, false)

  // What examining an image path yields. Times are nanoseconds since the epoch.
  datatype Stat = Missing | StatFault | Found(mtimeNanos: int, size: nat, image: Image)

  // Writing the metadata file: it works, the file cannot be opened, or it is truncated
  // and then the write fails.
  datatype Write = Written | CannotOpen | CutShort

  // How the environment treats one synchronisation: reads inside the image, and the
  // metadata file.
  datatype Io = Io(rd: Reads, w: Write)

  const SMOOTH := Io(CLEAN, Written)

  // What given grants of reads make of it: reads matter only if the image is examined.
  function IoOf(host: Host, st: Stat, cap: Cap, schedules: Schedules, w: Write): Io {
    Io(if st.Found? then ReadsOf(st.image, host.kernelPath, host.initrdPath, cap, schedules) else CLEAN, w)
  }

  function KeyOf(host: Host, st: Stat): Metadata
    requires st.Found? && st.mtimeNanos >= 0
  {
    Metadata(host.imagePath, st.mtimeNanos / NANOS, st.size, host.kernelPath, host.initrdPath)
  }

  predicate Fresh(dir: HostDir, key: Metadata) {
    dir.meta == Some(Parsed(key)) && dir.kernel.Some? && dir.initrd.Some?
  }

  function MetaAfter(key: Metadata, w: Write, before: Option<MetaFile>): Option<MetaFile> {
    match w
    case Written => Some(Parsed(key))
    case CannotOpen => before
    case CutShort => Some(Garbage)
  }

  // Synchronising one host directory.
  function SyncDir(dir: HostDir, host: Host, st: Stat, cap: Cap, io: Io): (HostDir, Result<(), XError>) {
    match st
    case Missing => (dir, Err(ImageNotFound))
    case StatFault => (dir, Err(IoError))
    case Found(mtimeNanos, size, image) =>
      if mtimeNanos < 0 then (dir, Err(IoError))
      else if Fresh(dir, KeyOf(host, st)) then (dir.(legacy := false), Ok(()))
      else
        match Extracted(image, host.kernelPath, host.initrdPath, cap, io.rd)
        case Err(e) => (EMPTY_DIR, Err(e))
        case Ok(a) =>
          (HostDir(Some(a.kernel), Some(a.initrd), MetaAfter(KeyOf(host, st), io.w, dir.meta), false),
           if io.w.Written? then Ok(()) else Err(IoError))
  }

  // What the same call would do if it always extracted afresh.
  function FreshResult(host: Host, st: Stat, cap: Cap): Result<Artefacts, XError> {
    match st
    case Missing => Err(ImageNotFound)
    case StatFault => Err(IoError)
    case Found(mtimeNanos, size, image) =>
      if mtimeNanos < 0 then Err(IoError) else Extract(image, host.kernelPath, host.initrdPath, cap)
  }

  predicate Holds(dir: HostDir, a: Artefacts) {
    dir.kernel == Some(a.kernel) && dir.initrd == Some(a.initrd)
  }

  // The directory is as a fresh extraction leaves it: its artefacts, or nothing if the
  // image could be examined and the extraction failed.
  predicate AsFresh(dir: HostDir, host: Host, st: Stat, cap: Cap) {
    match FreshResult(host, st, cap)
    case Ok(a) => Holds(dir, a)
    case Err(_) => st.Found? && st.mtimeNanos >= 0 ==> dir == EMPTY_DIR
  }

  // A sync that meets no trouble cannot be told from a fresh extraction: it succeeds
  // exactly when that would, with the same error otherwise, and leaves what that leaves.
  predicate Agrees(dir: HostDir, host: Host, st: Stat, cap: Cap) {
    var (dir', r) := SyncDir(dir, host, st, cap, SMOOTH);
    r == Outcome(FreshResult(host, st, cap)) && AsFresh(dir', host, st, cap)
  }

  // -- Runs ---------------------------------------------------------------------------

  // Images come, go and change; hosts are synchronised, with any configuration, whatever
  // trouble the environment makes.
  datatype Event =
    | SetImage(path: string, st: Stat)
    | Sync(host: Host, cap: Cap, io: Io)

  datatype World = World(images: map<string, Stat>, dirs: map<string, HostDir>)

  function StatOf(wd: World, path: string): Stat {
    if path in wd.images then wd.images[path] else Missing
  }

  function DirOf(dirs: map<string, HostDir>, mac: string): HostDir {
    if mac in dirs then dirs[mac] else EMPTY_DIR
  }

  // What synchronising one host in this world gives.
  function SyncIn(wd: World, host: Host, cap: Cap, io: Io): (HostDir, Result<(), XError>) {
    SyncDir(DirOf(wd.dirs, host.mac), host, StatOf(wd, host.imagePath), cap, io)
  }

  function StepWorld(wd: World, e: Event): World {
    match e
    case SetImage(path, st) => wd.(images := wd.images[path := st])
    case Sync(host, cap, io) => wd.(dirs := wd.dirs[host.mac := SyncIn(wd, host, cap, io).0])
  }

  function From(wd: World, es: seq<Event>): World {
    if es == [] then wd else StepWorld(From(wd, es[..|es| - 1]), es[|es| - 1])
  }

  function After(es: seq<Event>): World {
    From(World(map[], map[]), es)
  }

  // Contents by path, whole-second time and size.
  type Contents = (string, nat, nat) -> Image

  // Path, whole-second time and size determine what an image holds.
  ghost predicate Determined(st: Stat, path: string, contents: Contents) {
    st.Found? && st.mtimeNanos >= 0 ==> st.image == contents(path, st.mtimeNanos / 1_000_000_000, st.size)
  }

  // Contents are determined by the key, and a metadata file can always be opened for
  // writing. Caps may change and reads may fail at will.
  ghost predicate Keyed(es: seq<Event>, contents: Contents) {
    forall i :: 0 <= i < |es| ==> match es[i]
      case SetImage(path, st) => Determined(st, path, contents)
      case Sync(_, _, io) => !io.w.CannotOpen?
  }

  // Besides, the cap never changes, and reads fail only once an image is treated as a disk.
  ghost predicate Trustworthy(es: seq<Event>, contents: Contents, cap: Cap) {
    Keyed(es, contents) && forall i :: 0 <= i < |es| && es[i].Sync? ==> es[i].cap == cap && es[i].io.rd.iso
  }

  function KeyedImage(contents: Contents, k: Metadata): Image {
    contents(k.imagePath, k.mtimeSecs, k.size)
  }

  // Whatever a complete directory holds was extracted from the image its key names, under
  // this cap, and as a disk only if the ISO attempt failed or `iso` is false.
  ghost predicate ExtractedUnder(dir: HostDir, contents: Contents, cap: Cap, iso: bool) {
    forall k :: Fresh(dir, k) ==>
      Extracted(KeyedImage(contents, k), k.kernelOverride, k.initrdOverride, cap, Reads(iso, true))
        == Ok(Artefacts(dir.kernel.value, dir.initrd.value))
  }

  // It is what extracting that image afresh gives.
  ghost predicate Sound(dir: HostDir, contents: Contents, cap: Cap) {
    ExtractedUnder(dir, contents, cap, true)
  }

  ghost predicate WorldInv(wd: World, contents: Contents, cap: Cap) {
    && (forall path :: path in wd.images ==> Determined(wd.images[path], path, contents))
    && (forall mac :: mac in wd.dirs ==> Sound(wd.dirs[mac], contents, cap))
  }

  // A sync leaves the directory as it was, empties it, or fills it under its own cap.
  lemma SyncKeepsExtracted(dir: HostDir, host: Host, st: Stat, cap: Cap, io: Io, contents: Contents, c0: Cap, iso0: bool)
    requires ExtractedUnder(dir, contents, c0, iso0) && Determined(st, host.imagePath, contents) && !io.w.CannotOpen?
    ensures var dir' := SyncDir(dir, host, st, cap, io).0;
      ExtractedUnder(dir', contents, c0, iso0) || ExtractedUnder(dir', contents, cap, io.rd.iso)
  {
    hide ExtractIso, ExtractDisk;
  }

  lemma {:induction false} RunKeepsInv(es: seq<Event>, contents: Contents, cap: Cap)
    requires Trustworthy(es, contents, cap)
    ensures WorldInv(After(es), contents, cap)
  {
    hide SyncDir, ExtractedUnder, Determined;
    if es != [] {
      var front, e := es[..|es| - 1], es[|es| - 1];
      RunKeepsInv(front, contents, cap);
      var wd := After(front);
      assert es[|es| - 1] == e;
      if e.Sync? {
        EmptyIsSound(contents, cap, true);
        MissingDetermined(e.host.imagePath, contents);
        SyncKeepsExtracted(DirOf(wd.dirs, e.host.mac), e.host, StatOf(wd, e.host.imagePath), cap, e.io, contents, cap, true);
      }
    }
  }

  lemma EmptyIsSound(contents: Contents, cap: Cap, iso: bool)
    ensures ExtractedUnder(EMPTY_DIR, contents, cap, iso)
  {
  }

  lemma MissingDetermined(path: string, contents: Contents)
    ensures Determined(Missing, path, contents)
  {
  }

  lemma SyncAgrees(dir: HostDir, host: Host, st: Stat, cap: Cap, contents: Contents)
    requires Sound(dir, contents, cap) && Determined(st, host.imagePath, contents)
    ensures Agrees(dir, host, st, cap)
  {
    hide ExtractIso, ExtractDisk;
  }

  // Cache agrees with recomputation, over every trustworthy run of image and
  // configuration changes.
  lemma CacheAgrees(es: seq<Event>, contents: Contents, cap: Cap, host: Host)
    requires Trustworthy(es, contents, cap)
    ensures Agrees(DirOf(After(es).dirs, host.mac), host, StatOf(After(es), host.imagePath), cap)
  {
    hide Agrees, ExtractedUnder, Determined;
    RunKeepsInv(es, contents, cap);
    EmptyIsSound(contents, cap, true);
    MissingDetermined(host.imagePath, contents);
    var wd := After(es);
    SyncAgrees(DirOf(wd.dirs, host.mac), host, StatOf(wd, host.imagePath), cap, contents);
  }

  // A sync need not go smoothly: as long as the ISO can be read and the metadata file can be
  // opened, success means exactly the fresh artefacts, and a failure after examining the
  // image leaves nothing that a later sync would take for complete.
  lemma OkSyncIsFresh(es: seq<Event>, contents: Contents, cap: Cap, host: Host, io: Io)
    requires Trustworthy(es, contents, cap) && io.rd.iso && !io.w.CannotOpen?
    ensures var st := StatOf(After(es), host.imagePath);
      var (dir, r) := SyncIn(After(es), host, cap, io);
      && (r.Ok? ==> FreshResult(host, st, cap).Ok? && Holds(dir, FreshResult(host, st, cap).value))
      && (r.Err? && st.Found? && st.mtimeNanos >= 0 ==> dir == EMPTY_DIR || dir.meta == Some(Garbage))
  {
    hide ExtractedUnder, Determined, After, SyncDir, FreshResult;
    RunKeepsInv(es, contents, cap);
    EmptyIsSound(contents, cap, true);
    MissingDetermined(host.imagePath, contents);
    SoundOkSync(DirOf(After(es).dirs, host.mac), host, StatOf(After(es), host.imagePath), cap, io, contents);
  }

  lemma SoundOkSync(dir: HostDir, host: Host, st: Stat, cap: Cap, io: Io, contents: Contents)
    requires Sound(dir, contents, cap) && Determined(st, host.imagePath, contents) && io.rd.iso && !io.w.CannotOpen?
    ensures var (dir', r) := SyncDir(dir, host, st, cap, io);
      && (r.Ok? ==> FreshResult(host, st, cap).Ok? && Holds(dir', FreshResult(host, st, cap).value))
      && (r.Err? && st.Found? && st.mtimeNanos >= 0 ==> dir' == EMPTY_DIR || dir'.meta == Some(Garbage))
  {
    hide ExtractIso, ExtractDisk;
  }

  // -- Exactly when it agrees ---------------------------------------------------------------

  // Soundness is exactly what it takes: a directory is sound if and only if every later
  // sync, of any host and any image whose contents its key determines, agrees.
  lemma SoundExactlyWhenSafe(dir: HostDir, contents: Contents, cap: Cap)
    ensures Sound(dir, contents, cap)
       <==> forall host: Host, st: Stat :: Determined(st, host.imagePath, contents) ==> Agrees(dir, host, st, cap)
  {
    hide Agrees, ExtractIso, ExtractDisk;
    if Sound(dir, contents, cap) {
      forall host: Host, st: Stat | Determined(st, host.imagePath, contents) ensures Agrees(dir, host, st, cap) {
        SyncAgrees(dir, host, st, cap, contents);
      }
    } else {
      var k :| Fresh(dir, k) && Extract(KeyedImage(contents, k), k.kernelOverride, k.initrdOverride, cap)
                                     != Ok(Artefacts(dir.kernel.value, dir.initrd.value));
      var host := Host("", "", k.imagePath, k.kernelOverride, k.initrdOverride);
      var st := Found(k.mtimeSecs * NANOS, k.size, KeyedImage(contents, k));
      assert KeyOf(host, st) == k;
      HitAgreesExactly(dir, host, st, cap);
    }
  }

  predicate IsHit(dir: HostDir, host: Host, st: Stat) {
    st.Found? && st.mtimeNanos >= 0 && Fresh(dir, KeyOf(host, st))
  }

  // A hit: the metadata names the path, the size and the overrides, and a time in the same
  // whole second, and both artefacts are there.
  lemma HitExactly(dir: HostDir, host: Host, st: Stat)
    ensures IsHit(dir, host, st) <==>
      && st.Found? && st.mtimeNanos >= 0 && dir.kernel.Some? && dir.initrd.Some? && dir.meta.Some? && dir.meta.value.Parsed?
      && var k := dir.meta.value.key;
      && k.imagePath == host.imagePath && k.size == st.size
      && k.kernelOverride == host.kernelPath && k.initrdOverride == host.initrdPath
      && k.mtimeSecs * 1_000_000_000 <= st.mtimeNanos < (k.mtimeSecs + 1) * 1_000_000_000
  {
  }

  // A path that cannot be examined leaves the directory alone, and tells a missing image
  // from any other trouble; otherwise the old metadata format is gone, and unless the sync
  // succeeded nothing is left that a later one would take for complete.
  lemma SyncTells(dir: HostDir, host: Host, st: Stat, cap: Cap, io: Io)
    ensures var (dir', r) := SyncDir(dir, host, st, cap, io);
      && (r == Err(ImageNotFound) <==> st.Missing?)
      && (st.StatFault? || (st.Found? && st.mtimeNanos < 0) ==> r == Err(IoError))
      && (if st.Found? && st.mtimeNanos >= 0 then !dir'.legacy else dir' == dir)
      && (r.Ok? ==> IsHit(dir', host, st))
      && (r.Err? && st.Found? && st.mtimeNanos >= 0 && !io.w.CannotOpen? ==>
            dir' == HostDir(None, None, None, false) || dir'.meta == Some(Garbage))
  {
    if st.Found? {
      NeverImageNotFound(st.image, host.kernelPath, host.initrdPath, cap, io.rd);
    }
    hide Extracted;
  }

  lemma NeverImageNotFound(image: Image, kp: Option<string>, ip: Option<string>, cap: Cap, rd: Reads)
    ensures Extracted(image, kp, ip, cap, rd) != Err(ImageNotFound)
  {
    hide Walker.Walk, ExtractPartitions;
    if image.gpt.Some? {
      DiskFindsImage(image.gpt.value, kp, ip, cap);
    }
  }

  lemma {:induction false} DiskFindsImage(ps: seq<Partition>, kp: Option<string>, ip: Option<string>, cap: Cap)
    ensures ExtractPartitions(ps, kp, ip, cap) != Err(ImageNotFound)
  {
    hide Walker.Walk;
    if ps != [] {
      DiskFindsImage(ps[1..], kp, ip, cap);
    }
  }

  // A sync that has succeeded need not be repeated: until image or configuration change, the
  // next one finds everything in place and changes nothing, whatever reads and writes would do.
  lemma SecondSyncIsIdle(dir: HostDir, host: Host, st: Stat, cap: Cap, io: Io, cap': Cap, io': Io)
    requires SyncDir(dir, host, st, cap, io).1.Ok?
    ensures var dir' := SyncDir(dir, host, st, cap, io).0;
      SyncDir(dir', host, st, cap', io') == (dir', Ok(()))
  {
    hide Extracted;
  }

  lemma HitAgreesExactly(dir: HostDir, host: Host, st: Stat, cap: Cap)
    requires IsHit(dir, host, st)
    ensures Agrees(dir, host, st, cap)
       <==> Extract(st.image, host.kernelPath, host.initrdPath, cap) == Ok(Artefacts(dir.kernel.value, dir.initrd.value))
  {
    hide Extract;
  }

  lemma MissAgrees(dir: HostDir, host: Host, st: Stat, cap: Cap)
    requires !IsHit(dir, host, st)
    ensures Agrees(dir, host, st, cap)
  {
    hide ExtractIso, ExtractDisk;
  }

  lemma {:induction false} RunKeepsKeyed(es: seq<Event>, contents: Contents)
    requires Keyed(es, contents)
    ensures forall path :: path in After(es).images ==> Determined(After(es).images[path], path, contents)
    ensures forall mac :: mac in After(es).dirs ==> exists c0, iso0 :: ExtractedUnder(After(es).dirs[mac], contents, c0, iso0)
  {
    hide SyncDir, ExtractedUnder, Determined;
    if es != [] {
      var front, e := es[..|es| - 1], es[|es| - 1];
      RunKeepsKeyed(front, contents);
      var wd := After(front);
      assert es[|es| - 1] == e;
      if e.Sync? {
        var c0, iso0 := UnderSome(wd, e.host.mac, contents);
        MissingDetermined(e.host.imagePath, contents);
        SyncKeepsExtracted(DirOf(wd.dirs, e.host.mac), e.host, StatOf(wd, e.host.imagePath), e.cap, e.io, contents, c0, iso0);
      }
    }
  }

  lemma UnderSome(wd: World, mac: string, contents: Contents) returns (c0: Cap, iso0: bool)
    requires forall m :: m in wd.dirs ==> exists c, iso :: ExtractedUnder(wd.dirs[m], contents, c, iso)
    ensures ExtractedUnder(DirOf(wd.dirs, mac), contents, c0, iso0)
  {
    hide ExtractedUnder;
    EmptyIsSound(contents, None, true);
    if mac in wd.dirs {
      c0, iso0 :| ExtractedUnder(wd.dirs[mac], contents, c0, iso0);
    } else {
      c0, iso0 := None, true;
    }
  }

  // Over every run in which caps change and reads fail at will, a sync agrees with a fresh
  // extraction if and only if it is a miss, or what is cached fits the present cap and the
  // ISO attempt under that cap fails or yields the same.
  lemma CacheAgreesExactly(es: seq<Event>, contents: Contents, host: Host, cap: Cap)
    requires Keyed(es, contents)
    ensures var dir, st := DirOf(After(es).dirs, host.mac), StatOf(After(es), host.imagePath);
      Agrees(dir, host, st, cap) <==> (IsHit(dir, host, st) ==>
        var a := Artefacts(dir.kernel.value, dir.initrd.value);
        Fits(a, cap) && IsoYields(st.image, host.kernelPath, host.initrdPath, cap, a))
  {
    hide After, Agrees, Extracted, IsoYields;
    RunKeepsKeyed(es, contents);
    var wd := After(es);
    var dir, st := DirOf(wd.dirs, host.mac), StatOf(wd, host.imagePath);
    MissingDetermined(host.imagePath, contents);
    if IsHit(dir, host, st) {
      var c0, iso0 := UnderSome(wd, host.mac, contents);
      assert Fresh(dir, KeyOf(host, st));
      HitAgreesExactly(dir, host, st, cap);
      UnderAnotherCap(st.image, host.kernelPath, host.initrdPath, c0, iso0, cap);
    } else {
      MissAgrees(dir, host, st, cap);
    }
  }

  // What the last extraction for this MAC yielded, if there was one and it succeeded.
  function LastExtraction(es: seq<Event>, mac: string): Option<Artefacts> {
    if es == [] then None
    else
      var front, e := es[..|es| - 1], es[|es| - 1];
      if !e.Sync? || e.host.mac != mac then LastExtraction(front, mac)
      else
        var wd := After(front);
        match StatOf(wd, e.host.imagePath)
        case Found(mtimeNanos, size, image) =>
          if mtimeNanos < 0 || IsHit(DirOf(wd.dirs, mac), e.host, StatOf(wd, e.host.imagePath)) then LastExtraction(front, mac)
          else (match Extracted(image, e.host.kernelPath, e.host.initrdPath, e.cap, e.io.rd) case Ok(a) => Some(a) case Err(_) => None)
        case _ => LastExtraction(front, mac)
  }

  // Over every run at all, a directory holds exactly what its last extraction yielded.
  lemma {:induction false} HoldsLastExtraction(es: seq<Event>, mac: string)
    ensures var dir := DirOf(After(es).dirs, mac);
      match LastExtraction(es, mac)
      case Some(a) => Holds(dir, a)
      case None => dir.kernel.None? && dir.initrd.None?
  {
    hide Extracted;
    if es != [] {
      HoldsLastExtraction(es[..|es| - 1], mac);
    }
  }

  // As a corollary, over every run at all, whatever was rewritten, failed or got stuck, a
  // sync agrees with a fresh extraction if and only if it is a miss, or extracting now
  // gives what the last extraction gave.
  lemma AgreesExactlyOverAnyRun(es: seq<Event>, host: Host, cap: Cap)
    ensures var dir, st := DirOf(After(es).dirs, host.mac), StatOf(After(es), host.imagePath);
      Agrees(dir, host, st, cap) <==> (IsHit(dir, host, st) ==>
        var a := LastExtraction(es, host.mac);
        a.Some? && Extract(st.image, host.kernelPath, host.initrdPath, cap) == Ok(a.value))
  {
    hide After, Agrees, Extracted, LastExtraction;
    var dir, st := DirOf(After(es).dirs, host.mac), StatOf(After(es), host.imagePath);
    HoldsLastExtraction(es, host.mac);
    if IsHit(dir, host, st) {
      HitAgreesExactly(dir, host, st, cap);
    } else {
      MissAgrees(dir, host, st, cap);
    }
  }

  // When the metadata file cannot be opened, a sound directory stays sound if and only if
  // there was no metadata to parse, or the image it names gives the new artefacts as well.
  lemma StuckMetadataExactly(dir: HostDir, host: Host, st: Stat, cap: Cap, contents: Contents)
    requires Sound(dir, contents, cap) && Determined(st, host.imagePath, contents)
    requires st.Found? && st.mtimeNanos >= 0 && !IsHit(dir, host, st) && Extract(st.image, host.kernelPath, host.initrdPath, cap).Ok?
    ensures Sound(SyncDir(dir, host, st, cap, Io(CLEAN, CannotOpen)).0, contents, cap)
       <==> match dir.meta
            case Some(Parsed(k)) =>
              Extract(KeyedImage(contents, k), k.kernelOverride, k.initrdOverride, cap)
                == Extract(st.image, host.kernelPath, host.initrdPath, cap)
            case _ => true
  {
    hide Extracted;
    var dir' := SyncDir(dir, host, st, cap, Io(CLEAN, CannotOpen)).0;
    assert forall k :: dir.meta == Some(Parsed(k)) ==> Fresh(dir', k);
  }

  // When an image changes between two syncs of one host, the second notices if and only if
  // the whole-second time or the size changed, or it makes no difference.
  lemma RewriteNoticedExactly(dir: HostDir, host: Host, st0: Stat, st1: Stat, cap: Cap)
    requires st0.Found? && st0.mtimeNanos >= 0 && st1.Found? && st1.mtimeNanos >= 0
    requires !IsHit(dir, host, st0) && Extract(st0.image, host.kernelPath, host.initrdPath, cap).Ok?
    ensures Agrees(SyncDir(dir, host, st0, cap, SMOOTH).0, host, st1, cap)
       <==> st1.mtimeNanos / 1_000_000_000 != st0.mtimeNanos / 1_000_000_000 || st1.size != st0.size
            || Extract(st1.image, host.kernelPath, host.initrdPath, cap) == Extract(st0.image, host.kernelPath, host.initrdPath, cap)
  {
    hide Extracted, Agrees;
    var dir1 := SyncDir(dir, host, st0, cap, SMOOTH).0;
    if IsHit(dir1, host, st1) {
      HitAgreesExactly(dir1, host, st1, cap);
    } else {
      MissAgrees(dir1, host, st1, cap);
    }
  }

  // -- Each condition is needed ------------------------------------------------------------

  // An ISO image that holds these two files under their usual names.
  function IsoOf(kernel: bytes, initrd: bytes): Option<Iso> {
    Some(Iso(map[], 0, map["k" := OpenedEntry(Walker.FileEntry("k", kernel)), "i" := OpenedEntry(Walker.FileEntry("i", initrd))]))
  }

  // A disk whose one partition holds these two files.
  function DiskOf(kernel: bytes, initrd: bytes): Option<seq<Partition>> {
    Some([Partition(true, true, Some(Fat(map[], 0, map["k" := kernel, "i" := initrd])))])
  }

  const HOST := Host("h", "m", "p", Some("k"), Some("i"))

  lemma IsoExtracts(kernel: bytes, initrd: bytes, cap: Cap)
    ensures ExtractIso(IsoOf(kernel, initrd), Some("k"), Some("i"), cap) == CopyBoth(kernel, initrd, cap)
  {
    assert "k" != "i" by { assert "k"[0] != "i"[0]; }
  }

  lemma DiskExtracts(kernel: bytes, initrd: bytes, cap: Cap)
    ensures ExtractDisk(DiskOf(kernel, initrd), Some("k"), Some("i"), cap) == CopyBoth(kernel, initrd, cap)
  {
    assert "k" != "i" by { assert "k"[0] != "i"[0]; }
  }

  lemma Appended(wd: World, es: seq<Event>, e: Event)
    ensures From(wd, es + [e]) == StepWorld(From(wd, es), e)
  {
    assert (es + [e])[..|es + [e]| - 1] == es;
  }

  // The host is served artefacts `a` where a fresh extraction would give `anew`.
  predicate Serves(es: seq<Event>, cap: Cap, a: Artefacts, anew: Result<Artefacts, XError>) {
    var wd := After(es);
    var (dir, r) := SyncIn(wd, HOST, cap, SMOOTH);
    r == Ok(()) && Holds(dir, a) && FreshResult(HOST, StatOf(wd, HOST.imagePath), cap) == anew
  }

  // An image rewritten with the same size within the same second is not noticed.
  lemma SameSecondServesOld() returns (es: seq<Event>)
    ensures Serves(es, None, Artefacts([1], [2]), Ok(Artefacts([3], [4])))
  {
    hide ExtractIso, ExtractDisk, IsoOf;
    IsoExtracts([1], [2], None);
    IsoExtracts([3], [4], None);
    var e0, e1 := SetImage("p", Found(0, 9, Image(IsoOf([1], [2]), None))), Sync(HOST, None, SMOOTH);
    var e2 := SetImage("p", Found(1, 9, Image(IsoOf([3], [4]), None)));
    es := [] + [e0] + [e1] + [e2];
    var wd := World(map[], map[]);
    Appended(wd, [], e0);
    Appended(wd, [] + [e0], e1);
    Appended(wd, [] + [e0] + [e1], e2);
  }

  // A lowered cap is not noticed: the artefacts a fresh extraction would refuse are served.
  lemma LoweredCapServesOld() returns (es: seq<Event>)
    ensures Serves(es, Some(1), Artefacts([1, 1], [2, 2]), Err(DiskError))
  {
    hide ExtractIso, IsoOf;
    IsoExtracts([1, 1], [2, 2], None);
    IsoExtracts([1, 1], [2, 2], Some(1));
    var e0, e1 := SetImage("p", Found(0, 9, Image(IsoOf([1, 1], [2, 2]), None))), Sync(HOST, None, SMOOTH);
    es := [] + [e0] + [e1];
    var wd := World(map[], map[]);
    Appended(wd, [], e0);
    Appended(wd, [] + [e0], e1);
  }

  // An image that is both an ISO and a disk, as hybrid images are.
  const HYBRID := Found(0, 9, Image(IsoOf([1, 1], [2, 2]), DiskOf([3], [4])))

  // Such an image, synchronised so that only its disk is extracted, goes on being served
  // from the disk when a fresh extraction would use the ISO.
  lemma HybridServesDisk(cap: Cap, io: Io, now: Cap) returns (es: seq<Event>)
    requires (cap == Some(1) && io == SMOOTH) || (cap == now && io == Io(Reads(false, true), Written))
    requires now.Some? ==> now.value >= 2
    ensures Serves(es, now, Artefacts([3], [4]), Ok(Artefacts([1, 1], [2, 2])))
    ensures es == [SetImage("p", HYBRID), Sync(HOST, cap, io)]
  {
    hide ExtractIso, ExtractDisk, IsoOf, DiskOf;
    IsoExtracts([1, 1], [2, 2], cap);
    IsoExtracts([1, 1], [2, 2], now);
    DiskExtracts([3], [4], cap);
    var e0, e1 := SetImage("p", HYBRID), Sync(HOST, cap, io);
    es := [] + [e0] + [e1];
    var wd := World(map[], map[]);
    Appended(wd, [], e0);
    Appended(wd, [] + [e0], e1);
  }

  // A raised cap is not noticed either ...
  lemma RaisedCapServesDisk() returns (es: seq<Event>)
    ensures Serves(es, Some(2), Artefacts([3], [4]), Ok(Artefacts([1, 1], [2, 2])))
    ensures forall i :: 0 <= i < |es| && es[i].Sync? ==> es[i].cap == Some(1) && es[i].io == SMOOTH
  {
    es := HybridServesDisk(Some(1), SMOOTH, Some(2));
  }

  // The first read of the ISO's kernel fails; every other read, ever, brings one byte.
  function OneFault(copy: nat, call: nat): Grant {
    if copy == ISO_KERNEL && call == 0 then Grant.Fault else UpTo(1)
  }

  lemma OneFaultSpoilsIso()
    ensures ReadsOf(HYBRID.image, Some("k"), Some("i"), None, OneFault) == Reads(false, true)
  {
    OneFaultIso();
    OneFaultDisk();
    hide IsoReads, DiskReads, IsoOf, DiskOf;
  }

  lemma OneFaultIso()
    ensures !IsoReads(IsoOf([1, 1], [2, 2]), Some("k"), Some("i"), None, OneFault)
  {
    assert "k" != "i" by { assert "k"[0] != "i"[0]; }
    FirstFault(2);
    hide CopyReads, OneFault, Walker.Walk;
    var v := IsoOf([1, 1], [2, 2]).value;
    assert ResolveIso(v, Some("k"), IsKernelName, KernelNotFound) == Ok([1, 1]);
    assert ResolveIso(v, Some("i"), IsInitrdName, InitrdNotFound) == Ok([2, 2]);
    var kernel: bytes := [1, 1];
    assert |kernel| == 2 && !BothRead(OneFault, ISO_KERNEL, kernel, Ok([2, 2]), None);
  }

  lemma FirstFault(size: nat)
    ensures !CopyReads(ScheduleOf(OneFault, ISO_KERNEL), size, None)
  {
    CopyUnfold(ScheduleOf(OneFault, ISO_KERNEL), size, None, 0, 0);
    assert ScheduleOf(OneFault, ISO_KERNEL)(0) == OneFault(ISO_KERNEL, 0);
    hide CallsToCopy;
  }

  lemma OnlyFault(copy: nat, size: nat)
    requires copy != ISO_KERNEL
    ensures CopyReads(ScheduleOf(OneFault, copy), size, None)
  {
    LastCallDecides(ScheduleOf(OneFault, copy), size, None, 0, 0);
    var last := CallsToCopy(ScheduleOf(OneFault, copy), size, None, 0, 0).0 - 1;
    assert ScheduleOf(OneFault, copy)(last) == OneFault(copy, last);
    hide CallsToCopy;
  }

  lemma OneFaultDisk()
    ensures DiskReads(DiskOf([3], [4]).value, Some("k"), Some("i"), None, OneFault)
  {
    assert "k" != "i" by { assert "k"[0] != "i"[0]; }
    OnlyFault(DISK_KERNEL, 1);
    OnlyFault(DISK_INITRD, 1);
    var ps := DiskOf([3], [4]).value;
    hide CallsToCopy, Walker.Walk;
    assert ResolveFat(ps[0].fat.value, Some("k"), IsKernelName) == Ok(Some([3]));
    assert FoundInitrd(ps[0].fat.value, Some("i")) == Ok([4]);
    assert Settles(ps[0], Some("k"));
    var kernel, initrd: bytes := [3], [4];
    assert |kernel| == 1 && |initrd| == 1;
    assert BothRead(OneFault, DISK_KERNEL, kernel, Ok(initrd), None);
  }

  // ... nor is it noticed that a single read of the ISO failed at the time.
  lemma FaultedIsoServesDisk() returns (es: seq<Event>)
    ensures Serves(es, None, Artefacts([3], [4]), Ok(Artefacts([1, 1], [2, 2])))
    ensures es == [SetImage("p", HYBRID), Sync(HOST, None, IoOf(HOST, HYBRID, None, OneFault, Written))]
  {
    OneFaultSpoilsIso();
    hide ReadsOf;
    es := HybridServesDisk(None, Io(Reads(false, true), Written), None);
  }

  // If the metadata file cannot be opened, the old key stays beside new artefacts; once
  // the old image is back, they are served for it.
  lemma StuckMetadataServesWrong() returns (es: seq<Event>)
    ensures Serves(es, None, Artefacts([3], [4]), Ok(Artefacts([1], [2])))
  {
    hide ExtractIso, ExtractDisk, IsoOf;
    IsoExtracts([1], [2], None);
    IsoExtracts([3], [4], None);
    var old', new' := Found(0, 9, Image(IsoOf([1], [2]), None)), Found(NANOS, 9, Image(IsoOf([3], [4]), None));
    var e0, e1, e2 := SetImage("p", old'), Sync(HOST, None, SMOOTH), SetImage("p", new');
    var e3, e4 := Sync(HOST, None, Io(CLEAN, CannotOpen)), SetImage("p", old');
    es := [] + [e0] + [e1] + [e2] + [e3] + [e4];
    var wd := World(map[], map[]);
    Appended(wd, [], e0);
    Appended(wd, [] + [e0], e1);
    Appended(wd, [] + [e0] + [e1], e2);
    Appended(wd, [] + [e0] + [e1] + [e2], e3);
    Appended(wd, [] + [e0] + [e1] + [e2] + [e3], e4);
  }
}
