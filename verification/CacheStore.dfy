// The cache as it runs: methods that change the directories step by step, proved
// against the functions of Cache and Extraction, and the sweep over all hosts.
module CacheStore {
  import opened Prelude
  import opened BlockStream
  import opened Extraction
  import opened Cache
  import opened Text

  // What copying an artefact out of an image comes to.
  function Copied(content: bytes, cap: Cap, schedule: nat -> Grant): Result<(), XError> {
    if CopyReads(schedule, |content|, cap) then Outcome(Capped(content, cap)) else Err(IoError)
  }

  method CopyOut(content: bytes, cap: Cap, schedule: nat -> Grant) returns (out: bytes, r: Result<(), XError>)
    ensures out <= content && (r.Ok? ==> out == content)
    ensures r == Copied(content, cap, schedule)
  {
    hide CallsToCopy;
    var reader := new FileReader(content, schedule);
    out, r := CopyCapped(reader, cap);
  }

  datatype Summary = Summary(succeeded: nat, failed: seq<(string, XError)>)

  class Store {
    var dirs: map<string, HostDir>

    constructor ()
      ensures dirs == map[]
    {
      dirs := map[];
    }

    // The directory of one host, apart from its two artefact files, stays as it was.
    twostate predicate OnlyArtefacts(mac: string)
      reads this
    {
      && mac in dirs && mac in old(dirs)
      && dirs == old(dirs)[mac := dirs[mac]]
      && dirs[mac] == old(dirs)[mac].(kernel := dirs[mac].kernel, initrd := dirs[mac].initrd)
    }

    method WriteKernel(mac: string, content: bytes, cap: Cap, schedule: nat -> Grant) returns (r: Result<(), XError>)
      requires mac in dirs
      modifies this
      ensures r == Copied(content, cap, schedule)
      ensures mac in dirs && dirs == old(dirs)[mac := old(dirs)[mac].(kernel := dirs[mac].kernel)]
      ensures r.Ok? ==> dirs[mac].kernel == Some(content)
    {
      hide Copied;
      var out;
      out, r := CopyOut(content, cap, schedule);
      dirs := dirs[mac := dirs[mac].(kernel := Some(out))];
    }

    method WriteInitrd(mac: string, content: bytes, cap: Cap, schedule: nat -> Grant) returns (r: Result<(), XError>)
      requires mac in dirs
      modifies this
      ensures r == Copied(content, cap, schedule)
      ensures mac in dirs && dirs == old(dirs)[mac := old(dirs)[mac].(initrd := dirs[mac].initrd)]
      ensures r.Ok? ==> dirs[mac].initrd == Some(content)
    {
      hide Copied;
      var out;
      out, r := CopyOut(content, cap, schedule);
      dirs := dirs[mac := dirs[mac].(initrd := Some(out))];
    }

    method ExtractFromIso(mac: string, iso: Option<Iso>, kp: Option<string>, ip: Option<string>, cap: Cap,
                          schedules: Schedules) returns (r: Result<(), XError>)
      requires mac in dirs
      modifies this
      ensures OnlyArtefacts(mac)
      ensures r == if IsoReads(iso, kp, ip, cap, schedules) then Outcome(ExtractIso(iso, kp, ip, cap)) else Err(IoError)
      ensures r.Ok? ==> Holds(dirs[mac], ExtractIso(iso, kp, ip, cap).value)
    {
      hide ResolveIso, Capped, CopyReads;
      if iso.None? {
        return Err(IsoError);
      }
      var kernel := ResolveIso(iso.value, kp, IsKernelName, KernelNotFound);
      if kernel.Err? {
        return Err(kernel.error);
      }
      var initrd := ResolveIso(iso.value, ip, IsInitrdName, InitrdNotFound);
      if initrd.Err? {
        return Err(initrd.error);
      }
      r := WriteKernel(mac, kernel.value, cap, ScheduleOf(schedules, ISO_KERNEL));
      if r.Err? {
        return;
      }
      r := WriteInitrd(mac, initrd.value, cap, ScheduleOf(schedules, ISO_INITRD));
    }

    method ExtractFromDisk(mac: string, gpt: Option<seq<Partition>>, kp: Option<string>, ip: Option<string>, cap: Cap,
                           schedules: Schedules) returns (r: Result<(), XError>)
      requires mac in dirs
      modifies this
      ensures OnlyArtefacts(mac)
      ensures r == if gpt.Some? && !DiskReads(gpt.value, kp, ip, cap, schedules) then Err(IoError)
                   else Outcome(ExtractDisk(gpt, kp, ip, cap))
      ensures r.Ok? ==> Holds(dirs[mac], ExtractDisk(gpt, kp, ip, cap).value)
    {
      hide ResolveFat, Capped, CopyReads;
      if gpt.None? {
        return Err(DiskError);
      }
      var ps := gpt.value;
      for i := 0 to |ps|
        invariant dirs == old(dirs)
        invariant ExtractPartitions(ps[i..], kp, ip, cap) == ExtractPartitions(ps, kp, ip, cap)
        invariant DiskReads(ps[i..], kp, ip, cap, schedules) == DiskReads(ps, kp, ip, cap, schedules)
      {
        var p := ps[i];
        assert ps[i..][0] == p && ps[i..][1..] == ps[i + 1..];
        if !p.used || !p.bounded || p.fat.None? {
          continue;
        }
        var kernel := ResolveFat(p.fat.value, kp, IsKernelName);
        if kernel.Err? {
          return Err(kernel.error);
        }
        if kernel.value.None? {
          continue;
        }
        r := WriteKernel(mac, kernel.value.value, cap, ScheduleOf(schedules, DISK_KERNEL));
        if r.Err? {
          return;
        }
        var initrd := ResolveFat(p.fat.value, ip, IsInitrdName);
        if initrd.Err? {
          return Err(initrd.error);
        }
        if initrd.value.None? {
          return Err(InitrdNotFound);
        }
        r := WriteInitrd(mac, initrd.value.value, cap, ScheduleOf(schedules, DISK_INITRD));
        return;
      }
      assert ps[|ps|..] == [];
      r := Err(KernelNotFound);
    }

    // As an ISO, and if that fails for any reason, as a disk.
    method ExtractTo(mac: string, image: Image, kp: Option<string>, ip: Option<string>, cap: Cap,
                     schedules: Schedules) returns (r: Result<(), XError>)
      requires mac in dirs
      modifies this
      ensures OnlyArtefacts(mac)
      ensures var x := Extracted(image, kp, ip, cap, ReadsOf(image, kp, ip, cap, schedules));
        r == Outcome(x) && (r.Ok? ==> Holds(dirs[mac], x.value))
    {
      hide ExtractIso, ExtractPartitions, IsoReads, DiskReads;
      r := ExtractFromIso(mac, image.iso, kp, ip, cap, schedules);
      if r.Err? {
        r := ExtractFromDisk(mac, image.gpt, kp, ip, cap, schedules);
      }
    }

    // Brings one host's directory up to date, in place: whatever its reads are granted and
    // whatever becomes of its metadata file, the result and the new contents are those of
    // SyncDir, and no other host's directory is touched.
    method SyncHost(host: Host, st: Stat, cap: Cap, w: Write, schedules: Schedules) returns (r: Result<(), XError>)
      modifies this
      ensures (DirOf(dirs, host.mac), r) == SyncDir(DirOf(old(dirs), host.mac), host, st, cap, IoOf(host, st, cap, schedules, w))
      ensures forall mac :: mac != host.mac ==> DirOf(dirs, mac) == DirOf(old(dirs), mac)
    {
      hide Extracted, ReadsOf;
      var mac := host.mac;
      if st.Missing? {
        return Err(ImageNotFound);
      }
      if st.StatFault? || st.mtimeNanos < 0 {
        return Err(IoError);
      }
      var key := KeyOf(host, st);
      var valid := mac in dirs && Fresh(dirs[mac], key);
      if mac in dirs && dirs[mac].legacy {
        dirs := dirs[mac := dirs[mac].(legacy := false)];
      }
      if valid {
        return Ok(());
      }
      if mac !in dirs {
        dirs := dirs[mac := EMPTY_DIR];
      }
      r := ExtractTo(mac, st.image, host.kernelPath, host.initrdPath, cap, schedules);
      if r.Ok? {
        dirs := dirs[mac := dirs[mac].(meta := MetaAfter(key, w, dirs[mac].meta))];
        if !w.Written? {
          r := Err(IoError);
        }
      } else {
        dirs := dirs[mac := dirs[mac].(kernel := None)];
        dirs := dirs[mac := dirs[mac].(initrd := None)];
        dirs := dirs[mac := dirs[mac].(meta := None)];
      }
    }

    // The sweep over all hosts, in order and past any failure: every directory is as the
    // same syncs one after another leave it, and the summary has their results. Host n
    // meets metadata write `writes(n)` and reads `schedules(n)`.
    method SyncAll(hosts: seq<Host>, images: map<string, Stat>, cap: Cap, writes: nat -> Write, schedules: nat -> Schedules)
        returns (s: Summary)
      modifies this
      ensures var wd, ios := World(images, old(dirs)), SweepIos(hosts, images, cap, writes, schedules);
        && (forall mac :: DirOf(dirs, mac) == DirOf(From(wd, Syncs(hosts, cap, ios)).dirs, mac))
        && s == SummaryOf(wd, hosts, cap, ios)
    {
      hide SyncDir, From, SummaryOf, Syncs, IoOf;
      ghost var wd := World(images, dirs);
      ghost var ios := [];
      s := Summary(0, []);
      NothingSwept(wd, cap);
      for n := 0 to |hosts|
        invariant ios == SweepIos(hosts[..n], images, cap, writes, schedules)
        invariant forall mac :: DirOf(dirs, mac) == DirOf(From(wd, Syncs(hosts[..n], cap, ios)).dirs, mac)
        invariant s == SummaryOf(wd, hosts[..n], cap, ios)
      {
        var host := hosts[n];
        var st := if host.imagePath in images then images[host.imagePath] else Missing;
        var r := SyncHost(host, st, cap, writes(n), schedules(n));
        ghost var io := IoOf(host, st, cap, schedules(n), writes(n));
        OneMoreSwept(wd, hosts[..n], host, cap, ios, io);
        assert hosts[..n + 1] == hosts[..n] + [host];
        assert SweepIos(hosts[..n + 1], images, cap, writes, schedules) == ios + [io];
        ios := ios + [io];
        if r.Ok? {
          s := s.(succeeded := s.succeeded + 1);
        } else {
          s := s.(failed := s.failed + [(host.name, r.error)]);
        }
      }
      assert hosts[..|hosts|] == hosts;
    }
  }

  // How the environment treats each sync of a sweep.
  function SweepIos(hosts: seq<Host>, images: map<string, Stat>, cap: Cap, writes: nat -> Write, schedules: nat -> Schedules): (ios: seq<Io>)
    ensures |ios| == |hosts|
  {
    seq(|hosts|, (n: nat) requires n < |hosts| =>
      IoOf(hosts[n], if hosts[n].imagePath in images then images[hosts[n].imagePath] else Missing, cap, schedules(n), writes(n)))
  }

  // The syncs of a sweep, one after another.
  function Syncs(hosts: seq<Host>, cap: Cap, ios: seq<Io>): seq<Event>
    requires |ios| == |hosts|
  {
    seq(|hosts|, (n: nat) requires n < |hosts| => Sync(hosts[n], cap, ios[n]))
  }

  function Smooth(n: nat): (ios: seq<Io>)
    ensures |ios| == n && forall i :: 0 <= i < n ==> ios[i] == SMOOTH
  {
    seq(n, _ => SMOOTH)
  }

  // The result of sync n of a sweep, in the world the syncs before it have left.
  function SweepResult(wd: World, hosts: seq<Host>, cap: Cap, ios: seq<Io>, n: nat): Result<(), XError>
    requires n < |ios| == |hosts|
  {
    SyncIn(From(wd, Syncs(hosts[..n], cap, ios[..n])), hosts[n], cap, ios[n]).1
  }

  function SummaryOf(wd: World, hosts: seq<Host>, cap: Cap, ios: seq<Io>): Summary
    requires |ios| == |hosts|
  {
    if hosts == [] then Summary(0, [])
    else
      var n := |hosts| - 1;
      var s := SummaryOf(wd, hosts[..n], cap, ios[..n]);
      match SweepResult(wd, hosts, cap, ios, n)
      case Ok(_) => s.(succeeded := s.succeeded + 1)
      case Err(e) => s.(failed := s.failed + [(hosts[n].name, e)])
  }

  lemma NothingSwept(wd: World, cap: Cap)
    ensures From(wd, Syncs([], cap, [])) == wd && SummaryOf(wd, [], cap, []) == Summary(0, [])
  {
  }

  lemma OneMoreSwept(wd: World, hosts: seq<Host>, host: Host, cap: Cap, ios: seq<Io>, io: Io)
    requires |ios| == |hosts|
    ensures var before := From(wd, Syncs(hosts, cap, ios));
      && From(wd, Syncs(hosts + [host], cap, ios + [io])) == StepWorld(before, Sync(host, cap, io))
      && before.images == wd.images
      && SummaryOf(wd, hosts + [host], cap, ios + [io])
         == (var s := SummaryOf(wd, hosts, cap, ios);
             match SyncIn(before, host, cap, io).1
             case Ok(_) => s.(succeeded := s.succeeded + 1)
             case Err(e) => s.(failed := s.failed + [(host.name, e)]))
  {
    hide SyncIn;
    assert Syncs(hosts + [host], cap, ios + [io]) == Syncs(hosts, cap, ios) + [Sync(host, cap, io)];
    Appended(wd, Syncs(hosts, cap, ios), Sync(host, cap, io));
    assert (hosts + [host])[..|hosts|] == hosts && (ios + [io])[..|hosts|] == ios;
    SyncsKeepImages(wd, hosts, cap, ios);
  }

  lemma {:induction false} SyncsKeepImages(wd: World, hosts: seq<Host>, cap: Cap, ios: seq<Io>)
    requires |ios| == |hosts|
    ensures From(wd, Syncs(hosts, cap, ios)).images == wd.images
  {
    hide SyncIn;
    if hosts != [] {
      var n := |hosts| - 1;
      assert Syncs(hosts, cap, ios)[..n] == Syncs(hosts[..n], cap, ios[..n]);
      SyncsKeepImages(wd, hosts[..n], cap, ios[..n]);
    }
  }

  lemma {:induction false} SummaryTotals(wd: World, hosts: seq<Host>, cap: Cap, ios: seq<Io>)
    requires |ios| == |hosts|
    ensures var s := SummaryOf(wd, hosts, cap, ios);
      s.succeeded + |s.failed| == |hosts|
  {
    hide SyncIn, From;
    if hosts != [] {
      SummaryTotals(wd, hosts[..|hosts| - 1], cap, ios[..|hosts| - 1]);
    }
  }

  predicate DistinctMacs(hosts: seq<Host>) {
    forall i, j :: 0 <= i < j < |hosts| ==> hosts[i].mac != hosts[j].mac
  }

  // With distinct MACs no host's sync disturbs another's: after the whole sweep each
  // directory is as syncing that host alone would have left it.
  lemma {:induction false} SweepIsEachAlone(wd: World, hosts: seq<Host>, cap: Cap, ios: seq<Io>)
    requires |ios| == |hosts| && DistinctMacs(hosts)
    ensures var wd' := From(wd, Syncs(hosts, cap, ios));
      && wd'.images == wd.images
      && (forall i :: 0 <= i < |hosts| ==> DirOf(wd'.dirs, hosts[i].mac) == SyncIn(wd, hosts[i], cap, ios[i]).0)
      && (forall mac :: (forall i :: 0 <= i < |hosts| ==> hosts[i].mac != mac) ==> DirOf(wd'.dirs, mac) == DirOf(wd.dirs, mac))
  {
    hide SyncDir, From, Syncs;
    if hosts == [] {
      NothingSwept(wd, cap);
    } else {
      var n := |hosts| - 1;
      SweepIsEachAlone(wd, hosts[..n], cap, ios[..n]);
      OneMoreSwept(wd, hosts[..n], hosts[n], cap, ios[..n], ios[n]);
      assert hosts[..n] + [hosts[n]] == hosts && ios[..n] + [ios[n]] == ios;
      assert forall i :: 0 <= i < n ==> hosts[..n][i] == hosts[i] && ios[..n][i] == ios[i];
    }
  }

  // The hosts whose fresh extraction fails, with its error.
  function FreshFailures(wd: World, hosts: seq<Host>, cap: Cap): seq<(string, XError)> {
    if hosts == [] then []
    else
      var n := |hosts| - 1;
      FreshFailures(wd, hosts[..n], cap)
        + (match FreshResult(hosts[n], StatOf(wd, hosts[n].imagePath), cap)
           case Ok(_) => []
           case Err(e) => [(hosts[n].name, e)])
  }

  lemma {:induction false} SweepReportsFreshFailures(es: seq<Event>, contents: Contents, hosts: seq<Host>, cap: Cap)
    requires Trustworthy(es, contents, cap) && DistinctMacs(hosts)
    ensures SummaryOf(After(es), hosts, cap, Smooth(|hosts|)).failed == FreshFailures(After(es), hosts, cap)
  {
    hide SyncDir, From, Syncs, Trustworthy, Agrees, FreshResult;
    if hosts == [] {
      NothingSwept(After(es), cap);
    } else {
      var wd, n := After(es), |hosts| - 1;
      var host := hosts[n];
      SweepReportsFreshFailures(es, contents, hosts[..n], cap);
      SweepIsEachAlone(wd, hosts[..n], cap, Smooth(n));
      OneMoreSwept(wd, hosts[..n], host, cap, Smooth(n), SMOOTH);
      assert hosts[..n] + [host] == hosts && Smooth(n) + [SMOOTH] == Smooth(n + 1);
      assert forall i :: 0 <= i < n ==> hosts[..n][i] == hosts[i];
      CacheAgrees(es, contents, cap, host);
      AgreesInResult(DirOf(wd.dirs, host.mac), host, StatOf(wd, host.imagePath), cap);
    }
  }

  lemma AgreesInResult(dir: HostDir, host: Host, st: Stat, cap: Cap)
    requires Agrees(dir, host, st, cap)
    ensures SyncDir(dir, host, st, cap, SMOOTH).1 == Outcome(FreshResult(host, st, cap))
    ensures AsFresh(SyncDir(dir, host, st, cap, SMOOTH).0, host, st, cap)
  {
  }

  // After a sweep that follows any trustworthy history, with any configuration that
  // validation accepts, every host at the same time has in its directory what a fresh
  // extraction of its own image leaves there; and the hosts reported as failed are exactly
  // those whose fresh extraction fails, with the same errors.
  lemma SweepServesEveryHost(es: seq<Event>, contents: Contents, hosts: seq<Host>, cap: Cap)
    requires Trustworthy(es, contents, cap) && HostsAccepted(hosts)
    ensures var wd := After(es + Syncs(hosts, cap, Smooth(|hosts|)));
      forall i :: 0 <= i < |hosts| ==>
        AsFresh(DirOf(wd.dirs, hosts[i].mac), hosts[i], StatOf(wd, hosts[i].imagePath), cap)
    ensures var s := SummaryOf(After(es), hosts, cap, Smooth(|hosts|));
      s.failed == FreshFailures(After(es), hosts, cap) && s.succeeded == |hosts| - |s.failed|
  {
    hide SyncDir, From, Syncs, Trustworthy, Agrees, AsFresh, FreshFailures, SummaryOf;
    var ios := Smooth(|hosts|);
    SweepReportsFreshFailures(es, contents, hosts, cap);
    SummaryTotals(After(es), hosts, cap, ios);
    SweepIsEachAlone(After(es), hosts, cap, ios);
    FromConcat(World(map[], map[]), es, Syncs(hosts, cap, ios));
    var wd := After(es);
    forall i | 0 <= i < |hosts| ensures AsFresh(SyncIn(wd, hosts[i], cap, ios[i]).0, hosts[i], StatOf(wd, hosts[i].imagePath), cap) {
      CacheAgrees(es, contents, cap, hosts[i]);
      AgreesInResult(DirOf(wd.dirs, hosts[i].mac), hosts[i], StatOf(wd, hosts[i].imagePath), cap);
    }
  }

  // The same for a sweep that meets trouble, as long as ISOs can be read and metadata files
  // opened: every host reported as succeeded, all of them at the same time, has exactly the
  // fresh artefacts of its own image.
  lemma SucceededHostsHoldTheirOwn(es: seq<Event>, contents: Contents, hosts: seq<Host>, cap: Cap, ios: seq<Io>)
    requires Trustworthy(es, contents, cap) && HostsAccepted(hosts)
    requires |ios| == |hosts| && forall i :: 0 <= i < |ios| ==> ios[i].rd.iso && !ios[i].w.CannotOpen?
    ensures var wd := After(es + Syncs(hosts, cap, ios));
      forall i :: 0 <= i < |hosts| && SweepResult(After(es), hosts, cap, ios, i).Ok? ==>
        var anew := FreshResult(hosts[i], StatOf(wd, hosts[i].imagePath), cap);
        anew.Ok? && Holds(DirOf(wd.dirs, hosts[i].mac), anew.value)
  {
    hide SyncDir, From, Syncs, Trustworthy, FreshResult, SweepResult;
    SweepIsEachAlone(After(es), hosts, cap, ios);
    FromConcat(World(map[], map[]), es, Syncs(hosts, cap, ios));
    forall i | 0 <= i < |hosts|
      ensures SweepResult(After(es), hosts, cap, ios, i) == SyncIn(After(es), hosts[i], cap, ios[i]).1
    {
      ResultIsAlone(After(es), hosts, cap, ios, i);
    }
    forall i | 0 <= i < |hosts| && SyncIn(After(es), hosts[i], cap, ios[i]).1.Ok?
      ensures var anew := FreshResult(hosts[i], StatOf(After(es), hosts[i].imagePath), cap);
        anew.Ok? && Holds(SyncIn(After(es), hosts[i], cap, ios[i]).0, anew.value)
    {
      OkSyncIsFresh(es, contents, cap, hosts[i], ios[i]);
    }
  }

  lemma ResultIsAlone(wd: World, hosts: seq<Host>, cap: Cap, ios: seq<Io>, n: nat)
    requires n < |hosts| == |ios| && DistinctMacs(hosts)
    ensures SweepResult(wd, hosts, cap, ios, n) == SyncIn(wd, hosts[n], cap, ios[n]).1
  {
    hide SyncDir, From, Syncs;
    SweepIsEachAlone(wd, hosts[..n], cap, ios[..n]);
    assert forall i :: 0 <= i < n ==> hosts[..n][i] == hosts[i];
  }

  lemma {:induction false} FromConcat(wd: World, es: seq<Event>, fs: seq<Event>)
    ensures From(wd, es + fs) == From(From(wd, es), fs)
  {
    if fs == [] {
      assert es + fs == es;
    } else {
      FromConcat(wd, es, fs[..|fs| - 1]);
      assert (es + fs)[..|es + fs| - 1] == es + fs[..|fs| - 1];
    }
  }

  // -- Configuration checks ------------------------------------------------------------

  datatype ConfigError = BadMac(i: nat) | DuplicateMac(i: nat) | EmptyName(i: nat) | DuplicateName(i: nat)

  predicate DistinctNames(hosts: seq<Host>) {
    forall i, j :: 0 <= i < j < |hosts| ==> hosts[i].name != hosts[j].name
  }

  predicate HostsAccepted(hosts: seq<Host>) {
    && (forall i :: 0 <= i < |hosts| ==> ValidMac(hosts[i].mac) && !Blank(hosts[i].name))
    && DistinctMacs(hosts) && DistinctNames(hosts)
  }

  // What each complaint says about the host it names.
  ghost predicate Explains(e: ConfigError, hosts: seq<Host>) {
    e.i < |hosts| && var h := hosts[e.i];
    match e
    case BadMac(_) => !ValidMac(h.mac)
    case DuplicateMac(i) => ValidMac(h.mac) && exists j :: 0 <= j < i && hosts[j].mac == h.mac
    case EmptyName(_) => ValidMac(h.mac) && Blank(h.name)
    case DuplicateName(i) => ValidMac(h.mac) && !Blank(h.name) && exists j :: 0 <= j < i && hosts[j].name == h.name
  }

  // The per-host part of configuration validation: it accepts exactly the lists in which
  // every MAC is well formed, every name has a visible character, and neither repeats;
  // otherwise it reports the first host at fault.
  method ValidateHosts(hosts: seq<Host>) returns (err: Option<ConfigError>)
    ensures err.None? <==> HostsAccepted(hosts)
    ensures err.Some? ==> Explains(err.value, hosts)
    ensures err.Some? ==> err.value.i < |hosts| && HostsAccepted(hosts[..err.value.i]) && !HostsAccepted(hosts[..err.value.i + 1])
  {
    hide ValidMac, Blank;
    var seenMacs: set<string>, seenNames: set<string> := {}, {};
    for n := 0 to |hosts|
      invariant HostsAccepted(hosts[..n])
      invariant forall m :: m in seenMacs <==> exists i :: 0 <= i < n && hosts[i].mac == m
      invariant forall m :: m in seenNames <==> exists i :: 0 <= i < n && hosts[i].name == m
    {
      var host := hosts[n];
      assert hosts[..n + 1][n] == host;
      assert forall i :: 0 <= i < n ==> hosts[..n + 1][i] == hosts[..n][i];
      if !ValidMac(host.mac) {
        return Some(BadMac(n));
      }
      if host.mac in seenMacs {
        return Some(DuplicateMac(n));
      }
      seenMacs := seenMacs + {host.mac};
      if Blank(host.name) {
        return Some(EmptyName(n));
      }
      if host.name in seenNames {
        return Some(DuplicateName(n));
      }
      seenNames := seenNames + {host.name};
    }
    assert hosts[..|hosts|] == hosts;
    err := None;
  }
}
