// Which files of an image are taken for the kernel and the initrd, and which answer each
// kind of image gives, said without the search that finds them.
module Detection {
  import opened Prelude
  import opened Text
  import opened Walker
  import opened Extraction

  // -- Names ------------------------------------------------------------------------

  // One of the four names a kernel goes by, in any case.
  predicate KernelWord(name: string) {
    || EqualsIgnoringCase(name, "vmlinuz")
    || EqualsIgnoringCase(name, "bzimage")
    || EqualsIgnoringCase(name, "kernel")
    || EqualsIgnoringCase(name, "image")
  }

  // One of the two words that mark an initrd occurs somewhere, in any case.
  predicate InitrdWord(name: string) {
    exists i :: 0 <= i < |name| && (OccursAt(name, "initrd", i) || OccursAt(name, "initramfs", i))
  }

  lemma KernelNames(name: string)
    ensures IsKernelName(name) <==> KernelWord(name)
  {
    hide AsciiLower, EqualsIgnoringCase;
    LowerEquals(name, "vmlinuz");
    LowerEquals(name, "bzimage");
    LowerEquals(name, "kernel");
    LowerEquals(name, "image");
  }

  lemma {:induction false} ContainsExactly(s: string, part: string)
    ensures Contains(s, part) <==> exists i :: 0 <= i <= |s| && part <= s[i..]
  {
    if part <= s {
      assert s[0..] == s;
    } else if s != [] {
      ContainsExactly(s[1..], part);
      forall i | 0 <= i < |s| ensures s[1..][i..] == s[i + 1..] {
      }
      if i :| 0 <= i <= |s| && part <= s[i..] {
        assert i > 0 && s[1..][i - 1..] == s[i..];
      }
    }
  }

  lemma LowerOccurs(s: string, word: string, i: nat)
    requires Uncapitalised(word) && i <= |s|
    ensures |AsciiLower(s)| == |s|
    ensures word <= AsciiLower(s)[i..] <==> OccursAt(s, word, i)
  {
    hide AsciiLower, LowerChar, SameLetter;
    LowerAt(s, 0);
    forall k | 0 <= k < |s| ensures AsciiLower(s)[k] == LowerChar(s[k]) {
      LowerAt(s, k);
    }
    if i + |word| <= |s| {
      forall j | 0 <= j < |word| ensures AsciiLower(s)[i..][j] == word[j] <==> SameLetter(s[i + j], word[j]) {
        LowerCharIs(s[i + j], word[j]);
      }
    }
  }

  lemma ContainsWord(name: string, word: string)
    requires Uncapitalised(word) && word != []
    ensures Contains(AsciiLower(name), word) <==> exists i :: 0 <= i < |name| && OccursAt(name, word, i)
  {
    hide AsciiLower, Contains;
    LowerAt(name, 0);
    ContainsExactly(AsciiLower(name), word);
    forall i | 0 <= i <= |name| ensures word <= AsciiLower(name)[i..] <==> OccursAt(name, word, i) {
      LowerOccurs(name, word, i);
    }
  }

  lemma InitrdNames(name: string)
    ensures IsInitrdName(name) <==> InitrdWord(name)
  {
    hide AsciiLower, Contains, OccursAt;
    ContainsWord(name, "initrd");
    ContainsWord(name, "initramfs");
  }

  // -- The first file ---------------------------------------------------------------

  // The chain leads, at most 64 levels down, to a file that goes by such a name or to an
  // entry that cannot be read.
  predicate Stops(g: Graph, root: nat, word: string -> bool, p: seq<nat>) {
    |p| <= 64 && match EntryAt(g, root, p)
                 case None => false
                 case Some(FileEntry(name, _)) => word(name)
                 case Some(DirEntry(_, _)) => false
                 case Some(OtherEntry(_)) => false
                 case Some(Unreadable) => true
  }

  // It is the first one in pre-order.
  ghost predicate StopsFirst(g: Graph, root: nat, word: string -> bool, p: seq<nat>) {
    Stops(g, root, word, p) && forall q :: Before(q, p) ==> !Stops(g, root, word, q)
  }

  // This is the first file by such a name, and no unreadable entry comes before it.
  ghost predicate FirstFile(g: Graph, root: nat, word: string -> bool, content: bytes) {
    exists p :: StopsFirst(g, root, word, p) &&
                EntryAt(g, root, p).value.FileEntry? && EntryAt(g, root, p).value.content == content
  }

  // An unreadable entry comes before any such file.
  ghost predicate UnreadableFirst(g: Graph, root: nat, word: string -> bool) {
    exists p :: StopsFirst(g, root, word, p) && EntryAt(g, root, p).value.Unreadable?
  }

  ghost predicate NothingThere(g: Graph, root: nat, word: string -> bool) {
    forall p :: !Stops(g, root, word, p)
  }

  // Of two chains that stop the search one comes before the other.
  lemma {:induction false} StopsInOrder(g: Graph, d: nat, word: string -> bool, p: seq<nat>, q: seq<nat>)
    requires Stops(g, d, word, p) && Stops(g, d, word, q) && p != q
    ensures Before(p, q) || Before(q, p)
    decreases |p|
  {
    if p[0] == q[0] {
      assert p == [p[0]] + p[1..] && q == [q[0]] + q[1..];
      assert |p| > 1 && |q| > 1;
      StopsInOrder(g, Listing(g, d)[p[0]].dir, word, p[1..], q[1..]);
    }
  }

  lemma VerdictStops(g: Graph, root: nat, word: string -> bool, filter: string -> bool, p: seq<nat>)
    requires (forall name :: filter(name) <==> word(name)) && |p| <= 64
    ensures !Verdict(g, root, p, filter).Miss? <==> Stops(g, root, word, p)
    ensures Verdict(g, root, p, filter)
         == if !Stops(g, root, word, p) then Miss
            else if EntryAt(g, root, p).value.FileEntry? then Hit(EntryAt(g, root, p).value.content)
            else Fault
    ensures Stops(g, root, word, p) ==> EntryAt(g, root, p).value.FileEntry? || EntryAt(g, root, p).value.Unreadable?
  {
    hide EntryAt;
  }

  // The search's answer, for a filter that accepts just such names.
  lemma LookupAnswers(g: Graph, root: nat, word: string -> bool, filter: string -> bool)
    requires forall name :: filter(name) <==> word(name)
    ensures Walk(g, root, filter, 0) == Miss <==> NothingThere(g, root, word)
    ensures Walk(g, root, filter, 0) == Fault <==> UnreadableFirst(g, root, word)
    ensures forall content :: Walk(g, root, filter, 0) == Hit(content) <==> FirstFile(g, root, word, content)
  {
    hide Walk, EntryAt, Verdict, Stops, Before;
    WalkFindsFirst(g, root, filter);
    forall p | |p| <= 64
      ensures !Verdict(g, root, p, filter).Miss? <==> Stops(g, root, word, p) {
      VerdictStops(g, root, word, filter, p);
    }
    if Walk(g, root, filter, 0).Miss? {
      forall p ensures !Stops(g, root, word, p) {
        NoDeeper(g, root, word, p);
      }
    } else {
      var p :| FirstVerdict(g, root, filter, 64, 0, p, Walk(g, root, filter, 0));
      VerdictStops(g, root, word, filter, p);
      forall q | Before(q, p) ensures !Stops(g, root, word, q) {
        NoDeeper(g, root, word, q);
        BothNonEmpty(q, p);
      }
      assert StopsFirst(g, root, word, p);
      forall q | StopsFirst(g, root, word, q) ensures q == p {
        if q != p {
          StopsInOrder(g, root, word, p, q);
        }
      }
    }
  }

  lemma NoDeeper(g: Graph, root: nat, word: string -> bool, p: seq<nat>)
    ensures |p| > 64 ==> !Stops(g, root, word, p)
  {
  }

  lemma BothNonEmpty(p: seq<nat>, q: seq<nat>)
    requires Before(p, q)
    ensures p != [] && q != []
  {
  }

  predicate Within(content: bytes, cap: Cap) {
    cap.Some? ==> |content| <= cap.value
  }

  // -- ISO images -------------------------------------------------------------------

  // The file meant: the one at the path given, or without one the first of that name.
  ghost predicate IsoFile(v: Iso, path: Option<string>, word: string -> bool, content: bytes) {
    match path
    case None => FirstFile(v.graph, v.root, word, content)
    case Some(p) =>
      p in v.paths && v.paths[p].OpenedEntry? && v.paths[p].entry.FileEntry? && v.paths[p].entry.content == content
  }

  // There is none.
  ghost predicate IsoNone(v: Iso, path: Option<string>, word: string -> bool) {
    match path
    case None => NothingThere(v.graph, v.root, word)
    case Some(p) => p in v.paths ==> v.paths[p].OpenedEntry? && !v.paths[p].entry.FileEntry?
  }

  // Looking for it meets what cannot be read.
  ghost predicate IsoBroken(v: Iso, path: Option<string>, word: string -> bool) {
    match path
    case None => UnreadableFirst(v.graph, v.root, word)
    case Some(p) => p in v.paths && v.paths[p].OpenFault?
  }

  lemma IsoLookup(v: Iso, path: Option<string>, word: string -> bool, filter: string -> bool, missing: XError)
    requires (forall name :: filter(name) <==> word(name)) && missing != XError.IsoError
    ensures var r := ResolveIso(v, path, filter, missing);
      && (r == Err(XError.IsoError) <==> IsoBroken(v, path, word))
      && (r == Err(missing) <==> IsoNone(v, path, word))
      && (forall content :: r == Ok(content) <==> IsoFile(v, path, word, content))
      && (r.Err? ==> r.error == XError.IsoError || r.error == missing)
  {
    hide Walk, FirstFile, UnreadableFirst, NothingThere;
    if path.None? {
      LookupAnswers(v.graph, v.root, word, filter);
    }
  }

  lemma FiltersMean()
    ensures forall name :: IsKernelName(name) <==> KernelWord(name)
    ensures forall name :: IsInitrdName(name) <==> InitrdWord(name)
  {
    hide *;
    forall name ensures IsKernelName(name) <==> KernelWord(name) {
      KernelNames(name);
    }
    forall name ensures IsInitrdName(name) <==> InitrdWord(name) {
      InitrdNames(name);
    }
  }

  // Both files are there, and within the cap.
  ghost predicate IsoGives(v: Iso, kp: Option<string>, ip: Option<string>, cap: Cap, a: Artefacts) {
    && IsoFile(v, kp, KernelWord, a.kernel) && Within(a.kernel, cap)
    && IsoFile(v, ip, InitrdWord, a.initrd) && Within(a.initrd, cap)
  }

  // Every answer of the ISO attempt, with its cause: both files within the cap, or one of
  // them missing, unreadable or too large.
  lemma IsoExtraction(v: Iso, kp: Option<string>, ip: Option<string>, cap: Cap)
    ensures var r := ExtractIso(Some(v), kp, ip, cap);
      && (forall a :: r == Ok(a) <==> IsoGives(v, kp, ip, cap, a))
      && (r == Err(KernelNotFound) <==> IsoNone(v, kp, KernelWord))
      && (r == Err(InitrdNotFound) <==> (exists k :: IsoFile(v, kp, KernelWord, k)) && IsoNone(v, ip, InitrdWord))
      && (r == Err(XError.IsoError) <==>
            IsoBroken(v, kp, KernelWord) || ((exists k :: IsoFile(v, kp, KernelWord, k)) && IsoBroken(v, ip, InitrdWord)))
      && (forall limit: nat :: r == Err(ArtifactTooLarge(limit)) <==>
            cap == Some(limit) && exists k, i :: IsoFile(v, kp, KernelWord, k) && IsoFile(v, ip, InitrdWord, i) &&
                                                 (|k| > limit || |i| > limit))
  {
    hide ResolveIso, IsoFile, IsoNone, IsoBroken, KernelWord, InitrdWord, IsKernelName, IsInitrdName;
    FiltersMean();
    IsoLookup(v, kp, KernelWord, IsKernelName, KernelNotFound);
    IsoLookup(v, ip, InitrdWord, IsInitrdName, InitrdNotFound);
    var kernel := ResolveIso(v, kp, IsKernelName, KernelNotFound);
    var initrd := ResolveIso(v, ip, IsInitrdName, InitrdNotFound);
    if kernel.Ok? {
      assert IsoFile(v, kp, KernelWord, kernel.value);
      if initrd.Ok? {
        assert IsoFile(v, ip, InitrdWord, initrd.value);
      }
    }
  }

  // -- GPT disks --------------------------------------------------------------------

  ghost predicate FatFile(f: Fat, path: Option<string>, word: string -> bool, content: bytes) {
    match path
    case None => FirstFile(f.graph, f.root, word, content)
    case Some(p) => p in f.paths && f.paths[p] == content
  }

  ghost predicate FatNone(f: Fat, path: Option<string>, word: string -> bool) {
    match path
    case None => NothingThere(f.graph, f.root, word)
    case Some(p) => p !in f.paths
  }

  // Only a search can meet an unreadable entry: a path that cannot be opened counts as absent.
  ghost predicate FatBroken(f: Fat, path: Option<string>, word: string -> bool) {
    path.None? && UnreadableFirst(f.graph, f.root, word)
  }

  // The partition holds a FAT file system, and a kernel or something unreadable before one.
  ghost predicate Decides(p: Partition, kp: Option<string>) {
    p.used && p.bounded && p.fat.Some? && !FatNone(p.fat.value, kp, KernelWord)
  }

  lemma FatLookup(f: Fat, path: Option<string>, word: string -> bool, filter: string -> bool)
    requires forall name :: filter(name) <==> word(name)
    ensures var r := ResolveFat(f, path, filter);
      && (r == Err(XError.IoError) <==> FatBroken(f, path, word))
      && (r == Ok(None) <==> FatNone(f, path, word))
      && (forall content :: r == Ok(Some(content)) <==> FatFile(f, path, word, content))
      && (r.Err? ==> r.error == XError.IoError)
  {
    hide Walk, FirstFile, UnreadableFirst, NothingThere;
    if path.None? {
      LookupAnswers(f.graph, f.root, word, filter);
    }
  }

  lemma SettlesIs(p: Partition, kp: Option<string>)
    ensures Settles(p, kp) <==> Decides(p, kp)
  {
    hide ResolveFat, FatNone, KernelWord, IsKernelName;
    FiltersMean();
    if p.fat.Some? {
      FatLookup(p.fat.value, kp, KernelWord, IsKernelName);
    }
  }

  ghost predicate FatGives(f: Fat, kp: Option<string>, ip: Option<string>, cap: Cap, a: Artefacts) {
    && FatFile(f, kp, KernelWord, a.kernel) && Within(a.kernel, cap)
    && FatFile(f, ip, InitrdWord, a.initrd) && Within(a.initrd, cap)
  }

  ghost predicate InitrdAbove(f: Fat, ip: Option<string>, limit: nat) {
    exists i :: FatFile(f, ip, InitrdWord, i) && |i| > limit
  }

  // Every answer a deciding partition gives, with its cause. The kernel is copied before
  // the initrd is looked for, so a kernel above the cap hides what is wrong with the initrd.
  lemma PartitionExtraction(p: Partition, kp: Option<string>, ip: Option<string>, cap: Cap)
    requires Settles(p, kp)
    ensures var r, f := FromPartition(p, kp, ip, cap), p.fat.value;
      && (forall a :: r == Ok(a) <==> FatGives(f, kp, ip, cap, a))
      && (r == Err(InitrdNotFound) <==>
            (exists k :: FatFile(f, kp, KernelWord, k) && Within(k, cap)) && FatNone(f, ip, InitrdWord))
      && (r == Err(XError.IoError) <==>
            || FatBroken(f, kp, KernelWord)
            || ((exists k :: FatFile(f, kp, KernelWord, k) && Within(k, cap)) && FatBroken(f, ip, InitrdWord)))
      && (forall limit: nat :: r == Err(ArtifactTooLarge(limit)) <==>
            cap == Some(limit) && exists k :: FatFile(f, kp, KernelWord, k) && (|k| > limit || InitrdAbove(f, ip, limit)))
      && r != Err(KernelNotFound)
  {
    hide ResolveFat, FatFile, FatNone, FatBroken, KernelWord, InitrdWord, IsKernelName, IsInitrdName;
    FiltersMean();
    FatLookup(p.fat.value, kp, KernelWord, IsKernelName);
    FatLookup(p.fat.value, ip, InitrdWord, IsInitrdName);
    var kernel := ResolveFat(p.fat.value, kp, IsKernelName);
    var initrd := ResolveFat(p.fat.value, ip, IsInitrdName);
    if kernel.Ok? {
      assert FatFile(p.fat.value, kp, KernelWord, kernel.value.value);
      if initrd.Ok? && initrd.value.Some? {
        assert FatFile(p.fat.value, ip, InitrdWord, initrd.value.value);
      }
    }
  }

  // Partitions that do not decide are passed over: the first that does answers for the
  // disk, and the kernel is not found exactly when none does.
  lemma DiskExtraction(ps: seq<Partition>, kp: Option<string>, ip: Option<string>, cap: Cap)
    ensures var r := ExtractDisk(Some(ps), kp, ip, cap);
      && (r == Err(KernelNotFound) <==> forall i :: 0 <= i < |ps| ==> !Decides(ps[i], kp))
      && forall i :: 0 <= i < |ps| && Decides(ps[i], kp) && (forall j :: 0 <= j < i ==> !Decides(ps[j], kp)) ==>
           Settles(ps[i], kp) && r == FromPartition(ps[i], kp, ip, cap)
  {
    hide Settles, Decides, FromPartition, ExtractPartitions;
    forall i | 0 <= i < |ps| ensures Settles(ps[i], kp) <==> Decides(ps[i], kp) {
      SettlesIs(ps[i], kp);
    }
    var i := 0;
    while i < |ps| && !Decides(ps[i], kp)
      invariant i <= |ps| && forall j :: 0 <= j < i ==> !Decides(ps[j], kp)
    {
      i := i + 1;
    }
    FirstPartitionDecides(ps, kp, ip, cap, i);
    if i < |ps| {
      PartitionExtraction(ps[i], kp, ip, cap);
    }
  }

  // -- Either kind ------------------------------------------------------------------

  // The disk is looked at only when the image yields nothing as an ISO, and then the disk
  // alone answers.
  lemma ImageExtraction(img: Image, kp: Option<string>, ip: Option<string>, cap: Cap)
    ensures var r := Extract(img, kp, ip, cap);
      && (forall a :: img.iso.Some? && IsoGives(img.iso.value, kp, ip, cap, a) ==> r == Ok(a))
      && ((img.iso.Some? ==> forall a :: !IsoGives(img.iso.value, kp, ip, cap, a)) ==>
            r == if img.gpt.Some? then ExtractDisk(img.gpt, kp, ip, cap) else Err(XError.DiskError))
  {
    hide ExtractPartitions, IsoFile, ResolveIso, KernelWord, InitrdWord;
    if img.iso.Some? {
      IsoExtraction(img.iso.value, kp, ip, cap);
    }
  }
}
