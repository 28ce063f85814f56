// Finding the kernel and initrd in a boot image, first as ISO 9660 and then as a GPT
// disk with FAT partitions, and copying them out under a size cap.
module Extraction {
  import opened Prelude
  import opened BlockStream
  import opened Walker
  import opened Text

  datatype XError =
    | IoError
    | IsoError
    | DiskError
    | ImageNotFound
    | KernelNotFound
    | InitrdNotFound
    | ArtifactTooLarge(limit: nat)

  // -- Names ------------------------------------------------------------------------

  predicate Contains(s: string, part: string) {
    part <= s || (s != [] && Contains(s[1..], part))
  }

  predicate IsKernelName(name: string) {
    var lower := AsciiLower(name);
    lower == "vmlinuz" || lower == "bzimage" || lower == "kernel" || lower == "image"
  }

  predicate IsInitrdName(name: string) {
    var lower := AsciiLower(name);
    Contains(lower, "initrd") || Contains(lower, "initramfs")
  }

  // -- Copying under a cap ----------------------------------------------------------

  type Cap = Option<nat>

  function Capped(content: bytes, cap: Cap): Result<bytes, XError> {
    if cap.Some? && |content| > cap.value then Err(ArtifactTooLarge(cap.value)) else Ok(content)
  }

  const COPY_BUFFER: nat := 65536

  function Outcome<T>(r: Result<T, XError>): Result<(), XError> {
    match r case Ok(_) => Ok(()) case Err(e) => Err(e)
  }

  // A capped copy of `size` bytes that has reached `pos` after `calls` read calls: the
  // calls made by its end, and whether none of them faulted. A copy that goes past the cap
  // ends there, so a fault beyond is not met.
  function CallsToCopy(schedule: nat -> Grant, size: nat, cap: Cap, pos: nat, calls: nat): (nat, bool)
    requires pos <= size
    decreases size - pos
  {
    if schedule(calls) == Grant.Fault then (calls + 1, false)
    else if pos == size then (calls + 1, true)
    else
      var n := Moved(schedule(calls), Min(COPY_BUFFER, size - pos));
      if cap.Some? && pos + n > cap.value then (calls + 1, true)
      else CallsToCopy(schedule, size, cap, pos + n, calls + 1)
  }

  lemma CopyUnfold(schedule: nat -> Grant, size: nat, cap: Cap, pos: nat, calls: nat)
    requires pos <= size
    ensures CallsToCopy(schedule, size, cap, pos, calls)
         == if schedule(calls) == Grant.Fault then (calls + 1, false)
            else if pos == size then (calls + 1, true)
            else
              var n := Moved(schedule(calls), Min(COPY_BUFFER, size - pos));
              if cap.Some? && pos + n > cap.value then (calls + 1, true)
              else CallsToCopy(schedule, size, cap, pos + n, calls + 1)
  {
  }

  // Only the last call of a copy can have faulted, and then the copy has failed.
  lemma {:induction false} LastCallDecides(schedule: nat -> Grant, size: nat, cap: Cap, pos: nat, calls: nat)
    requires pos <= size
    ensures var r := CallsToCopy(schedule, size, cap, pos, calls);
      && r.0 > calls && (r.1 <==> schedule(r.0 - 1) != Grant.Fault)
      && forall k :: calls <= k < r.0 - 1 ==> schedule(k) != Grant.Fault
    decreases size - pos
  {
    hide CallsToCopy;
    CopyUnfold(schedule, size, cap, pos, calls);
    if schedule(calls) != Grant.Fault && pos < size {
      var n := Moved(schedule(calls), Min(COPY_BUFFER, size - pos));
      if cap.None? || pos + n <= cap.value {
        LastCallDecides(schedule, size, cap, pos + n, calls + 1);
      }
    }
  }

  // Where every read brings all there is room for, a capped copy goes in steps of 64 KiB: one
  // call for each begun, and one that finds the end.
  lemma {:induction false} FullReads(schedule: nat -> Grant, size: nat, limit: nat, pos: nat, calls: nat)
    requires pos <= size <= limit && forall k: nat :: schedule(k) != Grant.Fault && schedule(k).n >= size
    ensures CallsToCopy(schedule, size, Some(limit), pos, calls) == (calls + (size - pos + 65535) / 65536 + 1, true)
    decreases size - pos
  {
    if pos < size {
      var n := Moved(schedule(calls), Min(COPY_BUFFER, size - pos));
      hide CallsToCopy, Moved;
      CopyUnfold(schedule, size, Some(limit), pos, calls);
      FullReads(schedule, size, limit, pos + n, calls + 1);
    }
  }

  predicate CopyReads(schedule: nat -> Grant, size: nat, cap: Cap) {
    CallsToCopy(schedule, size, cap, 0, 0).1
  }

  // Copies a reader into a fresh file `out`, refusing to go past the cap. It fails with an
  // I/O error exactly when one of the read calls it makes faults; otherwise, for every
  // schedule of short reads, the verdict depends only on the size. What is in the file is
  // always a prefix of the source within the cap, and all of it on success.
  method CopyCapped(reader: FileReader, cap: Cap) returns (out: bytes, r: Result<(), XError>)
    requires reader.pos == 0
    modifies reader
    ensures out <= reader.content
    ensures cap.Some? ==> |out| <= cap.value
    ensures r.Ok? ==> out == reader.content
    ensures (reader.calls, r != Err(IoError)) == CallsToCopy(reader.schedule, |reader.content|, cap, 0, old(reader.calls))
    ensures r != Err(IoError) ==> r == Outcome(Capped(reader.content, cap))
  {
    hide Moved, CallsToCopy;
    out := [];
    var written := 0;
    var buf := new byte[COPY_BUFFER];
    while true
      invariant written == |out| == reader.pos <= |reader.content|
      invariant out == reader.content[0..written]
      invariant cap.Some? ==> written <= cap.value
      invariant CallsToCopy(reader.schedule, |reader.content|, cap, written, reader.calls)
             == CallsToCopy(reader.schedule, |reader.content|, cap, 0, old(reader.calls))
      decreases |reader.content| - reader.pos
    {
      CopyUnfold(reader.schedule, |reader.content|, cap, written, reader.calls);
      var got := reader.Read(buf, 0);
      if got.Err? {
        return out, Err(IoError);
      }
      var n := got.value;
      if n == 0 {
        break;
      }
      written := written + n;
      if cap.Some? && written > cap.value {
        return out, Err(ArtifactTooLarge(cap.value));
      }
      assert buf[..n] == buf[0..0 + n];
      Adjacent(reader.content, 0, written - n, written);
      out := out + buf[..n];
    }
    r := Ok(());
  }

  // -- ISO images ---------------------------------------------------------------------

  // What opening an exact path yields; paths not in the map are absent.
  datatype Opened = OpenFault | OpenedEntry(entry: Entry)

  datatype Iso = Iso(graph: Graph, root: nat, paths: map<string, Opened>)

  datatype Artefacts = Artefacts(kernel: bytes, initrd: bytes)

  function ResolveIso(v: Iso, path: Option<string>, filter: string -> bool, missing: XError): Result<bytes, XError> {
    match path
    case Some(p) =>
      if p !in v.paths then Err(missing)
      else if v.paths[p].OpenFault? then Err(IsoError)
      else if v.paths[p].entry.FileEntry? then Ok(v.paths[p].entry.content)
      else Err(missing)
    case None =>
      match Walk(v.graph, v.root, filter, 0)
      case Fault => Err(IsoError)
      case Miss => Err(missing)
      case Hit(content) => Ok(content)
  }

  function CopyBoth(kernel: bytes, initrd: bytes, cap: Cap): Result<Artefacts, XError> {
    match Capped(kernel, cap)
    case Err(e) => Err(e)
    case Ok(_) =>
      match Capped(initrd, cap)
      case Err(e) => Err(e)
      case Ok(_) => Ok(Artefacts(kernel, initrd))
  }

  function ExtractIso(iso: Option<Iso>, kp: Option<string>, ip: Option<string>, cap: Cap): Result<Artefacts, XError> {
    match iso
    case None => Err(IsoError)
    case Some(v) =>
      match ResolveIso(v, kp, IsKernelName, KernelNotFound)
      case Err(e) => Err(e)
      case Ok(kernel) =>
        match ResolveIso(v, ip, IsInitrdName, InitrdNotFound)
        case Err(e) => Err(e)
        case Ok(initrd) => CopyBoth(kernel, initrd, cap)
  }

  // -- GPT disks with FAT partitions -----------------------------------------------------

  datatype Fat = Fat(graph: Graph, root: nat, paths: map<string, bytes>)

  // A GPT entry: in use or not, its byte bounds known or not, a FAT file system or not.
  datatype Partition = Partition(used: bool, bounded: bool, fat: Option<Fat>)

  predicate Mounts(p: Partition) {
    p.used && p.bounded && p.fat.Some?
  }

  function ResolveFat(f: Fat, path: Option<string>, filter: string -> bool): Result<Option<bytes>, XError> {
    match path
    case Some(p) => Ok(if p in f.paths then Some(f.paths[p]) else None)
    case None =>
      match Walk(f.graph, f.root, filter, 0)
      case Fault => Err(IoError)
      case Miss => Ok(None)
      case Hit(content) => Ok(Some(content))
  }

  // The partition settles the search: its kernel lookup found something or failed.
  predicate Settles(p: Partition, kp: Option<string>) {
    Mounts(p) && ResolveFat(p.fat.value, kp, IsKernelName) != Ok(None)
  }

  // What a settling partition yields.
  function FromPartition(p: Partition, kp: Option<string>, ip: Option<string>, cap: Cap): Result<Artefacts, XError>
    requires Settles(p, kp)
  {
    match ResolveFat(p.fat.value, kp, IsKernelName)
    case Err(e) => Err(e)
    case Ok(kernel) =>
      match Capped(kernel.value, cap)
      case Err(e) => Err(e)
      case Ok(_) =>
        match ResolveFat(p.fat.value, ip, IsInitrdName)
        case Err(e) => Err(e)
        case Ok(None) => Err(InitrdNotFound)
        case Ok(Some(initrd)) =>
          match Capped(initrd, cap)
          case Err(e) => Err(e)
          case Ok(_) => Ok(Artefacts(kernel.value, initrd))
  }

  function ExtractPartitions(ps: seq<Partition>, kp: Option<string>, ip: Option<string>, cap: Cap): Result<Artefacts, XError> {
    if ps == [] then Err(KernelNotFound)
    else if Settles(ps[0], kp) then FromPartition(ps[0], kp, ip, cap)
    else ExtractPartitions(ps[1..], kp, ip, cap)
  }

  function ExtractDisk(gpt: Option<seq<Partition>>, kp: Option<string>, ip: Option<string>, cap: Cap): Result<Artefacts, XError> {
    match gpt
    case None => Err(DiskError)
    case Some(ps) => ExtractPartitions(ps, kp, ip, cap)
  }

  // The first partition with a kernel (or a fault on the way to one) alone decides the
  // outcome, whatever the others hold; without one the kernel is not found.
  lemma {:induction false} FirstPartitionDecides(ps: seq<Partition>, kp: Option<string>, ip: Option<string>, cap: Cap, i: nat)
    requires i <= |ps| && forall j :: 0 <= j < i ==> !Settles(ps[j], kp)
    ensures i == |ps| ==> ExtractPartitions(ps, kp, ip, cap) == Err(KernelNotFound)
    ensures i < |ps| && Settles(ps[i], kp) ==>
      ExtractPartitions(ps, kp, ip, cap) == FromPartition(ps[i], kp, ip, cap)
  {
    hide Settles, FromPartition;
    if i > 0 {
      FirstPartitionDecides(ps[1..], kp, ip, cap, i - 1);
    }
  }

  // -- Either kind -----------------------------------------------------------------------

  datatype Image = Image(iso: Option<Iso>, gpt: Option<seq<Partition>>)

  // Whether each attempt got through without a failed read of an artefact.
  datatype Reads = Reads(iso: bool, disk: bool)

  const CLEAN := Reads(true, true)

  // As an ISO, and if that fails for any reason, as a disk.
  function Extracted(img: Image, kp: Option<string>, ip: Option<string>, cap: Cap, rd: Reads): Result<Artefacts, XError> {
    match if rd.iso then ExtractIso(img.iso, kp, ip, cap) else Err(IoError)
    case Ok(a) => Ok(a)
    case Err(_) => if rd.disk then ExtractDisk(img.gpt, kp, ip, cap) else Err(IoError)
  }

  // A fresh extraction, with no read failing.
  function Extract(img: Image, kp: Option<string>, ip: Option<string>, cap: Cap): Result<Artefacts, XError> {
    Extracted(img, kp, ip, cap, CLEAN)
  }

  // -- What failing reads decide -----------------------------------------------------------

  // What each read of each artefact copied during one extraction is granted: short in any
  // way, or a fault. The first number says which copy, the second which call.
  type Schedules = (nat, nat) -> Grant

  const ISO_KERNEL: nat := 0
  const ISO_INITRD: nat := 1
  const DISK_KERNEL: nat := 2
  const DISK_INITRD: nat := 3

  function ScheduleOf(schedules: Schedules, copy: nat): nat -> Grant {
    (call: nat) => schedules(copy, call)
  }

  // Two copies one after the other meet no fault; the second is made only if the first
  // stays within the cap.
  predicate BothRead(schedules: Schedules, first: nat, kernel: bytes, initrd: Result<bytes, XError>, cap: Cap) {
    && CopyReads(ScheduleOf(schedules, first), |kernel|, cap)
    && (Capped(kernel, cap).Ok? && initrd.Ok? ==> CopyReads(ScheduleOf(schedules, first + 1), |initrd.value|, cap))
  }

  // The ISO attempt copies only when both files have been found.
  predicate IsoReads(iso: Option<Iso>, kp: Option<string>, ip: Option<string>, cap: Cap, schedules: Schedules) {
    iso.Some? ==>
      var kernel := ResolveIso(iso.value, kp, IsKernelName, KernelNotFound);
      var initrd := ResolveIso(iso.value, ip, IsInitrdName, InitrdNotFound);
      kernel.Ok? && initrd.Ok? ==> BothRead(schedules, ISO_KERNEL, kernel.value, initrd, cap)
  }

  // The disk attempt copies the kernel before it looks for the initrd.
  predicate PartitionReads(p: Partition, kp: Option<string>, ip: Option<string>, cap: Cap, schedules: Schedules)
    requires Settles(p, kp)
  {
    var kernel := ResolveFat(p.fat.value, kp, IsKernelName);
    kernel.Ok? ==>
      BothRead(schedules, DISK_KERNEL, kernel.value.value, FoundInitrd(p.fat.value, ip), cap)
  }

  function FoundInitrd(f: Fat, ip: Option<string>): Result<bytes, XError> {
    match ResolveFat(f, ip, IsInitrdName)
    case Err(e) => Err(e)
    case Ok(None) => Err(InitrdNotFound)
    case Ok(Some(initrd)) => Ok(initrd)
  }

  predicate DiskReads(ps: seq<Partition>, kp: Option<string>, ip: Option<string>, cap: Cap, schedules: Schedules) {
    ps != [] ==>
      if Settles(ps[0], kp) then PartitionReads(ps[0], kp, ip, cap, schedules)
      else DiskReads(ps[1..], kp, ip, cap, schedules)
  }

  // Which attempts get through under these schedules.
  function ReadsOf(img: Image, kp: Option<string>, ip: Option<string>, cap: Cap, schedules: Schedules): Reads {
    Reads(IsoReads(img.iso, kp, ip, cap, schedules),
          img.gpt.Some? ==> DiskReads(img.gpt.value, kp, ip, cap, schedules))
  }

  // Where no read faults, both do.
  ghost predicate Steady(schedules: Schedules) {
    forall copy: nat, call: nat :: schedules(copy, call) != Grant.Fault
  }

  lemma SteadyBoth(schedules: Schedules, first: nat, kernel: bytes, initrd: Result<bytes, XError>, cap: Cap)
    requires Steady(schedules)
    ensures BothRead(schedules, first, kernel, initrd, cap)
  {
    LastCallDecides(ScheduleOf(schedules, first), |kernel|, cap, 0, 0);
    if initrd.Ok? {
      LastCallDecides(ScheduleOf(schedules, first + 1), |initrd.value|, cap, 0, 0);
    }
    hide CallsToCopy, Capped;
  }

  lemma SteadyReads(img: Image, kp: Option<string>, ip: Option<string>, cap: Cap, schedules: Schedules)
    requires Steady(schedules)
    ensures ReadsOf(img, kp, ip, cap, schedules) == CLEAN
  {
    hide ResolveIso, BothRead, Steady;
    forall kernel, initrd ensures BothRead(schedules, ISO_KERNEL, kernel, initrd, cap) {
      SteadyBoth(schedules, ISO_KERNEL, kernel, initrd, cap);
    }
    if img.gpt.Some? {
      SteadyDisk(img.gpt.value, kp, ip, cap, schedules);
    }
  }

  lemma {:induction false} SteadyDisk(ps: seq<Partition>, kp: Option<string>, ip: Option<string>, cap: Cap, schedules: Schedules)
    requires Steady(schedules)
    ensures DiskReads(ps, kp, ip, cap, schedules)
  {
    hide ResolveFat, BothRead, Steady, FoundInitrd;
    if ps == [] {
    } else if Settles(ps[0], kp) {
      var kernel := ResolveFat(ps[0].fat.value, kp, IsKernelName);
      if kernel.Ok? {
        SteadyBoth(schedules, DISK_KERNEL, kernel.value.value, FoundInitrd(ps[0].fat.value, ip), cap);
      }
    } else {
      SteadyDisk(ps[1..], kp, ip, cap, schedules);
    }
  }

  // -- What the cap decides ----------------------------------------------------------------

  predicate Fits(a: Artefacts, cap: Cap) {
    cap.Some? ==> |a.kernel| <= cap.value && |a.initrd| <= cap.value
  }

  // The first cap allows no more than the second.
  predicate NoLooser(c1: Cap, c0: Cap) {
    c0.Some? ==> c1.Some? && c1.value <= c0.value
  }

  // Artefacts an ISO yields under one cap it yields under another exactly when they fit,
  // and it yields nothing else then.
  lemma IsoUnderCap(iso: Option<Iso>, kp: Option<string>, ip: Option<string>, c0: Cap, c1: Cap)
    requires ExtractIso(iso, kp, ip, c0).Ok?
    ensures var a := ExtractIso(iso, kp, ip, c0).value;
      Fits(a, c0) && if Fits(a, c1) then ExtractIso(iso, kp, ip, c1) == Ok(a) else ExtractIso(iso, kp, ip, c1).Err?
  {
    hide ResolveIso;
  }

  lemma PartitionUnderCap(p: Partition, kp: Option<string>, ip: Option<string>, c0: Cap, c1: Cap)
    requires Settles(p, kp) && FromPartition(p, kp, ip, c0).Ok?
    ensures var a := FromPartition(p, kp, ip, c0).value;
      Fits(a, c0) && if Fits(a, c1) then FromPartition(p, kp, ip, c1) == Ok(a) else FromPartition(p, kp, ip, c1).Err?
  {
    hide ResolveFat;
  }

  lemma {:induction false} PartitionsUnderCap(ps: seq<Partition>, kp: Option<string>, ip: Option<string>, c0: Cap, c1: Cap)
    requires ExtractPartitions(ps, kp, ip, c0).Ok?
    ensures var a := ExtractPartitions(ps, kp, ip, c0).value;
      Fits(a, c0) && if Fits(a, c1) then ExtractPartitions(ps, kp, ip, c1) == Ok(a) else ExtractPartitions(ps, kp, ip, c1).Err?
  {
    hide Settles, FromPartition, Fits;
    if Settles(ps[0], kp) {
      PartitionUnderCap(ps[0], kp, ip, c0, c1);
    } else {
      PartitionsUnderCap(ps[1..], kp, ip, c0, c1);
    }
  }

  // Whatever the image, nothing larger than the cap comes out.
  lemma ExtractRespectsCap(img: Image, kp: Option<string>, ip: Option<string>, cap: Cap, rd: Reads)
    ensures var r := Extracted(img, kp, ip, cap, rd);
      r.Ok? ==> Fits(r.value, cap)
  {
    hide ExtractIso, ExtractPartitions, Fits;
    var iso := ExtractIso(img.iso, kp, ip, cap);
    if rd.iso && iso.Ok? {
      IsoUnderCap(img.iso, kp, ip, cap, cap);
    } else if Extracted(img, kp, ip, cap, rd).Ok? {
      PartitionsUnderCap(img.gpt.value, kp, ip, cap, cap);
    }
  }

  // The ISO attempt does not stand in the way of artefacts `a`.
  predicate IsoYields(img: Image, kp: Option<string>, ip: Option<string>, cap: Cap, a: Artefacts) {
    var iso := ExtractIso(img.iso, kp, ip, cap);
    iso.Err? || iso == Ok(a)
  }

  // What one cap extracts, whether from the ISO or only from the disk, another extracts if
  // and only if it fits and the ISO attempt under the other cap fails or yields it too.
  lemma UnderAnotherCap(img: Image, kp: Option<string>, ip: Option<string>, c0: Cap, iso0: bool, c1: Cap)
    requires Extracted(img, kp, ip, c0, Reads(iso0, true)).Ok?
    ensures var a := Extracted(img, kp, ip, c0, Reads(iso0, true)).value;
      Extract(img, kp, ip, c1) == Ok(a) <==> Fits(a, c1) && IsoYields(img, kp, ip, c1, a)
  {
    hide ExtractIso, ExtractPartitions, Fits;
    var a := Extracted(img, kp, ip, c0, Reads(iso0, true)).value;
    if iso0 && ExtractIso(img.iso, kp, ip, c0).Ok? {
      IsoUnderCap(img.iso, kp, ip, c0, c1);
    } else {
      PartitionsUnderCap(img.gpt.value, kp, ip, c0, c1);
    }
    ExtractRespectsCap(img, kp, ip, c1, CLEAN);
  }

  // So a lowered cap matters only through what no longer fits.
  lemma UnderLoweredCap(img: Image, kp: Option<string>, ip: Option<string>, c0: Cap, c1: Cap)
    requires Extract(img, kp, ip, c0).Ok? && NoLooser(c1, c0)
    ensures var a := Extract(img, kp, ip, c0).value;
      Extract(img, kp, ip, c1) == Ok(a) <==> Fits(a, c1)
  {
    UnderAnotherCap(img, kp, ip, c0, true, c1);
    hide ExtractIso, ExtractPartitions;
    if ExtractIso(img.iso, kp, ip, c1).Ok? {
      IsoUnderCap(img.iso, kp, ip, c1, c0);
    }
  }
}
