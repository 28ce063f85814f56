// The depth-bounded directory search shared by the ISO and FAT extractors, over any
// directory graph, cyclic ones included.
module Walker {
  import opened Prelude

  const MAX_DIR_DEPTH: nat := 64

  // One directory entry as the image library yields it; Unreadable is an entry whose
  // reading failed. Directories are named by identity, so a graph may contain cycles.
  datatype Entry =
    | FileEntry(name: string, content: bytes)
    | DirEntry(name: string, dir: nat)
    | OtherEntry(name: string)
    | Unreadable

  type Graph = map<nat, seq<Entry>>

  function Listing(g: Graph, d: nat): seq<Entry> {
    if d in g then g[d] else []
  }

  predicate IsDot(name: string) {
    name == "." || name == ".."
  }

  datatype Search = Hit(content: bytes) | Miss | Fault

  predicate DepthExceeded(depth: nat) {
    depth >= MAX_DIR_DEPTH
  }

  // Depth-first search: the first matching file, a fault if an unreadable entry comes
  // first, or nothing.
  function Walk(g: Graph, d: nat, filter: string -> bool, depth: nat): Search
    decreases Max(0, MAX_DIR_DEPTH - depth), 1, 0
  {
    if DepthExceeded(depth) then Miss
    else WalkEntries(g, Listing(g, d), filter, depth)
  }

  function WalkEntries(g: Graph, es: seq<Entry>, filter: string -> bool, depth: nat): Search
    requires depth < MAX_DIR_DEPTH
    decreases Max(0, MAX_DIR_DEPTH - depth), 0, |es|
  {
    if es == [] then Miss
    else match es[0]
      case FileEntry(name, content) =>
        if filter(name) then Hit(content) else WalkEntries(g, es[1..], filter, depth)
      case DirEntry(name, dir) =>
        if IsDot(name) then WalkEntries(g, es[1..], filter, depth)
        else
          var below := Walk(g, dir, filter, depth + 1);
          if below.Miss? then WalkEntries(g, es[1..], filter, depth) else below
      case OtherEntry(_) => WalkEntries(g, es[1..], filter, depth)
      case Unreadable => Fault
  }

  // -- Chains of directories -----------------------------------------------------------

  // A chain picks an entry index at each level; all but the last lead into a directory
  // other than "." and "..".
  function EntryAt(g: Graph, d: nat, chain: seq<nat>): Option<Entry>
    decreases |chain|
  {
    if chain == [] || chain[0] >= |Listing(g, d)| then None
    else
      var e := Listing(g, d)[chain[0]];
      if |chain| == 1 then Some(e)
      else if e.DirEntry? && e.name != "." && e.name != ".." then EntryAt(g, e.dir, chain[1..])
      else None
  }

  // What the search makes of the entry a chain leads to, on its own.
  function Verdict(g: Graph, d: nat, chain: seq<nat>, filter: string -> bool): Search {
    match EntryAt(g, d, chain)
    case None => Miss
    case Some(e) =>
      if e.Unreadable? then Fault
      else if e.FileEntry? && filter(e.name) then Hit(e.content)
      else Miss
  }

  // Pre-order: entries of a directory in listing order, each directory's contents in
  // its place.
  predicate Before(p: seq<nat>, q: seq<nat>) {
    p != [] && q != [] && (p[0] < q[0] || (p[0] == q[0] && Before(p[1..], q[1..])))
  }

  // The search result is that of chain p, and no chain within the bound and before p
  // has one.
  ghost predicate FirstVerdict(g: Graph, d: nat, filter: string -> bool, bound: nat, from: nat, p: seq<nat>, r: Search) {
    && 1 <= |p| <= bound && p[0] >= from
    && Verdict(g, d, p, filter) == r
    && forall q :: 1 <= |q| <= bound && q[0] >= from && Before(q, p) ==> Verdict(g, d, q, filter).Miss?
  }

  ghost predicate NoVerdict(g: Graph, d: nat, filter: string -> bool, bound: nat, from: nat) {
    forall q :: 1 <= |q| <= bound && q[0] >= from ==> Verdict(g, d, q, filter).Miss?
  }

  lemma VerdictBelow(g: Graph, d: nat, filter: string -> bool, q: seq<nat>)
    requires |q| >= 2 && q[0] < |Listing(g, d)|
    ensures var e := Listing(g, d)[q[0]];
      Verdict(g, d, q, filter)
        == if e.DirEntry? && !IsDot(e.name) then Verdict(g, e.dir, q[1..], filter) else Miss
  {
  }

  // The entry at `from` contributes nothing, so the search goes on behind it.
  lemma SkipEntry(g: Graph, d: nat, filter: string -> bool, bound: nat, from: nat)
    requires from < |Listing(g, d)|
    requires forall q :: 1 <= |q| <= bound && q[0] == from ==> Verdict(g, d, q, filter).Miss?
    ensures NoVerdict(g, d, filter, bound, from + 1) ==> NoVerdict(g, d, filter, bound, from)
    ensures forall p, r :: FirstVerdict(g, d, filter, bound, from + 1, p, r) ==> FirstVerdict(g, d, filter, bound, from, p, r)
  {
    hide Verdict;
  }

  // The directory at `from` decides: its first verdict is the search's.
  lemma EnterDirectory(g: Graph, d: nat, filter: string -> bool, bound: nat, from: nat, p: seq<nat>, r: Search)
    requires from < |Listing(g, d)|
    requires var e := Listing(g, d)[from];
      e.DirEntry? && !IsDot(e.name) && bound >= 1 && FirstVerdict(g, e.dir, filter, bound - 1, 0, p, r)
    ensures FirstVerdict(g, d, filter, bound, from, [from] + p, r)
  {
    var e := Listing(g, d)[from];
    var chain := [from] + p;
    assert chain[1..] == p;
    VerdictBelow(g, d, filter, chain);
    forall q | 1 <= |q| <= bound && q[0] >= from && Before(q, chain)
      ensures Verdict(g, d, q, filter).Miss?
    {
      if |q| >= 2 {
        VerdictBelow(g, d, filter, q);
      }
    }
  }

  lemma {:induction false} EntriesFirst(g: Graph, d: nat, filter: string -> bool, depth: nat, from: nat)
      returns (p: seq<nat>)
    requires depth < MAX_DIR_DEPTH && from <= |Listing(g, d)|
    ensures var r, bound := WalkEntries(g, Listing(g, d)[from..], filter, depth), MAX_DIR_DEPTH - depth;
      if r.Miss? then NoVerdict(g, d, filter, bound, from) else FirstVerdict(g, d, filter, bound, from, p, r)
    decreases MAX_DIR_DEPTH - depth, 0, |Listing(g, d)| - from
  {
    var es, bound := Listing(g, d), MAX_DIR_DEPTH - depth;
    p := [from];
    if from < |es| {
      assert es[from..][0] == es[from] && es[from..][1..] == es[from + 1..];
      var e := es[from];
      var alone := Verdict(g, d, [from], filter);
      var below: Search := Miss;
      if e.DirEntry? && !IsDot(e.name) {
        var sub := WalkFirst(g, e.dir, filter, depth + 1);
        below := Walk(g, e.dir, filter, depth + 1);
        if !below.Miss? {
          EnterDirectory(g, d, filter, bound, from, sub, below);
          p := [from] + sub;
          return;
        }
      }
      if alone.Miss? {
        forall q | 1 <= |q| <= bound && q[0] == from ensures Verdict(g, d, q, filter).Miss? {
          if |q| == 1 {
            assert q == [from];
          } else {
            VerdictBelow(g, d, filter, q);
          }
        }
        SkipEntry(g, d, filter, bound, from);
        p := EntriesFirst(g, d, filter, depth, from + 1);
      }
    }
  }

  lemma {:induction false} WalkFirst(g: Graph, d: nat, filter: string -> bool, depth: nat) returns (p: seq<nat>)
    requires depth <= MAX_DIR_DEPTH
    ensures var r, bound := Walk(g, d, filter, depth), MAX_DIR_DEPTH - depth;
      if r.Miss? then NoVerdict(g, d, filter, bound, 0) else FirstVerdict(g, d, filter, bound, 0, p, r)
    decreases MAX_DIR_DEPTH - depth, 1, 0
  {
    p := [];
    if depth < MAX_DIR_DEPTH {
      assert Listing(g, d)[0..] == Listing(g, d);
      p := EntriesFirst(g, d, filter, depth, 0);
    }
  }

  // From the root, on any graph: nothing is found if and only if no chain of at most 64
  // entries leads to a matching file or an unreadable entry; otherwise the result is
  // that of the first such chain in pre-order.
  lemma WalkFindsFirst(g: Graph, root: nat, filter: string -> bool)
    ensures Walk(g, root, filter, 0).Miss?
       <==> forall q :: |q| <= 64 ==> Verdict(g, root, q, filter).Miss?
    ensures !Walk(g, root, filter, 0).Miss? ==>
      exists p :: FirstVerdict(g, root, filter, 64, 0, p, Walk(g, root, filter, 0))
  {
    var p := WalkFirst(g, root, filter, 0);
    if Walk(g, root, filter, 0).Miss? {
      forall q | |q| <= MAX_DIR_DEPTH ensures Verdict(g, root, q, filter).Miss? {
        assert q == [] || q[0] >= 0;
      }
    } else {
      assert !Verdict(g, root, p, filter).Miss?;
    }
  }

  // A chain of n nested directories with a kernel at the bottom.
  function Level(i: nat, n: nat, content: bytes): seq<Entry> {
    if i == n then [FileEntry("vmlinuz", content)] else [DirEntry("d", i + 1)]
  }

  function Deep(n: nat, content: bytes): Graph {
    map i: nat | i <= n :: Level(i, n, content)
  }

  // The bound is exact: below 64 directories the kernel is found, below more it is not.
  lemma {:induction false} DeepWalk(n: nat, i: nat, content: bytes, filter: string -> bool)
    requires i <= n && i <= MAX_DIR_DEPTH && filter("vmlinuz")
    ensures Walk(Deep(n, content), i, filter, i) == if n < 64 then Hit(content) else Miss
    decreases MAX_DIR_DEPTH - i
  {
    var g := Deep(n, content);
    if i < MAX_DIR_DEPTH {
      var es := Listing(g, i);
      assert es == Level(i, n, content);
      assert es[1..] == [];
      if i < n {
        DeepWalk(n, i + 1, content, filter);
        assert !IsDot("d") by { assert "d"[0] != '.'; }
        assert WalkEntries(g, es[1..], filter, i) == Miss;
      }
    }
  }
}
