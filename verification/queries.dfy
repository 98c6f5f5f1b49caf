/** The read-only commands of projeto2.c: `verd` (list a directory),
    `verset` (the blocks of a file), `mapa` (the block map) and `arvore`
    (the directory tree). Each is a function of the state, so none of them
    can change it. */
module Queries {
  import opened Wrappers
  import opened Allocator
  import opened Tree
  import opened Path
  import opened Commands
  import opened Consistency

  // ---------------------------------------------------------------------
  // verd

  /** One line of a `verd` listing. */
  datatype Entry =
    | DirEntry(date: string, name: string)
    | FileEntry(date: string, size: int, name: string)

  /** What `verd` reports: nothing, or the entries with the totals printed
      under them. `freeBytes` is the free counter times 512. */
  datatype Listing =
    | NoEntries
    | Entries(entries: seq<Entry>, files: nat, bytes: int, dirs: nat, freeBytes: int)

  function EntryOf(n: Node): Entry {
    match n
    case Dir(name, date, _, _) => DirEntry(date, name)
    case File(name, date, size, _) => FileEntry(date, size, name)
  }

  /** Reference counts, built from the last entry backwards. */
  function FileCount(kids: seq<Node>): nat {
    if |kids| == 0 then 0
    else FileCount(kids[..|kids| - 1]) + (if kids[|kids| - 1].File? then 1 else 0)
  }

  function DirCount(kids: seq<Node>): nat {
    if |kids| == 0 then 0
    else DirCount(kids[..|kids| - 1]) + (if kids[|kids| - 1].Dir? then 1 else 0)
  }

  function SizeSum(kids: seq<Node>): int {
    if |kids| == 0 then 0
    else SizeSum(kids[..|kids| - 1]) + (if kids[|kids| - 1].File? then kids[|kids| - 1].size else 0)
  }

  /** `verd`: every segment of the path must name a directory, the last one
      included; zero segments list the root. An empty directory gives
      `NoEntries`; otherwise the children are listed newest first. */
  function ListDir(s: State, segs: seq<string>): (r: Result<Listing, Error>)
    ensures r.Err? <==> Walk(s.root, segs).Err?
    ensures r.Err? ==> r.error == DirNotFound(Walk(s.root, segs).error)
  {
    match Walk(s.root, segs)
    case Err(seg) => Err(DirNotFound(seg))
    case Ok(route) =>
      var kids := ChildrenAt(s.root, route);
      if |kids| == 0 then Ok(NoEntries)
      else
        Ok(Entries(seq(|kids|, k requires 0 <= k < |kids| => EntryOf(kids[k])),
                   FileCount(kids), SizeSum(kids), DirCount(kids), s.disk.count * BlockSize))
  }

  /** The listing loop of `verd`: one pass over the siblings, counting
      files and directories and adding up file sizes. */
  method Summarize(kids: seq<Node>) returns (files: nat, bytes: int, dirs: nat)
    ensures files == FileCount(kids) && bytes == SizeSum(kids) && dirs == DirCount(kids)
    ensures files + dirs == |kids|
  {
    files, bytes, dirs := 0, 0, 0;
    var k := 0;
    while k < |kids|
      invariant 0 <= k <= |kids|
      invariant files == FileCount(kids[..k]) && bytes == SizeSum(kids[..k]) && dirs == DirCount(kids[..k])
      invariant files + dirs == k
    {
      assert kids[..k + 1][..k] == kids[..k];
      if kids[k].Dir? {
        dirs := dirs + 1;
      } else {
        files := files + 1;
        bytes := bytes + kids[k].size;
      }
      k := k + 1;
    }
    assert kids[..k] == kids;
  }

  /** A directory's listing: entry `k` shows child `k`, with its kind, name,
      date and (for a file) size; the totals are the file count, the sum of
      the file sizes and the directory count that `Summarize` computes, and
      the file and directory totals add up to the number of entries. */
  lemma ListDirEntries(s: State, segs: seq<string>, route: seq<nat>)
    requires Walk(s.root, segs) == Ok(route)
    ensures ListDir(s, segs) == Ok(NoEntries) <==> |ChildrenAt(s.root, route)| == 0
    ensures ListDir(s, segs).value.Entries? ==>
      var kids := ChildrenAt(s.root, route);
      var l := ListDir(s, segs).value;
      && |l.entries| == |kids|
      && (forall k :: 0 <= k < |kids| ==>
            && l.entries[k].name == kids[k].name
            && l.entries[k].date == kids[k].date
            && (l.entries[k].DirEntry? <==> kids[k].Dir?)
            && (l.entries[k].FileEntry? ==> l.entries[k].size == kids[k].size))
      && l.files == FileCount(kids) && l.bytes == SizeSum(kids) && l.dirs == DirCount(kids)
      && l.files + l.dirs == |l.entries|
      && l.freeBytes == s.disk.count * BlockSize
  {
    CountsAddUp(ChildrenAt(s.root, route));
  }

  lemma {:induction false} CountsAddUp(kids: seq<Node>)
    ensures FileCount(kids) + DirCount(kids) == |kids|
  {
    if |kids| > 0 {
      CountsAddUp(kids[..|kids| - 1]);
    }
  }

  /** The free bytes `verd` reports and the blocks the tree uses account
      for the whole usable disk. */
  lemma ListDirFreeBytes(s: State, segs: seq<string>)
    requires Consistent(s)
    requires ListDir(s, segs).Ok? && ListDir(s, segs).value.Entries?
    ensures ListDir(s, segs).value.freeBytes == (Usable - Usage(s.root)) * BlockSize
  {
    Consistency.Conservation(s);
  }

  // ---------------------------------------------------------------------
  // verset

  /** `verset`: walks to the parent and yields the chain of the first file
      of that name there, in chain order. */
  function FileBlocks(s: State, segs: seq<string>): (r: Result<seq<int>, Error>)
    requires |segs| > 0
    ensures r.Ok? ==> Walk(s.root, Parent(segs)).Ok?
    ensures r.Err? ==> r.error.DirNotFound? || r.error == FileNotFound(Last(segs))
  {
    match Walk(s.root, Parent(segs))
    case Err(seg) => Err(DirNotFound(seg))
    case Ok(route) =>
      var kids := ChildrenAt(s.root, route);
      match Find(kids, Last(segs), FileKind)
      case None => Err(FileNotFound(Last(segs)))
      case Some(i) => Ok(kids[i].chain)
  }

  /** `verset` right after `criaa` shows exactly the blocks `criaa`
      allocated, in allocation order. */
  lemma FileBlocksAfterCreate(s: State, segs: seq<string>, size: int, date: string, s': State)
    requires |segs| > 0
    requires IntMin <= size <= IntMax - (BlockSize - 1)
    requires CreateFile(s, segs, size, date) == Ok(s')
    ensures FileBlocks(s', segs) == Ok(AllocMany(s.disk, Allocated(size)).blocks)
  {
    var route := Walk(s.root, Parent(segs)).value;
    var nk := [File(Last(segs), date, size, AllocMany(s.disk, Allocated(size)).blocks)] + ChildrenAt(s.root, route);
    CreateFileShape(s, segs, size, date, s', route);
    CreateFileTree(s, segs, size, date, s', route);
    WalkAfterReplace(s.root, Parent(segs), nk);
  }

  /** On a consistent state every block `verset` shows is outside the boot
      area and occupied, unless the chain is the lone -1 of a failed head
      allocation. */
  lemma FileBlocksOccupied(s: State, segs: seq<string>)
    requires Consistent(s)
    requires |segs| > 0
    requires FileBlocks(s, segs).Ok?
    ensures var c := FileBlocks(s, segs).value;
      Unallocated(c) ||
      forall k :: 0 <= k < |c| ==> Reserved <= c[k] < BlockCount && !s.disk.free[c[k]]
  {
    var route := Walk(s.root, Parent(segs)).value;
    var kids := ChildrenAt(s.root, route);
    var i := Find(kids, Last(segs), FileKind).value;
    var c := kids[i].chain;
    WellFormedAt(s.root, route);
    assert NodeOk(kids[i]);
    if !Unallocated(c) {
      HeldAtMost(s.root, route);
      HeldAllRemove(kids, i);
      forall k | 0 <= k < |c|
        ensures Reserved <= c[k] < BlockCount && !s.disk.free[c[k]]
      {
        var b := c[k];
        InDiskMember(c, b);
        assert Held(kids[i])[b] >= 1;
        assert (HeldAll(kids[..i] + kids[i + 1..]) + Held(kids[i]))[b] == HeldAll(kids)[b];
        assert InUse(s.disk, b) >= 1;
      }
    }
  }

  // ---------------------------------------------------------------------
  // mapa

  /** `mapa`: one symbol per block, 'B' for the boot area, '0' for a free
      block and '#' for an occupied one. */
  function DiskMap(d: Disk): (m: seq<char>)
    ensures |m| == BlockCount
  {
    seq(BlockCount, i requires 0 <= i < BlockCount =>
      if i < Reserved then 'B' else if d.free[i] then '0' else '#')
  }

  /** A '0' marks exactly a block on the free list, a '#' exactly a block
      in use, and on a valid disk there are as many '0's as the free
      counter says. */
  lemma DiskMapCells(d: Disk)
    ensures forall i :: 0 <= i < BlockCount ==>
      && (DiskMap(d)[i] == '0' <==> i in FreeFrom(d.free, Reserved))
      && (DiskMap(d)[i] == '#' <==> InUse(d, i) == 1)
      && (DiskMap(d)[i] == 'B' <==> i < Reserved)
  {
    forall i | 0 <= i < BlockCount
      ensures DiskMap(d)[i] == '0' <==> i in FreeFrom(d.free, Reserved)
    {
      FreeFromMember(d.free, Reserved, i);
    }
  }

  lemma DiskMapFreeCount(d: Disk)
    requires Allocator.Valid(d)
    ensures multiset(DiskMap(d))['0'] == d.count
  {
    var m := DiskMap(d);
    FreeSymbols(d, Reserved);
    assert multiset(m[..Reserved])['0'] == 0 by {
      assert forall i :: 0 <= i < Reserved ==> m[..Reserved][i] == 'B';
    }
    assert m == m[..Reserved] + m[Reserved..];
  }

  /** From `lo` on (outside the boot area) the '0's of the map are counted
      by the free list. */
  lemma {:induction false} FreeSymbols(d: Disk, lo: nat)
    requires Reserved <= lo <= BlockCount
    ensures multiset(DiskMap(d)[lo..])['0'] == |FreeFrom(d.free, lo)|
    decreases BlockCount - lo
  {
    var m := DiskMap(d);
    if lo < BlockCount {
      FreeSymbols(d, lo + 1);
      assert m[lo..] == [m[lo]] + m[lo + 1..];
    } else {
      assert m[lo..] == [];
    }
  }

  // ---------------------------------------------------------------------
  // arvore

  /** One line of the tree view: a directory name at an indentation level. */
  datatype TreeLine = TreeLine(level: nat, name: string)

  /** The walk of `arvore` from the entry `kids[0]` at `level`: print the
      entry if it is a directory, then go to its first child if it has one
      (one level deeper), otherwise to its next sibling; stop when neither
      exists. It never climbs back to a parent's later siblings. */
  function Tour(kids: seq<Node>, level: nat): seq<TreeLine>
    decreases kids
  {
    if |kids| == 0 then []
    else
      var n := kids[0];
      var here := if n.Dir? then [TreeLine(level, n.name)] else [];
      if n.Dir? && |n.children| > 0 then here + Tour(n.children, level + 1)
      else here + Tour(kids[1..], level)
  }

  /** `arvore` on the whole tree. */
  function ShowTree(s: State): seq<TreeLine> {
    Tour(s.root, 0)
  }

  /** Every directory of the tree, each before its children and its
      children before its later siblings: the full pre-order listing. */
  function PreOrder(kids: seq<Node>, level: nat): seq<TreeLine>
    decreases kids
  {
    if |kids| == 0 then []
    else
      var n := kids[0];
      (if n.Dir? then [TreeLine(level, n.name)] + PreOrder(n.children, level + 1) else [])
        + PreOrder(kids[1..], level)
  }

  /** What `arvore` prints is a prefix of the full pre-order listing of
      directories: it follows it faithfully until the first point where
      the pre-order would climb back up, and stops there. */
  lemma {:induction false} TourIsPrefix(kids: seq<Node>, level: nat)
    ensures |Tour(kids, level)| <= |PreOrder(kids, level)|
    ensures Tour(kids, level) == PreOrder(kids, level)[..|Tour(kids, level)|]
    decreases kids
  {
    if |kids| > 0 {
      var n := kids[0];
      var t := Tour(kids, level);
      var p := PreOrder(kids, level);
      if n.Dir? && |n.children| > 0 {
        TourIsPrefix(n.children, level + 1);
        var tc := Tour(n.children, level + 1);
        var pc := PreOrder(n.children, level + 1);
        assert t == [TreeLine(level, n.name)] + tc;
        assert p == [TreeLine(level, n.name)] + pc + PreOrder(kids[1..], level);
        assert p[..|t|] == [TreeLine(level, n.name)] + pc[..|tc|];
      } else {
        TourIsPrefix(kids[1..], level);
        var tr := Tour(kids[1..], level);
        var pr := PreOrder(kids[1..], level);
        if n.Dir? {
          assert PreOrder(n.children, level + 1) == [];
          assert t == [TreeLine(level, n.name)] + tr;
          assert p == [TreeLine(level, n.name)] + pr;
          assert p[..|t|] == [TreeLine(level, n.name)] + pr[..|tr|];
        }
      }
    }
  }

  /** Levels that start at `level` and never decrease, rising by one at a
      time. */
  predicate Indented(t: seq<TreeLine>, level: nat) {
    && (|t| > 0 ==> t[0].level == level)
    && (forall k :: 0 <= k < |t| ==> t[k].level >= level)
    && (forall k :: 0 <= k && k + 1 < |t| ==> t[k].level <= t[k + 1].level <= t[k].level + 1)
  }

  /** A line in front of lines indented from its own level or the next. */
  lemma IndentedCons(name: string, t: seq<TreeLine>, level: nat, next: nat)
    requires next == level || next == level + 1
    requires Indented(t, next)
    ensures Indented([TreeLine(level, name)] + t, level)
  {
    var l := [TreeLine(level, name)] + t;
    assert forall k :: 1 <= k < |l| ==> l[k] == t[k - 1];
  }

  /** The indentation of `arvore` starts at the given level and never
      decreases, rising by one at a time. */
  lemma {:induction false} TourLevels(kids: seq<Node>, level: nat)
    ensures Indented(Tour(kids, level), level)
    decreases kids
  {
    if |kids| > 0 {
      var n := kids[0];
      if n.Dir? && |n.children| > 0 {
        TourLevels(n.children, level + 1);
        IndentedCons(n.name, Tour(n.children, level + 1), level, level + 1);
      } else {
        TourLevels(kids[1..], level);
        if n.Dir? {
          IndentedCons(n.name, Tour(kids[1..], level), level, level);
        }
      }
    }
  }

  /** The walk stops short: with a directory `a` holding `b`, and a later
      sibling `c`, `arvore` prints `a` and `b` but never `c`. */
  lemma TourSkipsSibling()
    ensures
      var b := Dir("b", "", 11, []);
      var kids := [Dir("a", "", 10, [b]), Dir("c", "", 12, [])];
      && Tour(kids, 0) == [TreeLine(0, "a"), TreeLine(1, "b")]
      && PreOrder(kids, 0) == [TreeLine(0, "a"), TreeLine(1, "b"), TreeLine(0, "c")]
  {
    var b := Dir("b", "", 11, []);
    var kids := [Dir("a", "", 10, [b]), Dir("c", "", 12, [])];
    var c := Dir("c", "", 12, []);
    assert kids[1..] == [c];
    assert [b][1..] == [] && [c][1..] == [];
    assert Tour([b], 1) == [TreeLine(1, "b")] + Tour([], 1);
    assert Tour(kids, 0) == [TreeLine(0, "a")] + Tour([b], 1);
    assert PreOrder([b], 1) == [TreeLine(1, "b")] + PreOrder([], 2) + PreOrder([], 1);
    assert PreOrder([c], 0) == [TreeLine(0, "c")] + PreOrder([], 1) + PreOrder([], 0);
    assert PreOrder(kids, 0) == [TreeLine(0, "a")] + PreOrder([b], 1) + PreOrder([c], 0);
  }
}
