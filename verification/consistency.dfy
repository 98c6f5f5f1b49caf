/** What the commands of projeto2.c keep and what they change: the
    consistency of allocator and tree, block conservation, the exact
    effect of each successful command, and the round trips between
    creation and removal. */
module Consistency {
  import opened Wrappers
  import opened Allocator
  import opened Tree
  import opened Path
  import opened Commands

  // ---------------------------------------------------------------------
  // Block conservation

  /** The blocks a subtree uses: one per directory, the chain length per
      file, nothing for a file whose head allocation failed. */
  function Usage(kids: seq<Node>): nat
    decreases kids
  {
    if |kids| == 0 then 0
    else
      var here := match kids[0]
        case Dir(_, _, _, children) => 1 + Usage(children)
        case File(_, _, _, chain) => if Unallocated(chain) then 0 else |chain|;
      here + Usage(kids[1..])
  }

  /** In a well-formed tree the blocks held are exactly the usage count. */
  lemma {:induction false} HeldIsUsage(kids: seq<Node>)
    requires WellFormed(kids)
    ensures |HeldAll(kids)| == Usage(kids)
    decreases kids
  {
    if |kids| > 0 {
      var n := kids[0];
      assert NodeOk(n);
      assert WellFormed(kids[1..]) by {
        var t := kids[1..];
        assert forall j :: 0 <= j < |t| ==> t[j] == kids[j + 1];
      }
      HeldIsUsage(kids[1..]);
      match n
      case Dir(_, _, _, children) =>
        HeldIsUsage(children);
      case File(_, _, _, chain) =>
        if !Unallocated(chain) {
          InDiskAll(chain);
        }
    }
  }

  /** Block conservation: in every valid state the free counter plus the
      blocks the tree uses is 246, the number of blocks outside the boot
      area. */
  lemma Conservation(s: State)
    requires Consistent(s)
    ensures s.disk.count + Usage(s.root) == Usable
  {
    forall b
      ensures HeldAll(s.root)[b] == UsedFrom(s.disk.free, Reserved)[b]
    {
      UsedFromCount(s.disk.free, Reserved, b);
    }
    assert HeldAll(s.root) == UsedFrom(s.disk.free, Reserved);
    Allocator.Conservation(s.disk);
    HeldIsUsage(s.root);
  }

  // ---------------------------------------------------------------------
  // Replacing children in a valid state

  /** The children of any directory hold a part of the tree's blocks. */
  lemma HeldAtMost(kids: seq<Node>, route: seq<nat>)
    requires ValidRoute(kids, route)
    ensures forall b :: HeldAll(ChildrenAt(kids, route))[b] <= HeldAll(kids)[b]
  {
    HeldReplace(kids, route, []);
    var r := Replace(kids, route, []);
    forall b
      ensures HeldAll(ChildrenAt(kids, route))[b] <= HeldAll(kids)[b]
    {
      assert (HeldAll(r) + HeldAll(ChildrenAt(kids, route)))[b] == (HeldAll(kids) + HeldAll([]))[b];
    }
  }

  /** New children and a new disk keep the state valid when the blocks the
      children gain or lose are exactly the blocks the disk occupies or
      frees. */
  lemma ValidAfterReplace(s: State, route: seq<nat>, nk: seq<Node>, d: Disk)
    requires Consistent(s)
    requires ValidRoute(s.root, route)
    requires Allocator.Valid(d)
    requires WellFormed(nk)
    requires forall b :: HeldAll(nk)[b] + InUse(s.disk, b) == HeldAll(ChildrenAt(s.root, route))[b] + InUse(d, b)
    ensures Consistent(State(d, Replace(s.root, route, nk)))
  {
    WellFormedReplace(s.root, route, nk);
    HeldReplace(s.root, route, nk);
    var r := Replace(s.root, route, nk);
    var ca := ChildrenAt(s.root, route);
    forall b
      ensures HeldAll(r)[b] == InUse(d, b)
    {
      assert (HeldAll(r) + HeldAll(ca))[b] == (HeldAll(s.root) + HeldAll(nk))[b];
    }
  }

  lemma HeldAllCons(x: Node, kids: seq<Node>)
    ensures HeldAll([x] + kids) == Held(x) + HeldAll(kids)
  {
    assert ([x] + kids)[0] == x;
    assert ([x] + kids)[1..] == kids;
  }

  // ---------------------------------------------------------------------
  // criad

  /** Where `criad` fails: the parent walk names the first missing
      directory, a directory of that name may already be there, and on a
      consistent state it runs out of blocks exactly when the free counter
      is 0. It succeeds exactly when none of these holds. */
  lemma CreateDirOutcome(s: State, segs: seq<string>, date: string)
    requires Consistent(s)
    requires |segs| > 0
    ensures Walk(s.root, Parent(segs)).Err? ==>
      CreateDir(s, segs, date) == Err(DirNotFound(Walk(s.root, Parent(segs)).error))
    ensures Walk(s.root, Parent(segs)).Ok? ==>
      var kids := ChildrenAt(s.root, Walk(s.root, Parent(segs)).value);
      && (CreateDir(s, segs, date) == Err(DirExists(Last(segs))) <==> Find(kids, Last(segs), DirKind).Some?)
      && (CreateDir(s, segs, date) == Err(NoFreeBlock) <==> Find(kids, Last(segs), DirKind).None? && s.disk.count == 0)
    ensures CreateDir(s, segs, date).Ok? <==>
      && Walk(s.root, Parent(segs)).Ok?
      && Find(ChildrenAt(s.root, Walk(s.root, Parent(segs)).value), Last(segs), DirKind).None?
      && s.disk.count > 0
  {
    AllocSpec(s.disk);
  }

  /** A successful `criad` keeps the state consistent. */
  lemma CreateDirConsistent(s: State, segs: seq<string>, date: string)
    requires Consistent(s)
    requires |segs| > 0
    requires CreateDir(s, segs, date).Ok?
    ensures Consistent(CreateDir(s, segs, date).value)
  {
    var route := Walk(s.root, Parent(segs)).value;
    var kids := ChildrenAt(s.root, route);
    var a := Alloc(s.disk);
    var dir := Dir(Last(segs), date, a.block, []);
    var nk := [dir] + kids;
    assert CreateDir(s, segs, date).value == State(a.disk, Replace(s.root, route, nk));
    assert Allocator.Valid(a.disk) by {
      AllocSpec(s.disk);
    }
    assert WellFormed(nk) by {
      WellFormedAt(s.root, route);
      WellFormedCons(dir, kids);
    }
    assert HeldAll(nk) == multiset{a.block} + HeldAll(kids) by {
      HeldAllCons(dir, kids);
      assert Held(dir) == multiset{a.block} + HeldAll([]);
    }
    forall b
      ensures HeldAll(nk)[b] + InUse(s.disk, b) == HeldAll(kids)[b] + InUse(a.disk, b)
    {
    }
    ValidAfterReplace(s, route, nk, a.disk);
  }

  /** A successful `criad` takes the lowest free block and changes no other
      block. */
  lemma CreateDirBlock(s: State, segs: seq<string>, date: string)
    requires Consistent(s)
    requires |segs| > 0
    requires CreateDir(s, segs, date).Ok?
    ensures FreeFrom(s.disk.free, Reserved) != []
    ensures
      var block := FreeFrom(s.disk.free, Reserved)[0];
      var s' := CreateDir(s, segs, date).value;
      && !s'.disk.free[block]
      && (forall b :: 0 <= b < BlockCount && b != block ==> s'.disk.free[b] == s.disk.free[b])
      && s'.disk.count == s.disk.count - 1
  {
    AllocSpec(s.disk);
  }

  /** Prepending a directory to the children of a resolved parent makes the
      new directory reachable by the parent's path plus its name, at index 0. */
  lemma PrependDirReachable(root: seq<Node>, segs: seq<string>, route: seq<nat>, nd: Node)
    requires |segs| > 0
    requires Walk(root, Parent(segs)) == Ok(route)
    requires nd.Dir? && nd.name == Last(segs)
    ensures ValidRoute(Replace(root, route, [nd] + ChildrenAt(root, route)), route)
    ensures ChildrenAt(Replace(root, route, [nd] + ChildrenAt(root, route)), route) ==
      [nd] + ChildrenAt(root, route)
    ensures Walk(Replace(root, route, [nd] + ChildrenAt(root, route)), segs) == Ok(route + [0])
  {
    var nk := [nd] + ChildrenAt(root, route);
    ReplaceThenRead(root, route, nk);
    assert Find(nk, nd.name, DirKind) == Some(0);
    WalkIntoReplaced(root, Parent(segs), nk, nd.name, 0);
  }

  /** `criad` puts the new directory first among its parent's entries. */
  lemma CreateDirTree(s: State, segs: seq<string>, date: string, s': State, route: seq<nat>)
    requires |segs| > 0
    requires Walk(s.root, Parent(segs)) == Ok(route)
    requires CreateDir(s, segs, date) == Ok(s')
    ensures ValidRoute(s'.root, route)
    ensures ChildrenAt(s'.root, route) == [Dir(Last(segs), date, Alloc(s.disk).block, [])] + ChildrenAt(s.root, route)
  {
    CreateDirShape(s, segs, date, s', route);
    PrependDirReachable(s.root, segs, route, Dir(Last(segs), date, Alloc(s.disk).block, []));
  }

  /** The tree `criad` leaves behind, given the parent's route. */
  lemma CreateDirShape(s: State, segs: seq<string>, date: string, s': State, route: seq<nat>)
    requires |segs| > 0
    requires Walk(s.root, Parent(segs)) == Ok(route)
    requires CreateDir(s, segs, date) == Ok(s')
    ensures s'.root == Replace(s.root, route, [Dir(Last(segs), date, Alloc(s.disk).block, [])] + ChildrenAt(s.root, route))
  {
  }

  /** After `criad` the full path resolves, to the new directory. */
  lemma CreateDirReachable(s: State, segs: seq<string>, date: string, s': State, route: seq<nat>)
    requires |segs| > 0
    requires Walk(s.root, Parent(segs)) == Ok(route)
    requires CreateDir(s, segs, date) == Ok(s')
    ensures Walk(s'.root, segs) == Ok(route + [0])
  {
    CreateDirShape(s, segs, date, s', route);
    PrependDirReachable(s.root, segs, route, Dir(Last(segs), date, Alloc(s.disk).block, []));
  }

  // ---------------------------------------------------------------------
  // removed

  /** Where `removed` fails: the first missing directory of the parent
      path, no directory of that name in the parent, or a target that still
      has entries; it succeeds exactly when none of these holds. */
  lemma RemoveDirOutcome(s: State, segs: seq<string>)
    requires |segs| > 0
    ensures Walk(s.root, Parent(segs)).Err? ==>
      RemoveDir(s, segs) == Err(DirNotFound(Walk(s.root, Parent(segs)).error))
    ensures Walk(s.root, Parent(segs)).Ok? ==>
      var kids := ChildrenAt(s.root, Walk(s.root, Parent(segs)).value);
      && (RemoveDir(s, segs) == Err(DirNotFound(Last(segs))) <==> Find(kids, Last(segs), DirKind).None?)
      && (RemoveDir(s, segs) == Err(DirNotEmpty(Last(segs))) <==>
            Find(kids, Last(segs), DirKind).Some? && kids[Find(kids, Last(segs), DirKind).value].children != [])
    ensures RemoveDir(s, segs).Ok? <==>
      && Walk(s.root, Parent(segs)).Ok?
      && var kids := ChildrenAt(s.root, Walk(s.root, Parent(segs)).value);
      && Find(kids, Last(segs), DirKind).Some?
      && kids[Find(kids, Last(segs), DirKind).value].children == []
  {
  }

  /** A successful `removed` keeps the state consistent, frees exactly the
      directory's block (the counter rises by one) and unlinks exactly that
      entry, the other siblings keeping their order. */
  lemma RemoveDirEffect(s: State, segs: seq<string>)
    requires Consistent(s)
    requires |segs| > 0
    requires RemoveDir(s, segs).Ok?
    ensures Consistent(RemoveDir(s, segs).value)
    ensures ValidRoute(RemoveDir(s, segs).value.root, Walk(s.root, Parent(segs)).value)
    ensures
      var route := Walk(s.root, Parent(segs)).value;
      var kids := ChildrenAt(s.root, route);
      var i := Find(kids, Last(segs), DirKind).value;
      var s' := RemoveDir(s, segs).value;
      && s'.disk.count == s.disk.count + 1
      && s'.disk.free[kids[i].pos]
      && (forall b :: 0 <= b < BlockCount && b != kids[i].pos ==> s'.disk.free[b] == s.disk.free[b])
      && ChildrenAt(s'.root, route) == kids[..i] + kids[i + 1..]
  {
    var route := Walk(s.root, Parent(segs)).value;
    var kids := ChildrenAt(s.root, route);
    var i := Find(kids, Last(segs), DirKind).value;
    var pos := kids[i].pos;
    var nk := kids[..i] + kids[i + 1..];
    HeldAtMost(s.root, route);
    HeldAllRemove(kids, i);
    assert Held(kids[i]) == multiset{pos} + HeldAll([]);
    assert HeldAll(s.root)[pos] >= 1;
    assert InUse(s.disk, pos) == 1;
    ReleaseSpec(s.disk, pos);
    var d := Release(s.disk, pos);
    WellFormedAt(s.root, route);
    WellFormedRemove(kids, i);
    forall b
      ensures HeldAll(nk)[b] + InUse(s.disk, b) == HeldAll(kids)[b] + InUse(d, b)
    {
      assert (HeldAll(nk) + Held(kids[i]))[b] == HeldAll(kids)[b];
    }
    ValidAfterReplace(s, route, nk, d);
    ReplaceThenRead(s.root, route, nk);
  }

  /** `removed` undoes `criad`: creating a directory and removing it again
      gives back exactly the state before. */
  lemma CreateThenRemoveDir(s: State, segs: seq<string>, date: string)
    requires Consistent(s)
    requires |segs| > 0
    requires CreateDir(s, segs, date).Ok?
    ensures RemoveDir(CreateDir(s, segs, date).value, segs) == Ok(s)
  {
    var route := Walk(s.root, Parent(segs)).value;
    var kids := ChildrenAt(s.root, route);
    var a := Alloc(s.disk);
    var dir := Dir(Last(segs), date, a.block, []);
    var nk := [dir] + kids;
    var s' := CreateDir(s, segs, date).value;
    WalkAfterReplace(s.root, Parent(segs), nk);
    ReplaceThenRead(s.root, route, nk);
    assert Find(nk, Last(segs), DirKind) == Some(0);
    assert nk[..0] + nk[1..] == kids;
    AllocThenRelease(s.disk);
    ReplaceTwice(s.root, route, nk, kids);
    ReplaceSame(s.root, route);
  }

  // ---------------------------------------------------------------------
  // criaa

  /** Where `criaa` fails: the first missing directory of the parent path,
      a file of the same name already there, or more blocks needed than
      the free counter shows; it succeeds exactly when none of these holds,
      and never fails on a single allocation. */
  lemma CreateFileOutcome(s: State, segs: seq<string>, size: int, date: string)
    requires |segs| > 0
    requires IntMin <= size <= IntMax - (BlockSize - 1)
    ensures Walk(s.root, Parent(segs)).Err? ==>
      CreateFile(s, segs, size, date) == Err(DirNotFound(Walk(s.root, Parent(segs)).error))
    ensures Walk(s.root, Parent(segs)).Ok? ==>
      var kids := ChildrenAt(s.root, Walk(s.root, Parent(segs)).value);
      && (CreateFile(s, segs, size, date) == Err(FileExists(Last(segs))) <==> Find(kids, Last(segs), FileKind).Some?)
      && (CreateFile(s, segs, size, date) == Err(NoSpace) <==>
            Find(kids, Last(segs), FileKind).None? && BlocksFor(size) > s.disk.count)
    ensures CreateFile(s, segs, size, date).Ok? || CreateFile(s, segs, size, date).error != NoFreeBlock
    ensures CreateFile(s, segs, size, date).Ok? <==>
      && Walk(s.root, Parent(segs)).Ok?
      && Find(ChildrenAt(s.root, Walk(s.root, Parent(segs)).value), Last(segs), FileKind).None?
      && BlocksFor(size) <= s.disk.count
  {
  }

  /** What `criaa` builds, given the parent's route: the disk after
      `Allocated(size)` allocations in a row and a file holding their
      numbers, in front of the parent's entries. */
  lemma CreateFileShape(s: State, segs: seq<string>, size: int, date: string, s': State, route: seq<nat>)
    requires |segs| > 0
    requires IntMin <= size <= IntMax - (BlockSize - 1)
    requires Walk(s.root, Parent(segs)) == Ok(route)
    requires CreateFile(s, segs, size, date) == Ok(s')
    ensures s'.disk == AllocMany(s.disk, Allocated(size)).disk
    ensures s'.root == Replace(s.root, route,
      [File(Last(segs), date, size, AllocMany(s.disk, Allocated(size)).blocks)] + ChildrenAt(s.root, route))
  {
    var head := Alloc(s.disk);
    if BlocksFor(size) < 1 {
      assert AllocMany(head.disk, BlocksFor(size) - 1) == AllocMany(head.disk, 0);
    }
  }

  /** After `criaa` the new file is the parent's first entry, ahead of the
      old entries in their old order, and the first file of its name there. */
  lemma CreateFileTree(s: State, segs: seq<string>, size: int, date: string, s': State, route: seq<nat>)
    requires |segs| > 0
    requires IntMin <= size <= IntMax - (BlockSize - 1)
    requires Walk(s.root, Parent(segs)) == Ok(route)
    requires CreateFile(s, segs, size, date) == Ok(s')
    ensures ValidRoute(s'.root, route)
    ensures ChildrenAt(s'.root, route) ==
      [File(Last(segs), date, size, AllocMany(s.disk, Allocated(size)).blocks)] + ChildrenAt(s.root, route)
    ensures Find(ChildrenAt(s'.root, route), Last(segs), FileKind) == Some(0)
  {
    CreateFileShape(s, segs, size, date, s', route);
    var nk := [File(Last(segs), date, size, AllocMany(s.disk, Allocated(size)).blocks)] + ChildrenAt(s.root, route);
    ReplaceThenRead(s.root, route, nk);
    assert Is(nk[0], Last(segs), FileKind);
  }

  /** The blocks of the file `criaa` creates. On a full disk (possible only
      for a size that needs no block) the head allocation returns -1, the
      chain is that lone -1 and the disk is unchanged. Otherwise the chain
      is the `Allocated(size)` lowest free blocks in ascending order, now
      occupied, and the counter drops by as many. */
  lemma CreateFileBlocks(s: State, segs: seq<string>, size: int, date: string, s': State)
    requires Consistent(s)
    requires |segs| > 0
    requires IntMin <= size <= IntMax - (BlockSize - 1)
    requires CreateFile(s, segs, size, date) == Ok(s')
    ensures s.disk.count == 0 ==> BlocksFor(size) <= 0
    ensures s.disk.count == 0 ==>
      s'.disk == s.disk && AllocMany(s.disk, Allocated(size)).blocks == [-1]
    ensures s.disk.count > 0 ==>
      && Allocated(size) <= s.disk.count
      && AllocMany(s.disk, Allocated(size)).blocks == FreeFrom(s.disk.free, Reserved)[..Allocated(size)]
      && s'.disk.count == s.disk.count - Allocated(size)
      && Allocator.Valid(s'.disk)
  {
    CreateFileShape(s, segs, size, date, s', Walk(s.root, Parent(segs)).value);
    var n := Allocated(size);
    if s.disk.count == 0 {
      AllocSpec(s.disk);
      assert AllocMany(s.disk, 1) == Chain(Alloc(s.disk).disk, [Alloc(s.disk).block] + AllocMany(Alloc(s.disk).disk, 0).blocks);
    } else {
      AllocManyBlocks(s.disk, n);
      AllocManyDisk(s.disk, n);
    }
  }

  /** A successful `criaa` keeps the state consistent. */
  lemma CreateFileConsistent(s: State, segs: seq<string>, size: int, date: string, s': State)
    requires Consistent(s)
    requires |segs| > 0
    requires IntMin <= size <= IntMax - (BlockSize - 1)
    requires CreateFile(s, segs, size, date) == Ok(s')
    ensures Consistent(s')
  {
    var route := Walk(s.root, Parent(segs)).value;
    var kids := ChildrenAt(s.root, route);
    var n := Allocated(size);
    CreateFileShape(s, segs, size, date, s', route);
    CreateFileBlocks(s, segs, size, date, s');
    var c := AllocMany(s.disk, n);
    var file := File(Last(segs), date, size, c.blocks);
    if s.disk.count == 0 {
      assert Unallocated(c.blocks);
    } else {
      AllocManyAscending(s.disk, n);
      AllocManyDisk(s.disk, n);
    }
    assert NodeOk(file);
    WellFormedAt(s.root, route);
    WellFormedCons(file, kids);
    HeldAllCons(file, kids);
    forall b
      ensures HeldAll([file] + kids)[b] + InUse(s.disk, b) == HeldAll(kids)[b] + InUse(c.disk, b)
    {
      if s.disk.count == 0 {
        assert InDisk(c.blocks) == multiset{};
      } else {
        AllocManyHeld(s.disk, n, b);
      }
    }
    ValidAfterReplace(s, route, [file] + kids, c.disk);
  }

  // ---------------------------------------------------------------------
  // removea

  /** Where `removea` fails: the first missing directory of the parent
      path, or no file of that name in the parent (a directory of that
      name does not count); it succeeds exactly when the file is found. */
  lemma RemoveFileOutcome(s: State, segs: seq<string>)
    requires |segs| > 0
    ensures Walk(s.root, Parent(segs)).Err? ==>
      RemoveFile(s, segs) == Err(DirNotFound(Walk(s.root, Parent(segs)).error))
    ensures Walk(s.root, Parent(segs)).Ok? ==>
      var kids := ChildrenAt(s.root, Walk(s.root, Parent(segs)).value);
      (RemoveFile(s, segs) == Err(FileNotFound(Last(segs))) <==> Find(kids, Last(segs), FileKind).None?)
    ensures RemoveFile(s, segs).Ok? || RemoveFile(s, segs).error.DirNotFound? || RemoveFile(s, segs).error.FileNotFound?
    ensures RemoveFile(s, segs).Ok? <==>
      && Walk(s.root, Parent(segs)).Ok?
      && Find(ChildrenAt(s.root, Walk(s.root, Parent(segs)).value), Last(segs), FileKind).Some?
  {
  }

  /** A successful `removea` keeps the state consistent, gives back every
      block of the file's chain (the counter rises by the chain length, or
      by nothing for the lone -1 of a failed head allocation), changes no
      other block, and unlinks exactly that entry, the other siblings
      keeping their order. */
  lemma RemoveFileEffect(s: State, segs: seq<string>, s': State, route: seq<nat>, i: nat)
    requires Consistent(s)
    requires |segs| > 0
    requires Walk(s.root, Parent(segs)) == Ok(route)
    requires Find(ChildrenAt(s.root, route), Last(segs), FileKind) == Some(i)
    requires RemoveFile(s, segs) == Ok(s')
    ensures Consistent(s')
    ensures
      var chain := ChildrenAt(s.root, route)[i].chain;
      s'.disk.count == s.disk.count + (if Unallocated(chain) then 0 else |chain|)
    ensures forall b :: 0 <= b < BlockCount ==>
      (s'.disk.free[b] <==> s.disk.free[b] || b in ChildrenAt(s.root, route)[i].chain)
    ensures ValidRoute(s'.root, route)
    ensures ChildrenAt(s'.root, route) == ChildrenAt(s.root, route)[..i] + ChildrenAt(s.root, route)[i + 1..]
  {
    var kids := ChildrenAt(s.root, route);
    var chain := kids[i].chain;
    var nk := kids[..i] + kids[i + 1..];
    var d := ReleaseMany(s.disk, chain);
    assert s' == State(d, Replace(s.root, route, nk));
    HeldAtMost(s.root, route);
    HeldAllRemove(kids, i);
    assert Held(kids[i]) == InDisk(chain);
    forall b | true
      ensures InDisk(chain)[b] <= InUse(s.disk, b)
    {
      assert (HeldAll(nk) + Held(kids[i]))[b] == HeldAll(kids)[b];
    }
    ReleaseManySpec(s.disk, chain);
    WellFormedAt(s.root, route);
    WellFormedRemove(kids, i);
    assert NodeOk(kids[i]);
    if !Unallocated(chain) {
      InDiskAll(chain);
    }
    forall b
      ensures HeldAll(nk)[b] + InUse(s.disk, b) == HeldAll(kids)[b] + InUse(d, b)
    {
      assert (HeldAll(nk) + Held(kids[i]))[b] == HeldAll(kids)[b];
      assert InDisk(chain)[b] <= InUse(s.disk, b);
      if IsBlock(b) {
        InDiskMember(chain, b);
      }
    }
    ValidAfterReplace(s, route, nk, d);
    ReplaceThenRead(s.root, route, nk);
  }

  /** `removea` undoes `criaa`: creating a file and removing it again gives
      back exactly the state before, allocator included. */
  lemma CreateThenRemoveFile(s: State, segs: seq<string>, size: int, date: string, s': State)
    requires Consistent(s)
    requires |segs| > 0
    requires IntMin <= size <= IntMax - (BlockSize - 1)
    requires CreateFile(s, segs, size, date) == Ok(s')
    ensures RemoveFile(s', segs) == Ok(s)
  {
    var route := Walk(s.root, Parent(segs)).value;
    var kids := ChildrenAt(s.root, route);
    var n := Allocated(size);
    var c := AllocMany(s.disk, n);
    var nk := [File(Last(segs), date, size, c.blocks)] + kids;
    CreateFileShape(s, segs, size, date, s', route);
    CreateFileTree(s, segs, size, date, s', route);
    CreateFileBlocks(s, segs, size, date, s');
    WalkAfterReplace(s.root, Parent(segs), nk);
    assert nk[..0] + nk[1..] == kids;
    if s.disk.count == 0 {
      assert ReleaseMany(s.disk, [-1]) == s.disk;
    } else {
      AllocManyThenRelease(s.disk, n);
    }
    ReplaceTwice(s.root, route, nk, kids);
    ReplaceSame(s.root, route);
  }
}
