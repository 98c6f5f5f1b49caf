/** The four commands of projeto2.c that change the file system: `criad`,
    `criaa`, `removed` and `removea`. Each takes the path already cut into
    segments and returns either the new state or the error the source
    prints; an error carries no state, so a failed command leaves the file
    system as it was. */
module Commands {
  import opened Wrappers
  import opened Allocator
  import opened Tree
  import opened Path

  /** The whole simulated file system: the allocator and the children of
      the root directory (the root's own name, date and block are never
      read by any command). */
  datatype State = State(disk: Disk, root: seq<Node>)

  /** The errors the commands report. */
  datatype Error =
    | DirNotFound(name: string)   // a directory on the path, or the one to remove, is missing
    | DirExists(name: string)     // `criad`: a directory of that name is already there
    | FileExists(name: string)    // `criaa`: a file of that name is already there
    | FileNotFound(name: string)  // `removea`, `verset`: no such file
    | DirNotEmpty(name: string)   // `removed`: the directory still has entries
    | NoFreeBlock                 // `alocar_bloco` found no free block
    | NoSpace                     // `criaa`: more blocks needed than are free

  /** Largest value of a C `int`. */
  const IntMax: int := 0x7fff_ffff
  /** Smallest value of a C `int`. */
  const IntMin: int := -0x8000_0000

  /** The consistency of the three parts: a valid block map, a well-formed
      tree, and the tree holding every block outside the boot area exactly
      once when it is occupied and not at all when it is free. */
  ghost predicate Consistent(s: State) {
    && Allocator.Valid(s.disk)
    && WellFormed(s.root)
    && forall b :: HeldAll(s.root)[b] == InUse(s.disk, b)
  }

  /** The state after `inicializar_blocos` and the creation of `raiz`. */
  function Init(): (s: State)
    ensures Consistent(s)
    ensures s.disk.count == Usable && s.root == []
  {
    var s := State(Allocator.Init(), []);
    assert forall b :: HeldAll(s.root)[b] == InUse(s.disk, b);
    s
  }

  /** The segments before the last: the directories to walk through. */
  function Parent(segs: seq<string>): (r: seq<string>)
    requires |segs| > 0
    ensures r + [segs[|segs| - 1]] == segs
  {
    segs[..|segs| - 1]
  }

  /** The last segment: the entry the command acts on. */
  function Last(segs: seq<string>): string
    requires |segs| > 0
  {
    segs[|segs| - 1]
  }

  /** C's `/` on `int`: the quotient truncated toward zero. */
  function CDiv(a: int, b: int): (q: int)
    requires b > 0
    ensures a >= 0 ==> q * b <= a < (q + 1) * b
    ensures a < 0 ==> (q - 1) * b < a <= q * b
  {
    if a >= 0 then a / b else -((-a) / b)
  }

  /** `num_blocks` of `criaa`: `(size + 512 - 1) / 512` in C arithmetic. */
  function BlocksFor(size: int): int {
    CDiv(size + BlockSize - 1, BlockSize)
  }

  /** The blocks `criaa` allocates for a file of `size` bytes: the chain
      head always, and one more for each block beyond the first. */
  function Allocated(size: int): nat {
    if BlocksFor(size) < 1 then 1 else BlocksFor(size)
  }

  // ---------------------------------------------------------------------
  // criad

  /** `criad`: walks to the parent; refuses when it already has a
      directory of that name (a file of that name does not count); takes
      the lowest free block; puts the new, empty directory in front of the
      parent's entries. */
  function CreateDir(s: State, segs: seq<string>, date: string): (r: Result<State, Error>)
    requires |segs| > 0
    ensures r.Ok? ==> r.value.disk.count == s.disk.count - 1
    ensures r.Ok? ==> Walk(s.root, Parent(segs)).Ok?
  {
    match Walk(s.root, Parent(segs))
    case Err(seg) => Err(DirNotFound(seg))
    case Ok(route) =>
      var kids := ChildrenAt(s.root, route);
      if Find(kids, Last(segs), DirKind).Some? then Err(DirExists(Last(segs)))
      else
        var a := Alloc(s.disk);
        if a.block == -1 then Err(NoFreeBlock)
        else Ok(State(a.disk, Replace(s.root, route, [Dir(Last(segs), date, a.block, [])] + kids)))
  }

  // ---------------------------------------------------------------------
  // criaa

  /** `criaa`: walks to the parent; refuses when it already has a file of
      that name (a directory of that name does not count); refuses when
      more blocks are needed than are free, before allocating any; then
      always allocates the chain head, and one more block for each block
      beyond the first; puts the new file in front of the parent's entries.
      `size` is the `atoi` result; `size + 511` must not overflow. */
  function CreateFile(s: State, segs: seq<string>, size: int, date: string): (r: Result<State, Error>)
    requires |segs| > 0
    requires IntMin <= size <= IntMax - (BlockSize - 1)
    ensures r.Ok? ==> Walk(s.root, Parent(segs)).Ok?
    ensures r.Ok? ==> BlocksFor(size) <= s.disk.count
  {
    match Walk(s.root, Parent(segs))
    case Err(seg) => Err(DirNotFound(seg))
    case Ok(route) =>
      var kids := ChildrenAt(s.root, route);
      if Find(kids, Last(segs), FileKind).Some? then Err(FileExists(Last(segs)))
      else if BlocksFor(size) > s.disk.count then Err(NoSpace)
      else
        var head := Alloc(s.disk);
        var rest := AllocMany(head.disk, BlocksFor(size) - 1);
        var file := File(Last(segs), date, size, [head.block] + rest.blocks);
        Ok(State(rest.disk, Replace(s.root, route, [file] + kids)))
  }

  // ---------------------------------------------------------------------
  // removed

  /** `removed`: walks to the parent; the target must be a directory child
      of that name and must have no entries; its block is released and it
      is unlinked from its siblings. */
  function RemoveDir(s: State, segs: seq<string>): (r: Result<State, Error>)
    requires |segs| > 0
    ensures r.Ok? ==> Walk(s.root, Parent(segs)).Ok?
  {
    match Walk(s.root, Parent(segs))
    case Err(seg) => Err(DirNotFound(seg))
    case Ok(route) =>
      var kids := ChildrenAt(s.root, route);
      match Find(kids, Last(segs), DirKind)
      case None => Err(DirNotFound(Last(segs)))
      case Some(i) =>
        if kids[i].children != [] then Err(DirNotEmpty(Last(segs)))
        else Ok(State(Release(s.disk, kids[i].pos), Replace(s.root, route, kids[..i] + kids[i + 1..])))
  }

  // ---------------------------------------------------------------------
  // removea

  /** `removea`: walks to the parent; the target must be a file child of
      that name; every block of its chain is released, in chain order, and
      it is unlinked from its siblings. */
  function RemoveFile(s: State, segs: seq<string>): (r: Result<State, Error>)
    requires |segs| > 0
    ensures r.Ok? ==> Walk(s.root, Parent(segs)).Ok?
  {
    match Walk(s.root, Parent(segs))
    case Err(seg) => Err(DirNotFound(seg))
    case Ok(route) =>
      var kids := ChildrenAt(s.root, route);
      match Find(kids, Last(segs), FileKind)
      case None => Err(FileNotFound(Last(segs)))
      case Some(i) =>
        Ok(State(ReleaseMany(s.disk, kids[i].chain), Replace(s.root, route, kids[..i] + kids[i + 1..])))
  }
}
