/** A session of projeto2.c: the commands as one datatype, a step that runs
    one of them, and the invariants a whole run of commands keeps. */
module Session {
  import opened Wrappers
  import opened Allocator
  import opened Tree
  import opened Path
  import opened Commands
  import opened Consistency
  import opened Queries

  /** One command with its arguments already split into path segments;
      `date` stands for the clock reading taken at creation. */
  datatype Command =
    | MakeDir(segs: seq<string>, date: string)
    | MakeFile(segs: seq<string>, size: int, date: string)
    | RemoveDirCmd(segs: seq<string>)
    | RemoveFileCmd(segs: seq<string>)
    | List(segs: seq<string>)
    | Sectors(segs: seq<string>)
    | ShowMap
    | ShowTreeCmd

  /** What a command reports instead of printing. */
  datatype Outcome =
    | Done
    | Failed(error: Error)
    | Listed(listing: Listing)
    | Blocks(chain: seq<int>)
    | MapShown(cells: seq<char>)
    | TreeShown(lines: seq<TreeLine>)

  /** A command the source can be given: the commands that name an entry
      have a last segment, and a file size is an `int` to which 511 can be
      added without overflow. */
  predicate Admissible(c: Command) {
    match c
    case MakeDir(segs, _) => |segs| > 0
    case MakeFile(segs, size, _) => |segs| > 0 && IntMin <= size <= IntMax - (BlockSize - 1)
    case RemoveDirCmd(segs) => |segs| > 0
    case RemoveFileCmd(segs) => |segs| > 0
    case List(_) => true
    case Sectors(segs) => |segs| > 0
    case ShowMap => true
    case ShowTreeCmd => true
  }

  /** The state after a state-changing command: the new one on success, the
      old one on failure. */
  function Commit(s: State, r: Result<State, Error>): (p: (State, Outcome))
    ensures r.Ok? ==> p == (r.value, Done)
    ensures r.Err? ==> p == (s, Failed(r.error))
  {
    match r
    case Ok(s') => (s', Done)
    case Err(e) => (s, Failed(e))
  }

  /** Runs one command. Only a state-changing command that succeeds reports
      `Done`; a failure and every query return the state they were given. */
  function Step(s: State, c: Command): (p: (State, Outcome))
    requires Admissible(c)
    ensures p.1 == Done ==> c.MakeDir? || c.MakeFile? || c.RemoveDirCmd? || c.RemoveFileCmd?
    ensures p.1 != Done ==> p.0 == s
  {
    match c
    case MakeDir(segs, date) => Commit(s, CreateDir(s, segs, date))
    case MakeFile(segs, size, date) => Commit(s, CreateFile(s, segs, size, date))
    case RemoveDirCmd(segs) => Commit(s, RemoveDir(s, segs))
    case RemoveFileCmd(segs) => Commit(s, RemoveFile(s, segs))
    case List(segs) =>
      (s, match ListDir(s, segs) case Ok(l) => Listed(l) case Err(e) => Failed(e))
    case Sectors(segs) =>
      (s, match FileBlocks(s, segs) case Ok(b) => Blocks(b) case Err(e) => Failed(e))
    case ShowMap => (s, MapShown(DiskMap(s.disk)))
    case ShowTreeCmd => (s, TreeShown(ShowTree(s)))
  }

  /** A failed command and every query leave the state exactly as it was. */
  lemma StepUnchanged(s: State, c: Command)
    requires Admissible(c)
    requires Step(s, c).1.Failed? || c.List? || c.Sectors? || c.ShowMap? || c.ShowTreeCmd?
    ensures Step(s, c).0 == s
  {
  }

  /** Every command keeps the state consistent. */
  lemma StepConsistent(s: State, c: Command)
    requires Consistent(s)
    requires Admissible(c)
    ensures Consistent(Step(s, c).0)
  {
    match c
    case MakeDir(segs, date) =>
      if CreateDir(s, segs, date).Ok? {
        CreateDirConsistent(s, segs, date);
      }
    case MakeFile(segs, size, date) =>
      if CreateFile(s, segs, size, date).Ok? {
        CreateFileConsistent(s, segs, size, date, CreateFile(s, segs, size, date).value);
      }
    case RemoveDirCmd(segs) =>
      if RemoveDir(s, segs).Ok? {
        RemoveDirEffect(s, segs);
      }
    case RemoveFileCmd(segs) =>
      var r := RemoveFile(s, segs);
      if r.Ok? {
        var route := Walk(s.root, Parent(segs)).value;
        var i := Find(ChildrenAt(s.root, route), Last(segs), FileKind).value;
        RemoveFileEffect(s, segs, r.value, route, i);
      }
    case List(_) =>
    case Sectors(_) =>
    case ShowMap =>
    case ShowTreeCmd =>
  }

  /** A run of commands, one after the other, from a given state. */
  function Run(s: State, cs: seq<Command>): State
    requires forall k :: 0 <= k < |cs| ==> Admissible(cs[k])
    decreases |cs|
  {
    if |cs| == 0 then s else Run(Step(s, cs[0]).0, cs[1..])
  }

  /** Block conservation over a whole session: after any run of commands
      from the initial state, the free counter plus the blocks the tree
      uses (one per directory, the chain length per file, none for the lone
      -1 chain) is 246. */
  lemma {:induction false} RunConserves(s: State, cs: seq<Command>)
    requires Consistent(s)
    requires forall k :: 0 <= k < |cs| ==> Admissible(cs[k])
    ensures Consistent(Run(s, cs))
    ensures Run(s, cs).disk.count + Usage(Run(s, cs).root) == Usable
    decreases |cs|
  {
    if |cs| > 0 {
      StepConsistent(s, cs[0]);
      RunConserves(Step(s, cs[0]).0, cs[1..]);
    } else {
      Consistency.Conservation(s);
    }
  }

  /** A worked example session: on a fresh disk,
      `criad pasta1` leaves 245 free blocks, `criaa pasta1/a.txt 1024` two
      fewer, `verset` shows two occupied blocks outside the boot area,
      `removea` brings the counter back to 245 and `removed` to 246. */
  lemma Scenario(date: string)
    ensures
      var s0 := Commands.Init();
      var s1 := CreateDir(s0, ["pasta1"], date);
      && s1.Ok? && s1.value.disk.count == 245
      && var s2 := CreateFile(s1.value, ["pasta1", "a.txt"], 1024, date);
      && s2.Ok? && s2.value.disk.count == 243
      && var b := FileBlocks(s2.value, ["pasta1", "a.txt"]);
      && b.Ok? && |b.value| == 2
      && (forall k :: 0 <= k < 2 ==> Reserved <= b.value[k] < BlockCount && !s2.value.disk.free[b.value[k]])
      && RemoveFile(s2.value, ["pasta1", "a.txt"]) == Ok(s1.value)
      && RemoveDir(s1.value, ["pasta1"]) == Ok(s0)
      && s0.disk.count == 246
  {
    var s0 := Commands.Init();
    var d := ["pasta1"];
    var top: seq<nat> := [];
    assert Parent(d) == [] && Last(d) == "pasta1";
    AllocSpec(s0.disk);
    assert CreateDir(s0, d, date).Ok?;
    var s1 := CreateDir(s0, d, date).value;
    CreateDirConsistent(s0, d, date);
    CreateDirReachable(s0, d, date, s1, top);
    CreateDirTree(s0, d, date, s1, []);
    CreateThenRemoveDir(s0, d, date);

    var f := ["pasta1", "a.txt"];
    assert Parent(f) == d && Last(f) == "a.txt";
    assert top + [0] == [0];
    assert Walk(s1.root, Parent(f)) == Ok([0]);
    ChildrenAtAppend(s1.root, [], [0]);
    assert ChildrenAt(s1.root, [0]) == [];
    assert BlocksFor(1024) == 2;
    assert Allocated(1024) == 2;
    assert CreateFile(s1, f, 1024, date).Ok?;
    var s2 := CreateFile(s1, f, 1024, date).value;
    CreateFileBlocks(s1, f, 1024, date, s2);
    CreateFileConsistent(s1, f, 1024, date, s2);
    CreateThenRemoveFile(s1, f, 1024, date, s2);
    FileBlocksAfterCreate(s1, f, 1024, date, s2);
    FileBlocksOccupied(s2, f);
    AllocManyAscending(s1.disk, 2);
  }
}
