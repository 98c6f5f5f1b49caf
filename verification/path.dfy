/** The path walk every command of projeto2.c repeats: the argument is cut
    on '/' by `strtok`, and every segment but the last must name a
    directory child of the directory reached so far. */
module Path {
  import opened Wrappers
  import opened Tree

  /** Walks `dirs` from the children of the root: each segment must match,
      exactly, a directory child (`arq == NULL`); the first such child is
      taken. Fails with the first segment that matches none. */
  function Walk(kids: seq<Node>, dirs: seq<string>): (r: Result<seq<nat>, string>)
    ensures r.Ok? ==> ValidRoute(kids, r.value) && RouteNames(kids, r.value) == dirs
    ensures r.Err? ==> r.error in dirs
    decreases |dirs|
  {
    if |dirs| == 0 then Ok([])
    else match Find(kids, dirs[0], DirKind)
      case None => Err(dirs[0])
      case Some(i) =>
        match Walk(kids[i].children, dirs[1..])
        case Err(seg) => Err(seg)
        case Ok(route) =>
          assert ([i] + route)[1..] == route;
          Ok([i] + route)
  }

  /** In a well-formed tree the walk fails only when no route through
      directories spells the path: any such route is the one it finds.
      (Sibling directories have distinct names there, so the first match
      is the only one.) */
  lemma {:induction false} WalkComplete(kids: seq<Node>, route: seq<nat>, dirs: seq<string>)
    requires WellFormed(kids)
    requires ValidRoute(kids, route)
    requires RouteNames(kids, route) == dirs
    ensures Walk(kids, dirs) == Ok(route)
    decreases |route|
  {
    if |route| > 0 {
      var i := route[0];
      assert Is(kids[i], dirs[0], DirKind);
      var j := Find(kids, dirs[0], DirKind).value;
      assert j == i;
      assert NodeOk(kids[i]);
      assert dirs[1..] == RouteNames(kids[i].children, route[1..]);
      WalkComplete(kids[i].children, route[1..], dirs[1..]);
      assert [i] + route[1..] == route;
    }
  }

  lemma {:induction false} ChildrenAtAppend(kids: seq<Node>, ra: seq<nat>, rb: seq<nat>)
    requires ValidRoute(kids, ra)
    requires ValidRoute(ChildrenAt(kids, ra), rb)
    ensures ValidRoute(kids, ra + rb)
    ensures ChildrenAt(kids, ra + rb) == ChildrenAt(ChildrenAt(kids, ra), rb)
    decreases |ra|
  {
    if |ra| > 0 {
      assert (ra + rb)[0] == ra[0];
      assert (ra + rb)[1..] == ra[1..] + rb;
      ChildrenAtAppend(kids[ra[0]].children, ra[1..], rb);
    } else {
      assert ra + rb == rb;
    }
  }

  /** Walking one segment further continues from where the shorter walk
      stopped: the extra segment is looked up among that directory's
      children. */
  lemma {:induction false} WalkExtend(kids: seq<Node>, dirs: seq<string>, name: string)
    requires Walk(kids, dirs).Ok?
    ensures
      var route := Walk(kids, dirs).value;
      Walk(kids, dirs + [name]) ==
        match Find(ChildrenAt(kids, route), name, DirKind)
        case None => Err(name)
        case Some(i) => Ok(route + [i])
    decreases |dirs|
  {
    var route := Walk(kids, dirs).value;
    if |dirs| == 0 {
      assert dirs + [name] == [name];
      assert [name][1..] == [];
      match Find(kids, name, DirKind)
      case None =>
      case Some(k) =>
        assert Walk(kids[k].children, []) == Ok([]);
        assert [k] + [] == route + [k];
    } else {
      var i := Find(kids, dirs[0], DirKind).value;
      assert (dirs + [name])[0] == dirs[0];
      assert (dirs + [name])[1..] == dirs[1..] + [name];
      WalkExtend(kids[i].children, dirs[1..], name);
      var sub := Walk(kids[i].children, dirs[1..]).value;
      assert route == [i] + sub;
      assert route[1..] == sub;
      match Find(ChildrenAt(kids, route), name, DirKind)
      case None =>
      case Some(k) =>
        assert [i] + (sub + [k]) == route + [k];
    }
  }

  /** Walking a path that resolved before a replacement at its own end
      gives the same route afterwards: the directories on the way keep
      their names and places. */
  lemma {:induction false} WalkAfterReplace(kids: seq<Node>, dirs: seq<string>, nk: seq<Node>)
    requires Walk(kids, dirs).Ok?
    ensures Walk(Replace(kids, Walk(kids, dirs).value, nk), dirs) == Walk(kids, dirs)
    decreases |dirs|
  {
    if |dirs| > 0 {
      var route := Walk(kids, dirs).value;
      var i := route[0];
      var r := Replace(kids, route, nk);
      FindSameNames(kids, r, i, dirs[0], DirKind);
      assert route[1..] == Walk(kids[i].children, dirs[1..]).value;
      WalkAfterReplace(kids[i].children, dirs[1..], nk);
    }
  }

  /** A lookup is unaffected by changing one child in place as long as
      its name and kind stay. */
  lemma {:induction false} FindSameNames(a: seq<Node>, b: seq<Node>, i: nat, name: string, k: Kind)
    requires |a| == |b| && i < |a|
    requires forall j :: 0 <= j < |a| && j != i ==> b[j] == a[j]
    requires b[i].name == a[i].name && b[i].Dir? == a[i].Dir?
    ensures Find(b, name, k) == Find(a, name, k)
  {
    assert forall j :: 0 <= j < |a| ==> (Is(b[j], name, k) <==> Is(a[j], name, k));
    if Find(a, name, k).Some? {
      FindFirst(b, Find(a, name, k).value, name, k);
    }
  }

  /** `Find` answers the first matching index. */
  lemma {:induction false} FindFirst(kids: seq<Node>, m: nat, name: string, k: Kind)
    requires m < |kids| && Is(kids[m], name, k)
    requires forall j :: 0 <= j < m ==> !Is(kids[j], name, k)
    ensures Find(kids, name, k) == Some(m)
  {
    if m > 0 {
      FindFirst(kids[1..], m - 1, name, k);
    }
  }

  /** A failed walk names the first segment that could not be resolved:
      everything before it resolves, and the directory reached has no
      directory child of that name. */
  lemma {:induction false} WalkFailure(kids: seq<Node>, dirs: seq<string>) returns (k: nat)
    requires Walk(kids, dirs).Err?
    ensures k < |dirs| && dirs[k] == Walk(kids, dirs).error
    ensures Walk(kids, dirs[..k]).Ok?
    ensures Find(ChildrenAt(kids, Walk(kids, dirs[..k]).value), dirs[k], DirKind).None?
    decreases |dirs|
  {
    match Find(kids, dirs[0], DirKind)
    case None =>
      k := 0;
      assert dirs[..0] == [];
    case Some(i) =>
      var k' := WalkFailure(kids[i].children, dirs[1..]);
      k := k' + 1;
      var pre := dirs[..k];
      assert pre[0] == dirs[0];
      assert pre[1..] == dirs[1..][..k'];
      var sub := Walk(kids[i].children, dirs[1..][..k']).value;
      assert Walk(kids, pre) == Ok([i] + sub);
      assert ([i] + sub)[1..] == sub;
  }

  /** After new children are put in place at the end of a resolved path,
      a name found among them resolves one level further. */
  lemma WalkIntoReplaced(kids: seq<Node>, dirs: seq<string>, nk: seq<Node>, name: string, i: nat)
    requires Walk(kids, dirs).Ok?
    requires Find(nk, name, DirKind) == Some(i)
    ensures Walk(Replace(kids, Walk(kids, dirs).value, nk), dirs + [name]) == Ok(Walk(kids, dirs).value + [i])
  {
    var route := Walk(kids, dirs).value;
    var r := Replace(kids, route, nk);
    ReplaceThenRead(kids, route, nk);
    WalkAfterReplace(kids, dirs, nk);
    WalkExtend(r, dirs, name);
  }
}
