/** The namespace tree of projeto2.c. A `Bloco` is a directory when its
    `arq` chain is NULL and a file otherwise; a directory's `filho` list,
    linked through `prox`, is held here as a sequence whose first element
    is the newest entry. Index routes stand in for the C pointers. */
module Tree {
  import opened Wrappers
  import opened Allocator

  /** A directory holds its own block number (`posicao`) and its children;
      a file holds its declared size (`tamanho`) and its block chain (`arq`),
      whose head is the file's `posicao`. `date` is the creation timestamp. */
  datatype Node =
    | Dir(name: string, date: string, pos: int, children: seq<Node>)
    | File(name: string, date: string, size: int, chain: seq<int>)

  /** The two kinds of lookup the source performs: `arq == NULL` or `arq != NULL`. */
  datatype Kind = DirKind | FileKind

  predicate Is(n: Node, name: string, k: Kind) {
    n.name == name && (n.Dir? <==> k == DirKind)
  }

  /** The sibling scan `current = atual->filho; ... current = current->prox`:
      the index of the first child of kind `k` whose name is `name`
      (compared with `strcmp`, so exactly). */
  function Find(kids: seq<Node>, name: string, k: Kind): (r: Option<nat>)
    ensures r.Some? ==> r.value < |kids| && Is(kids[r.value], name, k)
    ensures r.Some? ==> forall j :: 0 <= j < r.value ==> !Is(kids[j], name, k)
    ensures r.None? <==> forall j :: 0 <= j < |kids| ==> !Is(kids[j], name, k)
  {
    if |kids| == 0 then None
    else if Is(kids[0], name, k) then Some(0)
    else match Find(kids[1..], name, k)
      case None => None
      case Some(i) => Some(i + 1)
  }

  /** A route is a list of child indices, each leading to a directory. */
  predicate ValidRoute(kids: seq<Node>, route: seq<nat>)
    decreases |route|
  {
    |route| == 0 ||
      (route[0] < |kids| && kids[route[0]].Dir? && ValidRoute(kids[route[0]].children, route[1..]))
  }

  /** The children of the directory a route leads to. */
  function ChildrenAt(kids: seq<Node>, route: seq<nat>): seq<Node>
    requires ValidRoute(kids, route)
    decreases |route|
  {
    if |route| == 0 then kids else ChildrenAt(kids[route[0]].children, route[1..])
  }

  /** The names of the directories a route passes through. */
  function RouteNames(kids: seq<Node>, route: seq<nat>): (r: seq<string>)
    requires ValidRoute(kids, route)
    ensures |r| == |route|
    decreases |route|
  {
    if |route| == 0 then []
    else [kids[route[0]].name] + RouteNames(kids[route[0]].children, route[1..])
  }

  /** The tree with the children of the directory at the end of `route`
      replaced by `nk`; everything else is as it was. */
  function Replace(kids: seq<Node>, route: seq<nat>, nk: seq<Node>): (r: seq<Node>)
    requires ValidRoute(kids, route)
    ensures |route| > 0 ==> |r| == |kids|
    ensures |route| > 0 ==> forall j :: 0 <= j < |kids| && j != route[0] ==> r[j] == kids[j]
    ensures |route| > 0 ==> r[route[0]].Dir? && r[route[0]].name == kids[route[0]].name
    decreases |route|
  {
    if |route| == 0 then nk
    else
      var d := kids[route[0]];
      kids[route[0] := d.(children := Replace(d.children, route[1..], nk))]
  }

  /** The block numbers a node holds: a directory's own block plus whatever
      its children hold; a file's in-range chain entries. */
  function Held(n: Node): multiset<int>
    decreases n, 1
  {
    match n
    case Dir(_, _, pos, children) => multiset{pos} + HeldAll(children)
    case File(_, _, _, chain) => InDisk(chain)
  }

  function HeldAll(kids: seq<Node>): multiset<int>
    decreases kids, 0
  {
    if |kids| == 0 then multiset{} else Held(kids[0]) + HeldAll(kids[1..])
  }

  /** A file's chain is never empty (its head is always allocated) and is
      either the lone -1 of an allocation that failed or a list of real
      block numbers. */
  predicate ChainOk(chain: seq<int>) {
    |chain| > 0 && (Unallocated(chain) || forall k :: 0 <= k < |chain| ==> IsBlock(chain[k]))
  }

  /** The chain of a file whose head allocation found the disk full. */
  predicate Unallocated(chain: seq<int>) {
    |chain| == 1 && chain[0] == -1
  }

  /** The shape every command keeps: directory names are distinct among
      sibling directories, file names among sibling files (a file and a
      directory may share a name), and every chain is well formed. */
  predicate WellFormed(kids: seq<Node>)
    decreases kids, 1
  {
    && (forall i, j :: 0 <= i < j < |kids| && kids[i].Dir? == kids[j].Dir? ==> kids[i].name != kids[j].name)
    && (forall i :: 0 <= i < |kids| ==> NodeOk(kids[i]))
  }

  predicate NodeOk(n: Node)
    decreases n, 0
  {
    match n
    case Dir(_, _, _, children) => WellFormed(children)
    case File(_, _, _, chain) => ChainOk(chain)
  }

  // ---------------------------------------------------------------------
  // Replacing the children of one directory

  /** After the replacement the route still leads to a directory, through
      the same names, and that directory's children are `nk`. */
  lemma {:induction false} ReplaceThenRead(kids: seq<Node>, route: seq<nat>, nk: seq<Node>)
    requires ValidRoute(kids, route)
    ensures ValidRoute(Replace(kids, route, nk), route)
    ensures ChildrenAt(Replace(kids, route, nk), route) == nk
    ensures RouteNames(Replace(kids, route, nk), route) == RouteNames(kids, route)
    decreases |route|
  {
    if |route| > 0 {
      ReplaceThenRead(kids[route[0]].children, route[1..], nk);
    }
  }

  /** Writing back the children that are already there changes nothing. */
  lemma {:induction false} ReplaceSame(kids: seq<Node>, route: seq<nat>)
    requires ValidRoute(kids, route)
    ensures Replace(kids, route, ChildrenAt(kids, route)) == kids
    decreases |route|
  {
    if |route| > 0 {
      ReplaceSame(kids[route[0]].children, route[1..]);
    }
  }

  lemma {:induction false} HeldAllConcat(a: seq<Node>, b: seq<Node>)
    ensures HeldAll(a + b) == HeldAll(a) + HeldAll(b)
    decreases |a|
  {
    if |a| > 0 {
      assert (a + b)[0] == a[0];
      assert (a + b)[1..] == a[1..] + b;
      HeldAllConcat(a[1..], b);
      assert HeldAll(a + b) == Held(a[0]) + (HeldAll(a[1..]) + HeldAll(b));
    } else {
      assert a + b == b;
    }
  }

  /** The blocks of a list with one element taken out. */
  lemma HeldAllRemove(kids: seq<Node>, i: nat)
    requires i < |kids|
    ensures HeldAll(kids[..i] + kids[i + 1..]) + Held(kids[i]) == HeldAll(kids)
  {
    var front, x, back := kids[..i], kids[i], kids[i + 1..];
    assert kids == front + ([x] + back);
    HeldAllConcat(front, [x] + back);
    HeldAllConcat(front, back);
    assert HeldAll([x] + back) == Held(x) + HeldAll(back) by {
      assert ([x] + back)[0] == x;
      assert ([x] + back)[1..] == back;
    }
    calc {
      HeldAll(front + back) + Held(x);
      HeldAll(front) + HeldAll(back) + Held(x);
      HeldAll(front) + (Held(x) + HeldAll(back));
      HeldAll(kids);
    }
  }

  /** The blocks of a list with one element swapped for another. */
  lemma HeldAllUpdate(kids: seq<Node>, i: nat, x: Node)
    requires i < |kids|
    ensures HeldAll(kids[i := x]) + Held(kids[i]) == HeldAll(kids) + Held(x)
  {
    var u := kids[i := x];
    HeldAllRemove(kids, i);
    HeldAllRemove(u, i);
    assert u[..i] + u[i + 1..] == kids[..i] + kids[i + 1..];
  }

  /** Replacing the children of one directory trades their blocks for the
      blocks of the new children and touches no other block. */
  lemma {:induction false} HeldReplace(kids: seq<Node>, route: seq<nat>, nk: seq<Node>)
    requires ValidRoute(kids, route)
    ensures HeldAll(Replace(kids, route, nk)) + HeldAll(ChildrenAt(kids, route)) == HeldAll(kids) + HeldAll(nk)
    decreases |route|
  {
    if |route| > 0 {
      var i := route[0];
      var d := kids[i];
      var inner := Replace(d.children, route[1..], nk);
      var d' := d.(children := inner);
      HeldReplace(d.children, route[1..], nk);
      HeldAllUpdate(kids, i, d');
      assert Held(d) == multiset{d.pos} + HeldAll(d.children);
      assert Held(d') == multiset{d.pos} + HeldAll(inner);
      var r := Replace(kids, route, nk);
      assert r == kids[i := d'];
      assert ChildrenAt(kids, route) == ChildrenAt(d.children, route[1..]);
      var ca := ChildrenAt(kids, route);
      forall b
        ensures (HeldAll(r) + HeldAll(ca))[b] == (HeldAll(kids) + HeldAll(nk))[b]
      {
        assert (HeldAll(r) + Held(d))[b] == (HeldAll(kids) + Held(d'))[b];
        assert (HeldAll(inner) + HeldAll(ca))[b] == (HeldAll(d.children) + HeldAll(nk))[b];
      }
    }
  }

  /** The children of any directory of a well-formed tree are well formed. */
  lemma {:induction false} WellFormedAt(kids: seq<Node>, route: seq<nat>)
    requires WellFormed(kids)
    requires ValidRoute(kids, route)
    ensures WellFormed(ChildrenAt(kids, route))
    decreases |route|
  {
    if |route| > 0 {
      assert NodeOk(kids[route[0]]);
      WellFormedAt(kids[route[0]].children, route[1..]);
    }
  }

  /** Putting well-formed children in place keeps the tree well formed:
      the directories on the route keep their names and kinds. */
  lemma {:induction false} WellFormedReplace(kids: seq<Node>, route: seq<nat>, nk: seq<Node>)
    requires WellFormed(kids)
    requires ValidRoute(kids, route)
    requires WellFormed(nk)
    ensures WellFormed(Replace(kids, route, nk))
    decreases |route|
  {
    if |route| > 0 {
      assert NodeOk(kids[route[0]]);
      WellFormedReplace(kids[route[0]].children, route[1..], nk);
      var r := Replace(kids, route, nk);
      assert NodeOk(r[route[0]]);
    }
  }

  /** A second replacement at the same place overrides the first. */
  lemma {:induction false} ReplaceTwice(kids: seq<Node>, route: seq<nat>, a: seq<Node>, b: seq<Node>)
    requires ValidRoute(kids, route)
    ensures ValidRoute(Replace(kids, route, a), route)
    ensures Replace(Replace(kids, route, a), route, b) == Replace(kids, route, b)
    decreases |route|
  {
    ReplaceThenRead(kids, route, a);
    if |route| > 0 {
      ReplaceTwice(kids[route[0]].children, route[1..], a, b);
    }
  }

  /** A new entry in front keeps the list well formed when it is well
      formed itself and no sibling of its kind has its name. */
  lemma WellFormedCons(x: Node, kids: seq<Node>)
    requires WellFormed(kids)
    requires NodeOk(x)
    requires forall j :: 0 <= j < |kids| && kids[j].Dir? == x.Dir? ==> kids[j].name != x.name
    ensures WellFormed([x] + kids)
  {
    var l := [x] + kids;
    assert l[0] == x;
    assert forall k :: 0 < k < |l| ==> l[k] == kids[k - 1];
  }

  /** Taking an entry out keeps the list well formed. */
  lemma WellFormedRemove(kids: seq<Node>, i: nat)
    requires WellFormed(kids)
    requires i < |kids|
    ensures WellFormed(kids[..i] + kids[i + 1..])
  {
    var l := kids[..i] + kids[i + 1..];
    assert forall j :: 0 <= j < i ==> l[j] == kids[j];
    assert forall j :: i <= j < |l| ==> l[j] == kids[j + 1];
  }
}
