/** Lists of the nodes of a tree in document order, and the place of each node in them. This is
    the plain reference that cursors and walkers with cached counts must agree with. */
module TreePaths {
  import opened Lengths
  import opened SyntaxTrees

  /** Which children of a node are listed. */
  type Shown = (Tree, nat) -> bool

  function Prefixed(k: nat, paths: seq<Path>): (longer: seq<Path>)
    ensures |longer| == |paths| && forall i :: 0 <= i < |paths| ==> longer[i] == [k] + paths[i]
  {
    seq(|paths|, i requires 0 <= i < |paths| => [k] + paths[i])
  }

  /** The listed nodes among the children from the `k`th on and everything below them. */
  function ListFrom(shown: Shown, t: Tree, k: nat): seq<Path>
    decreases t, |t.kids| - k, 1
  {
    if k >= |t.kids| then [] else ListKid(shown, t, k) + ListFrom(shown, t, k + 1)
  }

  function ListKid(shown: Shown, t: Tree, k: nat): seq<Path>
    requires k < |t.kids|
    decreases t, |t.kids| - k, 0
  {
    (if shown(t, k) then [[k]] else []) + Prefixed(k, ListFrom(shown, t.kids[k], 0))
  }

  function Weight(shown: Shown, t: Tree, k: nat): nat {
    if shown(t, k) then 1 else 0
  }

  /** How many nodes are listed before the `k`th child. */
  function CountFirst(shown: Shown, t: Tree, k: nat): nat
    requires k <= |t.kids|
  {
    if k == 0 then 0
    else CountFirst(shown, t, k - 1) + Weight(shown, t, k - 1) + |ListFrom(shown, t.kids[k - 1], 0)|
  }

  /** How many nodes below `t` are listed before the one at `path`. */
  ghost function IndexIn(shown: Shown, t: Tree, path: Path): nat
    requires ValidPath(t, path) && path != []
    decreases |path|
  {
    CountFirst(shown, t, path[0]) +
    if |path| == 1 then 0 else Weight(shown, t, path[0]) + IndexIn(shown, t.kids[path[0]], path[1..])
  }

  lemma {:induction false} ListSplits(shown: Shown, t: Tree, k: nat)
    requires k <= |t.kids|
    ensures |ListFrom(shown, t, 0)| == CountFirst(shown, t, k) + |ListFrom(shown, t, k)|
    ensures ListFrom(shown, t, 0)[CountFirst(shown, t, k)..] == ListFrom(shown, t, k)
    decreases k
  {
    if k > 0 {
      ListSplits(shown, t, k - 1);
      assert ListFrom(shown, t, k - 1) == ListKid(shown, t, k - 1) + ListFrom(shown, t, k);
    }
  }

  /** Is the node at `path` listed? */
  ghost predicate ShownAt(shown: Shown, t: Tree, path: Path)
    requires ValidPath(t, path) && path != []
    decreases |path|
  {
    if |path| == 1 then shown(t, path[0]) else ShownAt(shown, t.kids[path[0]], path[1..])
  }

  /** A listed node is found in the list at its index. */
  lemma {:induction false} ListedAtIndex(shown: Shown, t: Tree, path: Path)
    requires ValidPath(t, path) && path != []
    ensures IndexIn(shown, t, path) <= |ListFrom(shown, t, 0)|
    ensures ShownAt(shown, t, path) ==>
              IndexIn(shown, t, path) < |ListFrom(shown, t, 0)| &&
              ListFrom(shown, t, 0)[IndexIn(shown, t, path)] == path
    decreases |path|
  {
    var k, rest := path[0], path[1..];
    ListSplits(shown, t, k);
    var list, at := ListFrom(shown, t, 0), CountFirst(shown, t, k);
    assert list[at..] == ListKid(shown, t, k) + ListFrom(shown, t, k + 1);
    assert path == [k] + rest;
    if rest == [] {
      assert ShownAt(shown, t, path) ==> list[at..][0] == [k];
    } else {
      var kid := t.kids[k];
      ListedAtIndex(shown, kid, rest);
      var below := IndexIn(shown, kid, rest);
      if ShownAt(shown, t, path) {
        assert ListFrom(shown, kid, 0)[below] == rest;
        assert list[at..][Weight(shown, t, k) + below] == [k] + rest;
      }
    }
  }

  lemma {:induction false} PathSnoc(t: Tree, path: Path, k: nat)
    requires ValidPath(t, path) && k < |NodeAt(t, path).kids|
    ensures ValidPath(t, path + [k]) && NodeAt(t, path + [k]) == NodeAt(t, path).kids[k]
    decreases |path|
  {
    if path != [] {
      PathSnoc(t.kids[path[0]], path[1..], k);
      assert (path + [k])[1..] == path[1..] + [k];
    }
  }

  lemma {:induction false} PathInit(t: Tree, path: Path)
    requires ValidPath(t, path) && path != []
    ensures ValidPath(t, path[..|path| - 1])
    ensures path[|path| - 1] < |NodeAt(t, path[..|path| - 1]).kids|
    ensures NodeAt(t, path) == NodeAt(t, path[..|path| - 1]).kids[path[|path| - 1]]
    decreases |path|
  {
    if |path| > 1 {
      PathInit(t.kids[path[0]], path[1..]);
      assert path[..|path| - 1][1..] == path[1..][..|path| - 2];
    }
  }

  /** The index of a child follows from its parent's. */
  lemma {:induction false} IndexSnoc(shown: Shown, t: Tree, path: Path, k: nat)
    requires ValidPath(t, path) && path != [] && k < |NodeAt(t, path).kids|
    ensures ValidPath(t, path + [k])
    ensures IndexIn(shown, t, path + [k]) ==
            IndexIn(shown, t, path) + (if ShownAt(shown, t, path) then 1 else 0) + CountFirst(shown, NodeAt(t, path), k)
    decreases |path|
  {
    PathSnoc(t, path, k);
    assert (path + [k])[1..] == path[1..] + [k];
    if |path| > 1 {
      IndexSnoc(shown, t.kids[path[0]], path[1..], k);
    } else {
      assert path[1..] + [k] == [k];
    }
  }

  /** What is listed below a node fits between its own place and the end of the list. */
  lemma {:induction false} SubtreeFits(shown: Shown, t: Tree, path: Path)
    requires ValidPath(t, path) && path != []
    ensures IndexIn(shown, t, path) + (if ShownAt(shown, t, path) then 1 else 0) + |ListFrom(shown, NodeAt(t, path), 0)|
            <= |ListFrom(shown, t, 0)|
    decreases |path|
  {
    var k := path[0];
    ListSplits(shown, t, k + 1);
    if |path| > 1 {
      SubtreeFits(shown, t.kids[k], path[1..]);
    } else {
      assert path[1..] == [];
    }
  }

  lemma {:induction false} ShownSnoc(shown: Shown, t: Tree, path: Path, k: nat)
    requires ValidPath(t, path) && k < |NodeAt(t, path).kids|
    ensures ValidPath(t, path + [k]) && ShownAt(shown, t, path + [k]) == shown(NodeAt(t, path), k)
    decreases |path|
  {
    PathSnoc(t, path, k);
    if path != [] {
      assert (path + [k])[1..] == path[1..] + [k];
      ShownSnoc(shown, t.kids[path[0]], path[1..], k);
    } else {
      assert path + [k] == [k];
    }
  }

  // ---- Where nodes begin ----

  /** The size of the children before the `k`th. */
  function SizeOfFirst(kids: seq<Tree>, k: nat): Length
    requires k <= |kids|
  {
    if k == 0 then ZERO else Add(SizeOfFirst(kids, k - 1), TotalSize(kids[k - 1].info))
  }

  /** Where the padding of the node at `path` begins, if that of `t` begins at `before`. */
  ghost function BeforeNode(t: Tree, path: Path, before: Length): Length
    requires ValidPath(t, path)
    decreases |path|
  {
    if path == [] then before
    else BeforeNode(t.kids[path[0]], path[1..], Add(before, SizeOfFirst(t.kids, path[0])))
  }

  /** Where its text begins, after its padding. */
  ghost function StartOfNode(t: Tree, path: Path, before: Length): Length
    requires ValidPath(t, path)
  {
    Add(BeforeNode(t, path, before), NodeAt(t, path).info.padding)
  }

  lemma {:induction false} BeforeSnoc(t: Tree, path: Path, k: nat, before: Length)
    requires ValidPath(t, path) && k < |NodeAt(t, path).kids|
    ensures ValidPath(t, path + [k])
    ensures BeforeNode(t, path + [k], before) == Add(BeforeNode(t, path, before), SizeOfFirst(NodeAt(t, path).kids, k))
    decreases |path|
  {
    PathSnoc(t, path, k);
    if path != [] {
      BeforeSnoc(t.kids[path[0]], path[1..], k, Add(before, SizeOfFirst(t.kids, path[0])));
      assert (path + [k])[1..] == path[1..] + [k];
    } else {
      assert [k][1..] == [] && [] + [k] == [k];
    }
  }
}
