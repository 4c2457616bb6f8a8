/** The walker over the old tree that incremental parsing reuses nodes from.
    Models reusable_node.h. */
module ReusableNodes {
  import opened SyntaxTrees
  import opened TreePaths

  datatype WalkEntry = WalkEntry(tree: Tree, childIndex: nat, byteOffset: nat)

  /** The walker visits every node. */
  function Everything(): Shown {
    (t: Tree, k: nat) => true
  }

  /** All nodes of a tree in document order. */
  function DocumentOrder(root: Tree): seq<Path> {
    [[]] + ListFrom(Everything(), root, 0)
  }

  function NodeCount(t: Tree): nat {
    1 + |ListFrom(Everything(), t, 0)|
  }

  /** The place of a node in document order. */
  ghost function Place(root: Tree, path: Path): nat
    requires ValidPath(root, path)
  {
    if path == [] then 0 else 1 + IndexIn(Everything(), root, path)
  }

  lemma {:induction false} EverythingIsShown(t: Tree, path: Path)
    requires ValidPath(t, path) && path != []
    ensures ShownAt(Everything(), t, path)
    decreases |path|
  {
    if |path| > 1 {
      EverythingIsShown(t.kids[path[0]], path[1..]);
    }
  }

  lemma FoundAtPlace(root: Tree, path: Path)
    requires ValidPath(root, path)
    ensures Place(root, path) < |DocumentOrder(root)| && DocumentOrder(root)[Place(root, path)] == path
    ensures Place(root, path) + NodeCount(NodeAt(root, path)) <= |DocumentOrder(root)|
  {
    if path != [] {
      EverythingIsShown(root, path);
      ListedAtIndex(Everything(), root, path);
      SubtreeFits(Everything(), root, path);
    }
  }

  /** Where a node ends, in bytes and in document order. */
  ghost function EndByte(root: Tree, path: Path): nat
    requires ValidPath(root, path)
  {
    StartAt(root, path) + TotalBytes(NodeAt(root, path))
  }

  ghost function EndPlace(root: Tree, path: Path): nat
    requires ValidPath(root, path)
  {
    Place(root, path) + NodeCount(NodeAt(root, path))
  }

  lemma {:induction false} StartSnoc(root: Tree, path: Path, k: nat)
    requires ValidPath(root, path) && k < |NodeAt(root, path).kids|
    ensures ValidPath(root, path + [k])
    ensures StartAt(root, path + [k]) == StartAt(root, path) + Offset(NodeAt(root, path).kids, k)
    decreases |path|
  {
    PathSnoc(root, path, k);
    if path != [] {
      StartSnoc(root.kids[path[0]], path[1..], k);
      assert (path + [k])[1..] == path[1..] + [k];
    } else {
      assert path + [k] == [k] && [k][1..] == [];
    }
  }

  lemma PlaceSnoc(root: Tree, path: Path, k: nat)
    requires ValidPath(root, path) && k < |NodeAt(root, path).kids|
    ensures ValidPath(root, path + [k])
    ensures Place(root, path + [k]) == Place(root, path) + 1 + CountFirst(Everything(), NodeAt(root, path), k)
  {
    PathSnoc(root, path, k);
    if path != [] {
      EverythingIsShown(root, path);
      IndexSnoc(Everything(), root, path, k);
    } else {
      assert path + [k] == [k];
    }
  }

  /** The first child begins with its parent. */
  lemma FirstChildBegins(root: Tree, path: Path)
    requires ValidPath(root, path) && NodeAt(root, path).kids != []
    ensures ValidPath(root, path + [0]) && NodeAt(root, path + [0]) == NodeAt(root, path).kids[0]
    ensures StartAt(root, path + [0]) == StartAt(root, path) && Place(root, path + [0]) == Place(root, path) + 1
  {
    PathSnoc(root, path, 0);
    StartSnoc(root, path, 0);
    PlaceSnoc(root, path, 0);
  }

  /** A sibling begins where the one before it ends. */
  lemma SiblingBegins(root: Tree, path: Path, k: nat)
    requires ValidPath(root, path) && k + 1 < |NodeAt(root, path).kids|
    ensures ValidPath(root, path + [k]) && ValidPath(root, path + [k + 1])
    ensures NodeAt(root, path + [k + 1]) == NodeAt(root, path).kids[k + 1]
    ensures StartAt(root, path + [k + 1]) == EndByte(root, path + [k])
    ensures Place(root, path + [k + 1]) == EndPlace(root, path + [k])
  {
    PathSnoc(root, path, k);
    PathSnoc(root, path, k + 1);
    StartSnoc(root, path, k);
    StartSnoc(root, path, k + 1);
    PlaceSnoc(root, path, k);
    PlaceSnoc(root, path, k + 1);
    OffsetStep(NodeAt(root, path).kids, k);
  }

  lemma LastKidEnds(t: Tree)
    requires t.kids != [] && Consistent(t)
    ensures var k := |t.kids| - 1;
            && Offset(t.kids, k) + TotalBytes(t.kids[k]) == TotalBytes(t)
            && 1 + CountFirst(Everything(), t, k) + NodeCount(t.kids[k]) == NodeCount(t)
  {
    var k := |t.kids| - 1;
    OffsetStep(t.kids, k);
    assert t.kids[k + 1..] == [];
    ListSplits(Everything(), t, k + 1);
  }

  /** The last child ends with its parent. */
  lemma LastChildEnds(root: Tree, path: Path)
    requires ValidPath(root, path) && NodeAt(root, path).kids != [] && Consistent(NodeAt(root, path))
    ensures ValidPath(root, path + [|NodeAt(root, path).kids| - 1])
    ensures EndByte(root, path + [|NodeAt(root, path).kids| - 1]) == EndByte(root, path)
    ensures EndPlace(root, path + [|NodeAt(root, path).kids| - 1]) == EndPlace(root, path)
  {
    var k := |NodeAt(root, path).kids| - 1;
    LastKidEnds(NodeAt(root, path));
    PathSnoc(root, path, k);
    StartSnoc(root, path, k);
    PlaceSnoc(root, path, k);
  }

  lemma {:induction false} ConsistentAt(root: Tree, path: Path)
    requires Consistent(root) && ValidPath(root, path)
    ensures Consistent(NodeAt(root, path))
    decreases |path|
  {
    if path != [] {
      ConsistentAt(root.kids[path[0]], path[1..]);
    }
  }

  /** How many times one can go down to a first child. */
  function LeftDepth(t: Tree): nat {
    if t.kids == [] then 0 else 1 + LeftDepth(t.kids[0])
  }

  // ---- The walker's stack ----

  ghost predicate EntryIs(root: Tree, entry: WalkEntry, path: Path) {
    && ValidPath(root, path) && entry.tree == NodeAt(root, path) && entry.byteOffset == StartAt(root, path)
    && (path != [] ==> entry.childIndex == path[|path| - 1])
  }

  ghost predicate EntryOk(root: Tree, stack: seq<WalkEntry>, path: Path, k: nat) {
    k < |stack| && k <= |path| ==> EntryIs(root, stack[k], path[..k])
  }

  /** The stack holds the nodes on the way to `path`, each at its true offset. */
  ghost predicate StackOk(root: Tree, stack: seq<WalkEntry>, path: Path) {
    |stack| == |path| + 1 && forall k: nat {:trigger EntryOk(root, stack, path, k)} :: EntryOk(root, stack, path, k)
  }

  lemma StackTop(root: Tree, stack: seq<WalkEntry>, path: Path)
    requires StackOk(root, stack, path)
    ensures EntryIs(root, stack[|stack| - 1], path)
  {
    assert EntryOk(root, stack, path, |path|);
    assert path[..|path|] == path;
  }

  lemma StackPushed(root: Tree, stack: seq<WalkEntry>, path: Path, entry: WalkEntry, k: nat)
    requires StackOk(root, stack, path) && EntryIs(root, entry, path + [k])
    ensures StackOk(root, stack + [entry], path + [k])
  {
    forall j: nat
      ensures EntryOk(root, stack + [entry], path + [k], j)
    {
      assert EntryOk(root, stack, path, j);
      if j <= |path| {
        assert (path + [k])[..j] == path[..j];
      } else if j == |path| + 1 {
        assert (path + [k])[..j] == path + [k];
      }
    }
  }

  lemma StackPopped(root: Tree, stack: seq<WalkEntry>, path: Path)
    requires StackOk(root, stack, path) && path != []
    ensures StackOk(root, stack[..|stack| - 1], path[..|path| - 1])
  {
    var above, parent := stack[..|stack| - 1], path[..|path| - 1];
    forall j: nat
      ensures EntryOk(root, above, parent, j)
    {
      assert EntryOk(root, stack, path, j);
      assert j < |path| ==> parent[..j] == path[..j];
    }
  }

  lemma ParentOf(root: Tree, path: Path)
    requires ValidPath(root, path) && path != []
    ensures ValidPath(root, path[..|path| - 1]) && path == path[..|path| - 1] + [path[|path| - 1]]
    ensures path[|path| - 1] < |NodeAt(root, path[..|path| - 1]).kids|
  {
    PathInit(root, path);
  }

  const UINT32_MAX: nat := 0xFFFF_FFFF

  class ReusableNode {
    var stack: seq<WalkEntry>
    ghost var root: Tree
    ghost var here: Path

    ghost predicate Valid()
      reads this
    {
      stack != [] ==> Consistent(root) && StackOk(root, stack, here) && ValidPath(root, here)
    }

    constructor ()
      ensures Valid() && stack == []
    {
      stack, here, root := [], [], *;
    }

    /** Goes down to the first child, which begins at the same byte. */
    method Descend() returns (ok: bool)
      requires Valid() && stack != []
      modifies this`stack, this`here
      ensures Valid() && stack != []
      ensures ok <==> NodeAt(root, old(here)).kids != []
      ensures if ok then here == old(here) + [0] && Place(root, here) == Place(root, old(here)) + 1
              else stack == old(stack) && here == old(here)
    {
      var last := stack[|stack| - 1];
      StackTop(root, stack, here);
      if |last.tree.kids| > 0 {
        FirstChildBegins(root, here);
        var entry := WalkEntry(last.tree.kids[0], 0, last.byteOffset);
        StackPushed(root, stack, here, entry, 0);
        stack, here := stack + [entry], here + [0];
        return true;
      }
      return false;
    }

    /** Goes past the current node and everything below it. */
    method Advance()
      requires Valid() && stack != []
      modifies this`stack, this`here
      ensures Valid()
      ensures var end := EndPlace(root, old(here));
              if end < |DocumentOrder(root)|
              then stack != [] && here == DocumentOrder(root)[end] && Place(root, here) == end
              else stack == []
    {
      var last := stack[|stack| - 1];
      StackTop(root, stack, here);
      var byteOffset := last.byteOffset + TotalBytes(last.tree);
      ghost var end := EndPlace(root, here);
      assert |DocumentOrder(root)| == EndPlace(root, []);
      var moved := false;
      while !moved && stack != []
        invariant Valid() && (moved ==> stack != [] && Place(root, here) == end)
        invariant stack == [] ==> end == |DocumentOrder(root)|
        invariant !moved && stack != [] ==> EndByte(root, here) == byteOffset && EndPlace(root, here) == end
        decreases !moved, |stack|
      {
        moved := PopOrMove(byteOffset);
      }
      if moved {
        FoundAtPlace(root, here);
      }
    }

    /** Pops the top entry and, if it has a next sibling, pushes that. */
    method PopOrMove(byteOffset: nat) returns (moved: bool)
      requires Valid() && stack != [] && EndByte(root, here) == byteOffset
      modifies this`stack, this`here
      ensures Valid() && (moved ==> stack != [] && Place(root, here) == EndPlace(root, old(here)))
      ensures stack == [] ==> old(here) == []
      ensures !moved && stack != [] ==>
                |stack| < |old(stack)| && EndByte(root, here) == byteOffset &&
                EndPlace(root, here) == EndPlace(root, old(here))
    {
      if |stack| == 1 {
        stack := [];
        return false;
      }
      var popped := Pop();
      var tree := stack[|stack| - 1].tree;
      var nextIndex := popped.childIndex + 1;
      if |tree.kids| <= nextIndex {
        ConsistentAt(root, here);
        LastChildEnds(root, here);
        return false;
      }
      SiblingBegins(root, here, popped.childIndex);
      Push(WalkEntry(tree.kids[nextIndex], nextIndex, byteOffset), nextIndex);
      return true;
    }

    method Pop() returns (popped: WalkEntry)
      requires Valid() && |stack| > 1
      modifies this`stack, this`here
      ensures Valid() && stack == old(stack)[..|old(stack)| - 1] && stack != []
      ensures old(here) == here + [popped.childIndex] && popped.childIndex < |NodeAt(root, here).kids|
      ensures stack[|stack| - 1].tree == NodeAt(root, here)
    {
      popped := stack[|stack| - 1];
      StackTop(root, stack, here);
      StackPopped(root, stack, here);
      ParentOf(root, here);
      stack, here := stack[..|stack| - 1], here[..|here| - 1];
      StackTop(root, stack, here);
    }

    method Push(entry: WalkEntry, ghost k: nat)
      requires Valid() && stack != [] && EntryIs(root, entry, here + [k])
      modifies this`stack, this`here
      ensures Valid() && stack == old(stack) + [entry] && here == old(here) + [k]
    {
      StackPushed(root, stack, here, entry, k);
      stack, here := stack + [entry], here + [k];
    }

    /** Goes past the first leaf at or below the current node. */
    method AdvancePastLeaf()
      requires Valid() && stack != []
      modifies this`stack, this`here
      ensures Valid()
      ensures var next := Place(root, old(here)) + LeftDepth(NodeAt(root, old(here))) + 1;
              if next < |DocumentOrder(root)|
              then stack != [] && here == DocumentOrder(root)[next] && Place(root, here) == next
              else stack == []
    {
      ghost var start := here;
      var down := true;
      while down
        invariant Valid() && stack != []
        invariant Place(root, here) + LeftDepth(NodeAt(root, here)) ==
                  Place(root, start) + LeftDepth(NodeAt(root, start))
        invariant !down ==> NodeAt(root, here).kids == []
        decreases NodeAt(root, here), down
      {
        ghost var above := here;
        down := Descend();
        if down {
          PathSnoc(root, above, 0);
        }
      }
      Advance();
    }

    /** Starts at the first child of a tree; its root is never visited. */
    method Reset(tree: Tree)
      requires Consistent(tree)
      modifies this
      ensures Valid() && root == tree
      ensures if tree.kids == [] then stack == [] else stack != [] && here == [0] && Place(root, here) == 1
    {
      stack, here, root := [WalkEntry(tree, 0, 0)], [], tree;
      assert StackOk(root, stack, here) by {
        assert EntryOk(root, stack, here, 0);
      }
      var ok := Descend();
      if !ok {
        stack := [];
      }
    }

    /** The byte at which the current node begins: that of everything before it. Behind the last
        node it is larger than any other. */
    function ByteOffset(): (offset: nat)
      requires Valid()
      reads this
      ensures offset == if stack != [] then StartAt(root, here) else UINT32_MAX
    {
      if stack == [] then UINT32_MAX
      else
        StackTop(root, stack, here);
        stack[|stack| - 1].byteOffset
    }
  }
}
