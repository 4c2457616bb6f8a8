/** Looking up the visible children of a node by their index, going only where the cached counts
    say they are. Models ts_node_child (node.c:52-174). */
module NodeChildren {
  import opened Lengths
  import opened Options
  import opened SyntaxTrees
  import opened Summaries
  import opened TreePaths
  import opened VisibleLists
  import opened CursorSpec

  datatype Node = Node(tree: Tree, position: Length, alias: Symbol)

  /** Where the iterator over a node's children stands: behind the last child's text. */
  datatype NodeChildIterator = NodeChildIterator(parent: Tree, position: Length, childIndex: nat,
                                                 structuralChildIndex: nat)

  /** The node is what it should be for the descendant of `root` at `path`. */
  ghost predicate NodeIs(lang: Language, root: Tree, before: Length, node: Node, path: Path) {
    ValidPath(root, path) && node.tree == NodeAt(root, path) && node.position == StartOfNode(root, path, before)
  }

  ghost predicate StandsAt(lang: Language, root: Tree, before: Length, path: Path, it: NodeChildIterator, k: nat) {
    && ValidPath(root, path) && it.parent == NodeAt(root, path) && k <= |it.parent.kids|
    && it.childIndex == k && it.structuralChildIndex == StructuralIndex(it.parent.kids, k)
    && it.position == (if k == 0 then StartOfNode(root, path, before)
                       else Add(BeforeNode(root, path, before), SizeOfFirst(it.parent.kids, k)))
  }

  /** The next child and the iterator behind it. */
  method NextChild(lang: Language, it: NodeChildIterator, ghost root: Tree, ghost before: Length, ghost path: Path,
                   ghost k: nat)
    returns (child: Node, next: NodeChildIterator)
    requires StandsAt(lang, root, before, path, it, k) && k < |it.parent.kids|
    requires CountedAt(lang, root, path)
    ensures NodeIs(lang, root, before, child, path + [k]) && child.tree == it.parent.kids[k]
    ensures child.alias == AliasAt(lang, it.parent, k)
    ensures StandsAt(lang, root, before, path, next, k + 1) && next.parent == it.parent
  {
    var tree := it.parent.kids[it.childIndex];
    var alias := 0;
    if !tree.info.extra {
      alias := lang.aliasAt(it.parent.info.productionId, it.structuralChildIndex);
    }
    var position := if it.childIndex > 0 then Add(it.position, tree.info.padding) else it.position;
    child := Node(tree, position, alias);
    next := NodeChildIterator(it.parent, Add(position, tree.info.size), it.childIndex + 1,
                              it.structuralChildIndex + if tree.info.extra then 0 else 1);
    ChildIndexAndStart(lang, root, path, k, before);
    FirstStart(it.parent.kids, BeforeNode(root, path, before));
    NextStart(BeforeNode(root, path, before), SizeOfFirst(it.parent.kids, k), tree.info);
  }

  function IsRelevant(node: Node): bool {
    node.tree.info.visible || node.alias != 0
  }

  /** The lookup has gone down along `below` to a node that shows `here`: what was the `i`th of
      `list` is now the `j`th of `here`. */
  ghost predicate LeadsTo(list: seq<Path>, i: nat, below: Path, here: seq<Path>, j: nat) {
    && (i < |list| <==> j < |here|)
    && (i < |list| ==> list[i] == below + here[j])
  }

  /** The `j`th visible child among those of the `k`th child. */
  lemma LeadsToKid(lang: Language, t: Tree, list: seq<Path>, i: nat, below: Path, j: nat, k: nat)
    requires LeadsTo(list, i, below, VisibleChildren(lang, t), j) && k < |t.kids|
    requires ChildrenFirst(lang, t, k) <= j < ChildrenFirst(lang, t, k + 1)
    ensures i < |list|
    ensures KidVisible(lang)(t, k) ==> list[i] == below + [k]
    ensures !KidVisible(lang)(t, k) ==>
              LeadsTo(list, i, below + [k], VisibleChildren(lang, t.kids[k]), j - ChildrenFirst(lang, t, k))
  {
    ChildrenSplit(lang, t, k);
    ChildrenSplit(lang, t, k + 1);
    var at := ChildrenFirst(lang, t, k);
    assert VisibleChildren(lang, t)[at..] == ChildrenOfKid(lang, t, k) + ChildrenFrom(lang, t, k + 1);
    assert VisibleChildren(lang, t)[j] == VisibleChildren(lang, t)[at..][j - at];
  }

  /** How many visible children the `k`th child stands for. */
  lemma KidShows(lang: Language, t: Tree, k: nat, kid: Node)
    requires k < |t.kids| && kid.tree == t.kids[k] && kid.alias == AliasAt(lang, t, k) && CountsRight(lang, kid.tree)
    ensures IsRelevant(kid) == KidVisible(lang)(t, k)
    ensures ChildrenFirst(lang, t, k + 1) == ChildrenFirst(lang, t, k) +
                                          (if IsRelevant(kid) then 1 else ChildCount(kid.tree))
  {
  }

  lemma NoMoreKids(lang: Language, t: Tree, list: seq<Path>, i: nat, below: Path, j: nat)
    requires LeadsTo(list, i, below, VisibleChildren(lang, t), j) && ChildrenFirst(lang, t, |t.kids|) <= j
    ensures i >= |list|
  {
    ChildrenSplit(lang, t, |t.kids|);
  }

  /** The `index`th visible child of a node: hidden children are replaced by theirs. It is missing
      exactly when the cached count says so. */
  method Child(lang: Language, self: Node, index: nat, ghost before: Length) returns (child: Option<Node>)
    requires AllCounted(lang, self.tree) && self.position == Add(before, self.tree.info.padding)
    ensures child.None? <==> index >= ChildCount(self.tree)
    ensures |VisibleChildren(lang, self.tree)| == ChildCount(self.tree)
    ensures child.Some? ==> NodeIs(lang, self.tree, before, child.value, VisibleChildren(lang, self.tree)[index])
    ensures child.Some? ==> IsRelevant(child.value)
  {
    ghost var list := VisibleChildren(lang, self.tree);
    assert CountedAt(lang, self.tree, []);
    var result, childIndex, didDescend := self, index, true;
    ghost var path: Path := [];
    while didDescend
      invariant AllCounted(lang, self.tree) && NodeIs(lang, self.tree, before, result, path)
      invariant didDescend ==> LeadsTo(list, index, path, VisibleChildren(lang, result.tree), childIndex)
      invariant !didDescend ==> index >= |list|
      decreases result.tree, didDescend
    {
      var found;
      ghost var k;
      didDescend, found, child, childIndex, k :=
        ChildStep(lang, result, childIndex, self.tree, before, path, list, index);
      if found {
        return;
      }
      if didDescend {
        PathSnoc(self.tree, path, k);
        path, result := path + [k], child.value;
      }
    }
    child := None;
  }

  /** The next child and how much it shows. */
  method NextCounted(lang: Language, it: NodeChildIterator, ghost root: Tree, ghost before: Length, ghost path: Path,
                     ghost k: nat)
    returns (child: Node, next: NodeChildIterator)
    requires StandsAt(lang, root, before, path, it, k) && k < |it.parent.kids| && AllCounted(lang, root)
    ensures NodeIs(lang, root, before, child, path + [k]) && child.tree == it.parent.kids[k]
    ensures IsRelevant(child) == KidVisible(lang)(it.parent, k)
    ensures ChildrenFirst(lang, it.parent, k + 1) ==
            ChildrenFirst(lang, it.parent, k) + if IsRelevant(child) then 1 else ChildCount(child.tree)
    ensures StandsAt(lang, root, before, path, next, k + 1) && next.parent == it.parent
  {
    assert CountedAt(lang, root, path);
    child, next := NextChild(lang, it, root, before, path, k);
    KidCountsRight(lang, root, path, k);
    KidShows(lang, it.parent, k, child);
  }

  /** One level of the lookup: the child itself, the hidden child to go down into, or nothing. */
  method ChildStep(lang: Language, result: Node, goal: nat, ghost root: Tree, ghost before: Length, ghost path: Path,
                   ghost list: seq<Path>, ghost i: nat)
    returns (didDescend: bool, found: bool, child: Option<Node>, rest: nat, ghost k: nat)
    requires AllCounted(lang, root) && NodeIs(lang, root, before, result, path)
    requires LeadsTo(list, i, path, VisibleChildren(lang, result.tree), goal)
    ensures !(didDescend && found) && (didDescend || found ==> child.Some?)
    ensures found ==> i < |list| && NodeIs(lang, root, before, child.value, list[i]) && IsRelevant(child.value)
    ensures didDescend ==>
              && k < |result.tree.kids| && NodeIs(lang, root, before, child.value, path + [k])
              && child.value.tree == result.tree.kids[k]
              && LeadsTo(list, i, path + [k], VisibleChildren(lang, child.value.tree), rest)
    ensures !found && !didDescend ==> i >= |list|
  {
    var it := NodeChildIterator(result.tree, result.position, 0, 0);
    var index := 0;
    k := 0;
    while it.childIndex < |it.parent.kids|
      invariant it.childIndex == k <= |result.tree.kids| && it.parent == result.tree
      invariant StandsAt(lang, root, before, path, it, k)
      invariant index == ChildrenFirst(lang, result.tree, k) <= goal
      decreases |result.tree.kids| - it.childIndex
    {
      var c;
      c, it := NextCounted(lang, it, root, before, path, k);
      if IsRelevant(c) {
        if index == goal {
          LeadsToKid(lang, result.tree, list, i, path, goal, k);
          return false, true, Some(c), 0, k;
        }
        index := index + 1;
      } else {
        var grandchildIndex := goal - index;
        var grandchildCount := ChildCount(c.tree);
        if grandchildIndex < grandchildCount {
          LeadsToKid(lang, result.tree, list, i, path, goal, k);
          return true, false, Some(c), grandchildIndex, k;
        }
        index := index + grandchildCount;
      }
      k := k + 1;
    }
    NoMoreKids(lang, result.tree, list, i, path, goal);
    return false, false, None, 0, 0;
  }
}
