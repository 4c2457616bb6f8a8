/** What the entries of a tree cursor should say, and where its moves should lead.
    For tree_cursor.c:18-97, 188-257, 309-359, 408-468. */
module CursorSpec {
  import opened Lengths
  import opened SyntaxTrees
  import opened Summaries
  import opened VisibleTrees
  import opened TreePaths
  import opened VisibleLists

  datatype CursorEntry = CursorEntry(tree: Tree, position: Length, childIndex: nat, structuralChildIndex: nat,
                                     descendantIndex: nat)

  /** A child iterator: the next child's index, place in the grammar, start and visible index. */
  datatype ChildIterator = ChildIterator(parent: Tree, position: Length, childIndex: nat, structuralChildIndex: nat,
                                         descendantIndex: nat)

  /** The root of a cursor counts as visible. */
  ghost predicate VisibleAt(lang: Language, root: Tree, path: Path)
    requires ValidPath(root, path)
  {
    path == [] || ShownAt(KidVisible(lang), root, path)
  }

  /** The place of a node among the root and the visible nodes below it. */
  ghost function DescendantIndex(lang: Language, root: Tree, path: Path): nat
    requires ValidPath(root, path)
  {
    if path == [] then 0 else 1 + IndexIn(KidVisible(lang), root, path)
  }

  /** The root and all visible nodes below it, in document order. */
  function Preorder(lang: Language, root: Tree): seq<Path> {
    [[]] + VisibleBelowList(lang, root)
  }

  /** The place that the grammar gives the node at `path` among its siblings. */
  ghost function StructuralAt(root: Tree, path: Path): nat
    requires ValidPath(root, path)
    decreases |path|
  {
    if path == [] then 0
    else if |path| == 1 then StructuralIndex(root.kids, path[0])
    else StructuralAt(root.kids[path[0]], path[1..])
  }

  lemma {:induction false} StructuralSnoc(root: Tree, path: Path, k: nat)
    requires ValidPath(root, path) && k < |NodeAt(root, path).kids|
    ensures ValidPath(root, path + [k]) && StructuralAt(root, path + [k]) == StructuralIndex(NodeAt(root, path).kids, k)
    decreases |path|
  {
    PathSnoc(root, path, k);
    if path != [] {
      assert (path + [k])[1..] == path[1..] + [k];
      StructuralSnoc(root.kids[path[0]], path[1..], k);
    } else {
      assert path + [k] == [k];
    }
  }

  ghost predicate EntryIs(lang: Language, root: Tree, before: Length, entry: CursorEntry, path: Path) {
    && ValidPath(root, path)
    && entry.tree == NodeAt(root, path)
    && entry.position == StartOfNode(root, path, before)
    && entry.descendantIndex == DescendantIndex(lang, root, path)
    && entry.structuralChildIndex == StructuralAt(root, path)
    && (path != [] ==> entry.childIndex == path[|path| - 1])
  }

  ghost function PathOf(stack: seq<CursorEntry>): (path: Path)
    requires stack != []
    ensures |path| == |stack| - 1
  {
    seq(|stack| - 1, i requires 0 <= i < |stack| - 1 => stack[i + 1].childIndex)
  }

  ghost predicate EntryOk(lang: Language, root: Tree, before: Length, stack: seq<CursorEntry>, k: nat) {
    k < |stack| ==> EntryIs(lang, root, before, stack[k], PathOf(stack)[..k])
  }

  /** Every entry tells the truth about the node it stands for. */
  ghost predicate StackOk(lang: Language, root: Tree, before: Length, stack: seq<CursorEntry>) {
    stack != [] &&
    forall k: nat {:trigger EntryOk(lang, root, before, stack, k)} :: EntryOk(lang, root, before, stack, k)
  }

  lemma TopIs(lang: Language, root: Tree, before: Length, stack: seq<CursorEntry>)
    requires StackOk(lang, root, before, stack)
    ensures EntryIs(lang, root, before, stack[|stack| - 1], PathOf(stack))
  {
    assert EntryOk(lang, root, before, stack, |stack| - 1);
    assert PathOf(stack)[..|stack| - 1] == PathOf(stack);
  }

  lemma StackPrefix(lang: Language, root: Tree, before: Length, stack: seq<CursorEntry>, n: nat)
    requires StackOk(lang, root, before, stack) && 0 < n <= |stack|
    ensures StackOk(lang, root, before, stack[..n]) && PathOf(stack[..n]) == PathOf(stack)[..n - 1]
  {
    var prefix := stack[..n];
    assert PathOf(prefix) == PathOf(stack)[..n - 1];
    forall k: nat
      ensures EntryOk(lang, root, before, prefix, k)
    {
      assert EntryOk(lang, root, before, stack, k);
      if k < n {
        assert PathOf(prefix)[..k] == PathOf(stack)[..k];
      }
    }
  }

  lemma StackPushed(lang: Language, root: Tree, before: Length, stack: seq<CursorEntry>, entry: CursorEntry, k: nat)
    requires StackOk(lang, root, before, stack) && EntryIs(lang, root, before, entry, PathOf(stack) + [k])
    ensures StackOk(lang, root, before, stack + [entry]) && PathOf(stack + [entry]) == PathOf(stack) + [k]
  {
    var longer := stack + [entry];
    var path := PathOf(stack) + [k];
    assert path[..|path| - 1] == PathOf(stack);
    assert PathOf(longer) == path;
    forall j: nat
      ensures EntryOk(lang, root, before, longer, j)
    {
      assert EntryOk(lang, root, before, stack, j);
      if j < |stack| {
        assert path[..j] == PathOf(stack)[..j];
      } else if j == |stack| {
        assert path[..j] == path;
      }
    }
  }

  /** The node at `path` counts its visible nodes right and begins where its first child does. */
  ghost predicate CountedAt(lang: Language, root: Tree, path: Path) {
    ValidPath(root, path) ==>
      var t := NodeAt(root, path);
      CountsRight(lang, t) && (t.kids != [] ==> t.info.padding == t.kids[0].info.padding)
  }

  /** All that a cursor reads from the caches. */
  ghost predicate AllCounted(lang: Language, root: Tree) {
    forall path {:trigger CountedAt(lang, root, path)} :: CountedAt(lang, root, path)
  }

  lemma CachesOkCounts(lang: Language, root: Tree)
    requires CachesOk(lang, root)
    ensures AllCounted(lang, root)
  {
    forall path
      ensures CountedAt(lang, root, path)
    {
      if ValidPath(root, path) {
        CachesOkAt(lang, root, path);
        CountsAreLengths(lang, NodeAt(root, path));
      }
    }
  }

  // ---- Iterating over children ----

  /** The iterator is about to yield the `k`th child of the node at `path`. */
  ghost predicate IteratorAt(lang: Language, root: Tree, before: Length, path: Path, it: ChildIterator, k: nat) {
    && ValidPath(root, path) && it.parent == NodeAt(root, path) && it.parent.kids != [] && k <= |it.parent.kids|
    && it.childIndex == k && it.structuralChildIndex == StructuralIndex(it.parent.kids, k)
    && it.descendantIndex == DescendantIndex(lang, root, path) + (if VisibleAt(lang, root, path) then 1 else 0)
                             + CountFirst(KidVisible(lang), it.parent, k)
    && (k < |it.parent.kids| ==>
          it.position ==
          Add(Add(BeforeNode(root, path, before), SizeOfFirst(it.parent.kids, k)), it.parent.kids[k].info.padding))
  }

  /** The iterator over the children of `parent` has come to the `k`th. */
  ghost predicate Yields(lang: Language, root: Tree, before: Length, path: Path, parent: Tree, it: ChildIterator,
                         k: nat) {
    it.parent == parent && exists i: nat :: IteratorAt(lang, root, before, path, it, i) && i == k
  }

  /** The next entry, whether it is visible, and the iterator behind it. */
  function Next(lang: Language, it: ChildIterator): (result: (CursorEntry, bool, ChildIterator))
    requires it.childIndex < |it.parent.kids|
  {
    var kids := it.parent.kids;
    var child := kids[it.childIndex];
    var entry := CursorEntry(child, it.position, it.childIndex, it.structuralChildIndex, it.descendantIndex);
    var visible := child.info.visible ||
                   AliasOf(lang, it.parent.info.productionId, child.info, it.structuralChildIndex) != 0;
    var end := Add(it.position, child.info.size);
    var next := ChildIterator(it.parent,
                              if it.childIndex + 1 < |kids| then Add(end, kids[it.childIndex + 1].info.padding)
                              else end,
                              it.childIndex + 1,
                              it.structuralChildIndex + (if child.info.extra then 0 else 1),
                              it.descendantIndex + DescendantCount(child) + (if visible then 1 else 0));
    (entry, visible, next)
  }

  lemma ChildIndexAndStart(lang: Language, root: Tree, path: Path, k: nat, before: Length)
    requires ValidPath(root, path) && k < |NodeAt(root, path).kids|
    ensures ValidPath(root, path + [k]) && NodeAt(root, path + [k]) == NodeAt(root, path).kids[k]
    ensures StartOfNode(root, path + [k], before) ==
            Add(Add(BeforeNode(root, path, before), SizeOfFirst(NodeAt(root, path).kids, k)),
                NodeAt(root, path).kids[k].info.padding)
    ensures DescendantIndex(lang, root, path + [k]) ==
            (if path == [] then 1
             else DescendantIndex(lang, root, path) + (if VisibleAt(lang, root, path) then 1 else 0)) +
            CountFirst(KidVisible(lang), NodeAt(root, path), k)
    ensures VisibleAt(lang, root, path + [k]) == KidVisible(lang)(NodeAt(root, path), k)
  {
    PathSnoc(root, path, k);
    BeforeSnoc(root, path, k, before);
    ShownSnoc(KidVisible(lang), root, path, k);
    if path != [] {
      IndexSnoc(KidVisible(lang), root, path, k);
    } else {
      assert path + [k] == [k];
    }
  }

  lemma KidCountsRight(lang: Language, root: Tree, path: Path, k: nat)
    requires AllCounted(lang, root) && ValidPath(root, path) && k < |NodeAt(root, path).kids|
    ensures CountsRight(lang, NodeAt(root, path).kids[k])
  {
    PathSnoc(root, path, k);
    assert CountedAt(lang, root, path + [k]);
  }

  /** Past a child's text lies the next child's padding. */
  lemma NextStart(start: Length, before: Length, child: Info)
    ensures Add(Add(Add(start, before), child.padding), child.size) == Add(start, Add(before, TotalSize(child)))
  {
    AddIsMonoid(Add(start, before), child.padding, child.size);
    AddIsMonoid(start, before, TotalSize(child));
  }

  lemma NextIndex(lang: Language, it: ChildIterator, k: nat)
    requires k == it.childIndex < |it.parent.kids| && it.structuralChildIndex == StructuralIndex(it.parent.kids, k)
    requires CountsRight(lang, it.parent.kids[k])
    ensures Next(lang, it).1 == KidVisible(lang)(it.parent, k)
    ensures Next(lang, it).2.descendantIndex - it.descendantIndex ==
            CountFirst(KidVisible(lang), it.parent, k + 1) - CountFirst(KidVisible(lang), it.parent, k)
  {
    var visible := KidVisible(lang)(it.parent, k);
    assert visible == (it.parent.kids[k].info.visible || AliasAt(lang, it.parent, k) != 0);
  }

  lemma NextPosition(lang: Language, it: ChildIterator, start: Length, k: nat)
    requires k == it.childIndex && k + 1 < |it.parent.kids|
    requires it.position == Add(Add(start, SizeOfFirst(it.parent.kids, k)), it.parent.kids[k].info.padding)
    ensures Next(lang, it).2.position ==
            Add(Add(start, SizeOfFirst(it.parent.kids, k + 1)), it.parent.kids[k + 1].info.padding)
  {
    NextStart(start, SizeOfFirst(it.parent.kids, k), it.parent.kids[k].info);
  }

  /** What the iterator yields is the truth about the child, and it moves on to the next one. */
  lemma NextIsTrue(lang: Language, root: Tree, before: Length, path: Path, it: ChildIterator, k: nat)
    requires IteratorAt(lang, root, before, path, it, k) && k < |it.parent.kids| && CountsRight(lang, it.parent.kids[k])
    ensures var (entry, visible, next) := Next(lang, it);
            && EntryIs(lang, root, before, entry, path + [k])
            && visible == KidVisible(lang)(it.parent, k)
            && IteratorAt(lang, root, before, path, next, k + 1)
            && entry.tree == it.parent.kids[k]
  {
    ChildIndexAndStart(lang, root, path, k, before);
    StructuralSnoc(root, path, k);
    NextIndex(lang, it, k);
    if k + 1 < |it.parent.kids| {
      NextPosition(lang, it, BeforeNode(root, path, before), k);
    }
  }

  lemma NothingBeforeFirst(lang: Language, t: Tree)
    ensures StructuralIndex(t.kids, 0) == 0 && CountFirst(KidVisible(lang), t, 0) == 0
  {
  }

  lemma FirstStart(kids: seq<Tree>, start: Length)
    ensures Add(start, SizeOfFirst(kids, 0)) == start
  {
    AddIsMonoid(start, ZERO, ZERO);
  }

  /** An iterator over the children of the top entry. */
  lemma IteratorStarts(lang: Language, root: Tree, before: Length, path: Path, entry: CursorEntry)
    requires ValidPath(root, path) && entry.tree == NodeAt(root, path)
    requires entry.position == StartOfNode(root, path, before) &&
             entry.descendantIndex == DescendantIndex(lang, root, path)
    requires entry.tree.kids != [] && entry.tree.info.padding == entry.tree.kids[0].info.padding
    ensures IteratorAt(lang, root, before, path,
                       ChildIterator(entry.tree, entry.position, 0, 0,
                                     entry.descendantIndex + if VisibleAt(lang, root, path) then 1 else 0), 0)
  {
    NothingBeforeFirst(lang, entry.tree);
    FirstStart(entry.tree.kids, BeforeNode(root, path, before));
  }

  /** An entry says where an iterator over its siblings has to resume. */
  lemma IteratorResumes(lang: Language, root: Tree, before: Length, entry: CursorEntry, path: Path)
    requires EntryIs(lang, root, before, entry, path) && path != []
    ensures ValidPath(root, path[..|path| - 1]) && path[|path| - 1] < |NodeAt(root, path[..|path| - 1]).kids|
    ensures IteratorAt(lang, root, before, path[..|path| - 1],
                       ChildIterator(NodeAt(root, path[..|path| - 1]), entry.position, entry.childIndex,
                                     entry.structuralChildIndex, entry.descendantIndex), path[|path| - 1])
  {
    var above, k := path[..|path| - 1], path[|path| - 1];
    PathInit(root, path);
    assert path == above + [k];
    ChildIndexAndStart(lang, root, above, k, before);
    StructuralSnoc(root, above, k);
  }

  // ---- First and last children ----

  /** Can a move to a child stop at, or go through, the `k`th one? */
  predicate Leads(lang: Language, t: Tree, k: nat)
    requires k < |t.kids|
  {
    ChildrenOfKid(lang, t, k) != []
  }

  ghost predicate NoneLead(lang: Language, t: Tree, from: nat, to: nat) {
    to <= |t.kids| && forall j {:trigger Leads(lang, t, j)} :: from <= j < to ==> !Leads(lang, t, j)
  }

  lemma NoneLeadGrows(lang: Language, t: Tree, from: nat, k: nat)
    requires k < |t.kids| && NoneLead(lang, t, from, k) && !Leads(lang, t, k)
    ensures NoneLead(lang, t, from, k + 1)
  {
  }

  lemma {:induction false} NoneLeads(lang: Language, t: Tree, k: nat, m: nat)
    requires k <= m && NoneLead(lang, t, k, m)
    ensures ChildrenFrom(lang, t, k) == ChildrenFrom(lang, t, m)
    ensures m == |t.kids| ==> ChildrenFrom(lang, t, k) == []
    decreases m - k
  {
    if k < m {
      assert !Leads(lang, t, k);
      NoneLeads(lang, t, k + 1, m);
    }
  }

  lemma ChildrenStep(lang: Language, t: Tree, k: nat)
    requires k < |t.kids|
    ensures ChildrenFrom(lang, t, k) == ChildrenOfKid(lang, t, k) + ChildrenFrom(lang, t, k + 1)
  {
  }

  /** The list ends with what the last child that leads anywhere shows last. */
  lemma {:induction false} LastLeads(lang: Language, t: Tree, k: nat, last: nat)
    requires k <= last && IsLastLead(lang, t, last)
    ensures ChildrenFrom(lang, t, k) != [] && Last(ChildrenFrom(lang, t, k)) == Last(ChildrenOfKid(lang, t, last))
    decreases last - k
  {
    ChildrenStep(lang, t, k);
    if k < last {
      LastLeads(lang, t, k + 1, last);
    } else {
      NoneLeads(lang, t, last + 1, |t.kids|);
      assert ChildrenOfKid(lang, t, last) + [] == ChildrenOfKid(lang, t, last);
    }
  }

  /** `k` is the first child from the `from`th on that leads anywhere. */
  ghost predicate FirstLead(lang: Language, t: Tree, from: nat, k: nat) {
    from <= k < |t.kids| && Leads(lang, t, k) && NoneLead(lang, t, from, k)
  }

  lemma FirstOfList(lang: Language, t: Tree, from: nat, k: nat)
    requires FirstLead(lang, t, from, k)
    ensures ChildrenFrom(lang, t, from) != [] && ChildrenFrom(lang, t, from)[0] == ChildrenOfKid(lang, t, k)[0]
  {
    NoneLeads(lang, t, from, k);
  }

  ghost predicate IsLastLead(lang: Language, t: Tree, last: nat) {
    last < |t.kids| && Leads(lang, t, last) && NoneLead(lang, t, last + 1, |t.kids|)
  }

  function Last(list: seq<Path>): Path
    requires list != []
  {
    list[|list| - 1]
  }

  /** On the way down to the first (or last) of `list`: `below` has been walked, and `here` lists
      what is still ahead. */
  ghost predicate OnTheWay(list: seq<Path>, below: Path, here: seq<Path>, first: bool) {
    && (list == [] <==> here == [])
    && (list != [] ==> if first then list[0] == below + here[0] else Last(list) == below + Last(here))
  }

  lemma OnTheWayDown(lang: Language, t: Tree, list: seq<Path>, below: Path, k: nat, first: bool)
    requires OnTheWay(list, below, VisibleChildren(lang, t), first)
    requires if first then FirstLead(lang, t, 0, k) else IsLastLead(lang, t, k)
    ensures list != []
    ensures KidVisible(lang)(t, k) ==> below + [k] == if first then list[0] else Last(list)
    ensures !KidVisible(lang)(t, k) ==>
              OnTheWay(list, below + [k], VisibleChildren(lang, t.kids[k]), first) &&
              VisibleChildren(lang, t.kids[k]) != []
  {
    var shown := ChildrenOfKid(lang, t, k);
    if first {
      FirstOfList(lang, t, 0, k);
      assert shown != [] && VisibleChildren(lang, t)[0] == shown[0];
    } else {
      LastLeads(lang, t, 0, k);
      assert shown != [] && Last(VisibleChildren(lang, t)) == Last(shown);
    }
  }

  // ---- Siblings ----

  /** The visible children of `t` that come after the node at `path` below it. */
  ghost function ChildrenAfter(lang: Language, t: Tree, path: Path): seq<Path>
    requires ValidPath(t, path) && path != []
    decreases |path|
  {
    (if |path| == 1 then [] else Prefixed(path[0], ChildrenAfter(lang, t.kids[path[0]], path[1..]))) +
    ChildrenFrom(lang, t, path[0] + 1)
  }

  /** Is the node at `path` one of the visible children of `t`? */
  ghost predicate IsVisibleChild(lang: Language, t: Tree, path: Path)
    requires ValidPath(t, path)
    decreases |path|
  {
    path != [] && if |path| == 1 then KidVisible(lang)(t, path[0])
                  else !KidVisible(lang)(t, path[0]) && IsVisibleChild(lang, t.kids[path[0]], path[1..])
  }

  /** `list` holds `path` at `i`, and `after` behind it. */
  ghost predicate HeldAt(list: seq<Path>, path: Path, after: seq<Path>, i: nat) {
    i < |list| && list[i] == path && list[i + 1..] == after
  }

  lemma HeldInMiddle(front: seq<Path>, list: seq<Path>, back: seq<Path>, path: Path, after: seq<Path>, i: nat)
    requires HeldAt(list, path, after, i)
    ensures HeldAt(front + list + back, path, after + back, |front| + i)
  {
    var all := front + list + back;
    assert all[|front| + i] == list[i];
    assert all[|front| + i + 1..] == list[i + 1..] + back;
  }

  lemma HeldPrefixed(k: nat, list: seq<Path>, path: Path, after: seq<Path>, i: nat)
    requires HeldAt(list, path, after, i)
    ensures HeldAt(Prefixed(k, list), [k] + path, Prefixed(k, after), i)
  {
    assert Prefixed(k, list)[i + 1..] == Prefixed(k, list[i + 1..]);
  }

  lemma ListAround(lang: Language, t: Tree, k: nat) returns (front: seq<Path>)
    requires k < |t.kids|
    ensures VisibleChildren(lang, t) == front + ChildrenOfKid(lang, t, k) + ChildrenFrom(lang, t, k + 1)
  {
    ChildrenSplit(lang, t, k);
    front := VisibleChildren(lang, t)[..ChildrenFirst(lang, t, k)];
    assert VisibleChildren(lang, t) == front + ChildrenFrom(lang, t, k);
    assert front + (ChildrenOfKid(lang, t, k) + ChildrenFrom(lang, t, k + 1)) ==
      front + ChildrenOfKid(lang, t, k) + ChildrenFrom(lang, t, k + 1);
  }

  /** The visible children after a visible child are those behind it in the list. */
  lemma {:induction false} AfterInList(lang: Language, t: Tree, path: Path) returns (i: nat)
    requires ValidPath(t, path) && IsVisibleChild(lang, t, path)
    ensures HeldAt(VisibleChildren(lang, t), path, ChildrenAfter(lang, t, path), i)
    decreases |path|
  {
    var k, rest := path[0], path[1..];
    var front := ListAround(lang, t, k);
    var back := ChildrenFrom(lang, t, k + 1);
    assert path == [k] + rest;
    if rest == [] {
      assert path == [k];
      HeldInMiddle(front, [path], back, path, [], 0);
      i := |front|;
    } else {
      var j := AfterInList(lang, t.kids[k], rest);
      HeldPrefixed(k, VisibleChildren(lang, t.kids[k]), rest, ChildrenAfter(lang, t.kids[k], rest), j);
      HeldInMiddle(front, ChildrenOfKid(lang, t, k), back, path, Prefixed(k, ChildrenAfter(lang, t.kids[k], rest)), j);
      i := |front| + j;
    }
  }

  /** How far up the nearest visible ancestor is. */
  ghost function ParentLength(lang: Language, root: Tree, path: Path): (n: nat)
    requires ValidPath(root, path) && path != []
    ensures n < |path| && ValidPath(root, path[..n]) && VisibleAt(lang, root, path[..n])
    decreases |path|
  {
    PathInit(root, path);
    var init := path[..|path| - 1];
    if VisibleAt(lang, root, init) then |path| - 1
    else
      var n := ParentLength(lang, root, init);
      assert path[..n] == init[..n];
      n
  }

  /** The nearest visible ancestor is the first that a walk upwards meets. */
  lemma {:induction false} ParentIsNearest(lang: Language, root: Tree, path: Path, i: nat)
    requires ValidPath(root, path) && path != [] && i < |path| && ValidPath(root, path[..i])
    requires ParentLength(lang, root, path) <= i && VisibleAt(lang, root, path[..i])
    ensures ParentLength(lang, root, path) == i
    decreases |path|
  {
    PathInit(root, path);
    var init := path[..|path| - 1];
    if !VisibleAt(lang, root, init) {
      assert path[..|path| - 1] == init;
      assert i < |init|;
      assert init[..i] == path[..i];
      ParentIsNearest(lang, root, init, i);
    }
  }

  lemma {:induction false} PathSplit(t: Tree, path: Path, n: nat)
    requires ValidPath(t, path) && n <= |path|
    ensures ValidPath(t, path[..n]) && ValidPath(NodeAt(t, path[..n]), path[n..])
    decreases n
  {
    if n > 0 {
      PathSplit(t.kids[path[0]], path[1..], n - 1);
      assert path[..n][1..] == path[1..][..n - 1] && path[n..] == path[1..][n - 1..];
    } else {
      assert path[..0] == [] && path[0..] == path;
    }
  }

  /** The visible nodes after the one at `path`, within its ancestor `n` steps from the root. */
  ghost function AfterWithin(lang: Language, root: Tree, path: Path, n: nat): seq<Path>
    requires ValidPath(root, path) && n < |path|
  {
    PathSplit(root, path, n);
    ChildrenAfter(lang, NodeAt(root, path[..n]), path[n..])
  }

  lemma AfterStep(lang: Language, root: Tree, path: Path, m: nat)
    requires ValidPath(root, path) && m < |path|
    ensures ValidPath(root, path[..m]) && path[m] < |NodeAt(root, path[..m]).kids|
    ensures AfterWithin(lang, root, path, m) ==
            (if m + 1 == |path| then [] else Prefixed(path[m], AfterWithin(lang, root, path, m + 1))) +
            ChildrenFrom(lang, NodeAt(root, path[..m]), path[m] + 1)
  {
    PathSplit(root, path, m);
    PathSplit(root, path, m + 1);
    assert path[m..][0] == path[m] && path[m..][1..] == path[m + 1..];
    PathInit(root, path[..m + 1]);
    assert path[..m + 1][..m] == path[..m];
  }

  lemma FirstOneUp(lang: Language, root: Tree, path: Path, n: nat)
    requires ValidPath(root, path) && n + 1 < |path| && AfterWithin(lang, root, path, n + 1) != []
    ensures AfterWithin(lang, root, path, n) != []
    ensures path[..n] + AfterWithin(lang, root, path, n)[0] == path[..n + 1] + AfterWithin(lang, root, path, n + 1)[0]
  {
    AfterStep(lang, root, path, n);
    var first := AfterWithin(lang, root, path, n + 1)[0];
    assert AfterWithin(lang, root, path, n)[0] == [path[n]] + first;
    assert path[..n + 1] == path[..n] + [path[n]];
    assert path[..n] + ([path[n]] + first) == path[..n] + [path[n]] + first;
  }

  /** The first of them is the first within the lowest ancestor that has any. */
  lemma {:induction false} AfterFirst(lang: Language, root: Tree, path: Path, n: nat, m: nat)
    requires ValidPath(root, path) && n <= m < |path| && AfterWithin(lang, root, path, m) != []
    ensures AfterWithin(lang, root, path, n) != []
    ensures path[..n] + AfterWithin(lang, root, path, n)[0] == path[..m] + AfterWithin(lang, root, path, m)[0]
    decreases m - n
  {
    if n < m {
      AfterFirst(lang, root, path, n + 1, m);
      FirstOneUp(lang, root, path, n);
    }
  }

  /** Does the nearest visible ancestor have a visible child after the node at `path`? */
  ghost predicate HasNextSibling(lang: Language, root: Tree, path: Path)
    requires ValidPath(root, path)
  {
    path != [] && AfterWithin(lang, root, path, ParentLength(lang, root, path)) != []
  }

  ghost predicate IsNextSibling(lang: Language, root: Tree, path: Path, next: Path)
    requires ValidPath(root, path)
  {
    && HasNextSibling(lang, root, path)
    && var n := ParentLength(lang, root, path);
    && next == path[..n] + AfterWithin(lang, root, path, n)[0]
  }

  /** A search for the next sibling of the node at `path` has climbed to its ancestor `here`:
      nothing visible follows `path` below there, and the visible parent has not been passed. */
  ghost predicate Climbing(lang: Language, root: Tree, path: Path, here: Path) {
    && ValidPath(root, path) && here <= path && ValidPath(root, here)
    && (path != [] ==> ParentLength(lang, root, path) <= |here|)
    && (|here| < |path| ==> AfterWithin(lang, root, path, |here|) == [])
  }

  /** The visible nodes among the later siblings of the node at `path`, as seen from its parent. */
  ghost function LaterSiblings(lang: Language, root: Tree, path: Path): seq<Path>
    requires ValidPath(root, path) && path != []
  {
    PathInit(root, path);
    ChildrenFrom(lang, NodeAt(root, path[..|path| - 1]), path[|path| - 1] + 1)
  }

  lemma FirstLater(lang: Language, root: Tree, path: Path, k: nat)
    requires ValidPath(root, path) && path != [] && ValidPath(root, path[..|path| - 1])
    requires FirstLead(lang, NodeAt(root, path[..|path| - 1]), path[|path| - 1] + 1, k)
    ensures LaterSiblings(lang, root, path) != []
    ensures LaterSiblings(lang, root, path)[0] == ChildrenOfKid(lang, NodeAt(root, path[..|path| - 1]), k)[0]
  {
    FirstOfList(lang, NodeAt(root, path[..|path| - 1]), path[|path| - 1] + 1, k);
  }

  /** One level up, what follows is what the later siblings there have to show. */
  lemma LaterAreAfter(lang: Language, root: Tree, path: Path, here: Path)
    requires Climbing(lang, root, path, here) && here != []
    ensures AfterWithin(lang, root, path, |here| - 1) == LaterSiblings(lang, root, here)
  {
    var m := |here| - 1;
    assert here[..m] == path[..m] && here[m] == path[m];
    AfterStep(lang, root, path, m);
  }

  lemma ClimbsOn(lang: Language, root: Tree, path: Path, here: Path)
    requires Climbing(lang, root, path, here) && here != []
    requires |here| < |path| ==> !VisibleAt(lang, root, here)
    ensures ValidPath(root, here[..|here| - 1])
    ensures var after := LaterSiblings(lang, root, here);
            && (after == [] ==> Climbing(lang, root, path, here[..|here| - 1]))
            && (after != [] ==> IsNextSibling(lang, root, path, here[..|here| - 1] + after[0]))
  {
    var m := |here| - 1;
    PathInit(root, here);
    LaterAreAfter(lang, root, path, here);
    assert here[..m] == path[..m] && here == path[..|here|];
    if AfterWithin(lang, root, path, m) != [] {
      AfterFirst(lang, root, path, ParentLength(lang, root, path), m);
    }
  }

  /** The climb is over at the visible parent. */
  lemma NoSibling(lang: Language, root: Tree, path: Path, here: Path)
    requires Climbing(lang, root, path, here) && VisibleAt(lang, root, here)
    requires |here| < |path| || path == []
    ensures !HasNextSibling(lang, root, path)
  {
    if path != [] {
      assert here == path[..|here|];
      ParentIsNearest(lang, root, path, |here|);
    }
  }

  /** A visible node is a visible child of its nearest visible ancestor, so what comes after it
      there is what comes after it in the list of that ancestor's children. */
  lemma NextInList(lang: Language, root: Tree, path: Path) returns (i: nat)
    requires ValidPath(root, path) && path != [] && VisibleAt(lang, root, path)
    ensures var n := ParentLength(lang, root, path);
            HeldAt(VisibleChildren(lang, NodeAt(root, path[..n])), path[n..], AfterWithin(lang, root, path, n), i)
  {
    var n := ParentLength(lang, root, path);
    PathSplit(root, path, n);
    IsChildOfAncestor(lang, root, path, n);
    i := AfterInList(lang, NodeAt(root, path[..n]), path[n..]);
  }

  /** The `n`th step of a path, as its own visibility and what comes below. */
  lemma StepAt(lang: Language, root: Tree, path: Path, n: nat)
    requires ValidPath(root, path) && n < |path|
    ensures ValidPath(root, path[..n]) && ValidPath(root, path[..n + 1])
    ensures path[n] < |NodeAt(root, path[..n]).kids|
    ensures NodeAt(root, path[..n + 1]) == NodeAt(root, path[..n]).kids[path[n]]
    ensures VisibleAt(lang, root, path[..n + 1]) == KidVisible(lang)(NodeAt(root, path[..n]), path[n])
  {
    PathSplit(root, path, n);
    PathSplit(root, path, n + 1);
    PathInit(root, path[..n + 1]);
    assert path[..n + 1][..n] == path[..n] && path[..n] + [path[n]] == path[..n + 1];
    ShownSnoc(KidVisible(lang), root, path[..n], path[n]);
  }

  lemma {:induction false} IsChildOfAncestor(lang: Language, root: Tree, path: Path, n: nat)
    requires ValidPath(root, path) && path != [] && VisibleAt(lang, root, path)
    requires ParentLength(lang, root, path) <= n < |path|
    ensures ValidPath(root, path[..n]) && ValidPath(NodeAt(root, path[..n]), path[n..])
    ensures IsVisibleChild(lang, NodeAt(root, path[..n]), path[n..])
    decreases |path| - n
  {
    PathSplit(root, path, n);
    StepAt(lang, root, path, n);
    if n + 1 == |path| {
      assert path[..n + 1] == path && path[n..] == [path[n]];
    } else {
      IsChildOfAncestor(lang, root, path, n + 1);
      HiddenBetween(lang, root, path, n + 1);
      assert path[n..][1..] == path[n + 1..];
    }
  }

  /** Between a node and its nearest visible ancestor everything is hidden. */
  lemma {:induction false} HiddenBetween(lang: Language, root: Tree, path: Path, j: nat)
    requires ValidPath(root, path) && path != [] && ParentLength(lang, root, path) < j < |path|
    ensures ValidPath(root, path[..j]) && !VisibleAt(lang, root, path[..j])
    decreases |path|
  {
    PathSplit(root, path, j);
    PathInit(root, path);
    var init := path[..|path| - 1];
    if j < |init| {
      HiddenBetween(lang, root, init, j);
      assert init[..j] == path[..j];
    } else {
      assert path[..j] == init;
    }
  }

  // ---- Going to a node by its index ----

  /** Is the `goal`th visible node the one at `path` or below it? */
  ghost predicate Contains(lang: Language, root: Tree, path: Path, goal: nat)
    requires ValidPath(root, path)
  {
    DescendantIndex(lang, root, path) <= goal < EndIndex(lang, root, path)
  }

  /** The index of the first visible node after the subtree at `path`. */
  ghost function EndIndex(lang: Language, root: Tree, path: Path): nat
    requires ValidPath(root, path)
  {
    DescendantIndex(lang, root, path) + (if VisibleAt(lang, root, path) then 1 else 0)
      + |VisibleBelowList(lang, NodeAt(root, path))|
  }

  lemma ContainsInRange(lang: Language, root: Tree, path: Path, goal: nat)
    requires ValidPath(root, path)
    ensures Contains(lang, root, path, goal) ==> goal < |Preorder(lang, root)|
    ensures Contains(lang, root, [], goal) <==> goal < |Preorder(lang, root)|
  {
    if path != [] {
      SubtreeFits(KidVisible(lang), root, path);
    }
  }

  /** A visible node with the right index is the one that was asked for. */
  lemma GoalReached(lang: Language, root: Tree, path: Path, goal: nat)
    requires ValidPath(root, path) && VisibleAt(lang, root, path) && DescendantIndex(lang, root, path) == goal
    ensures goal < |Preorder(lang, root)| && path == Preorder(lang, root)[goal]
  {
    if path != [] {
      ListedAtIndex(KidVisible(lang), root, path);
      assert Preorder(lang, root)[goal] == VisibleBelowList(lang, root)[goal - 1];
    }
  }

  /** The iterator's index after the `k`th child is where that child's subtree ends. */
  lemma IteratorPasses(lang: Language, root: Tree, before: Length, path: Path, entry: CursorEntry, next: ChildIterator,
                       k: nat)
    requires IteratorAt(lang, root, before, path, next, k + 1) && EntryIs(lang, root, before, entry, path + [k])
    ensures next.descendantIndex == EndIndex(lang, root, path + [k])
    ensures forall goal :: entry.descendantIndex <= goal < next.descendantIndex ==>
              Contains(lang, root, path + [k], goal)
  {
    ChildIndexAndStart(lang, root, path, k, before);
  }

  /** After the last child the iterator's index is where the whole subtree ends. */
  lemma IteratorAtEnd(lang: Language, root: Tree, before: Length, path: Path, next: ChildIterator, goal: nat)
    requires IteratorAt(lang, root, before, path, next, |next.parent.kids|)
    ensures Contains(lang, root, path, goal) ==> goal < next.descendantIndex
  {
    ListSplits(KidVisible(lang), next.parent, |next.parent.kids|);
  }
}
