/** A cursor that walks a syntax tree by its cached counts. Models tree_cursor.c. */
module TreeCursor {
  import opened Lengths
  import opened SyntaxTrees
  import opened Summaries
  import opened VisibleTrees
  import opened TreePaths
  import opened VisibleLists
  import opened CursorSpec

  datatype Step = NoStep | Hidden | Shown

  /** The last of the first `k` children that leads anywhere. */
  ghost predicate LastSoFar(lang: Language, t: Tree, k: nat, step: Step, last: nat) {
    k <= |t.kids| &&
    if step.NoStep? then NoneLead(lang, t, 0, k)
    else
      last < k && Leads(lang, t, last) && NoneLead(lang, t, last + 1, k) &&
      (step.Shown? <==> KidVisible(lang)(t, last))
  }

  lemma LastGrows(lang: Language, t: Tree, k: nat, step: Step, last: nat)
    requires LastSoFar(lang, t, k, step, last) && k < |t.kids|
    ensures !Leads(lang, t, k) ==> LastSoFar(lang, t, k + 1, step, last)
    ensures Leads(lang, t, k) ==> LastSoFar(lang, t, k + 1, if KidVisible(lang)(t, k) then Shown else Hidden, k)
  {
    if !Leads(lang, t, k) {
      NoneLeadGrows(lang, t, if step.NoStep? then 0 else last + 1, k);
    }
  }

  class TreeCursor {
    const lang: Language
    ghost const root: Tree
    /** Where the root's padding begins. */
    ghost const before: Length
    var stack: seq<CursorEntry>
    /** Where the cursor is: the child indices of the entries. */
    ghost var here: Path

    ghost predicate Valid()
      reads this
    {
      && AllCounted(lang, root) && StackOk(lang, root, before, stack)
      && here == PathOf(stack) && ValidPath(root, here)
    }

    /** Between two moves the cursor is always at a visible node. */
    ghost predicate Ready()
      reads this
    {
      Valid() && VisibleAt(lang, root, here)
    }

    constructor (lang: Language, root: Tree, position: Length, ghost before: Length)
      requires AllCounted(lang, root) && position == Add(before, root.info.padding)
      ensures Ready() && here == [] && this.lang == lang && this.root == root && this.before == before
    {
      this.lang, this.root, this.before := lang, root, before;
      stack, here := [CursorEntry(root, position, 0, 0, 0)], [];
      new;
      forall k: nat
        ensures EntryOk(lang, root, before, stack, k)
      {
      }
    }

    function IsEntryVisible(index: nat): bool
      requires index < |stack|
      reads this
    {
      index == 0 || stack[index].tree.info.visible ||
      AliasOf(lang, stack[index - 1].tree.info.productionId, stack[index].tree.info,
              stack[index].structuralChildIndex) != 0
    }

    lemma EntryVisibleIff(index: nat)
      requires Valid() && index < |stack|
      ensures ValidPath(root, PathOf(stack)[..index])
      ensures IsEntryVisible(index) <==> VisibleAt(lang, root, PathOf(stack)[..index])
    {
      assert EntryOk(lang, root, before, stack, index);
      if index > 0 {
        assert EntryOk(lang, root, before, stack, index - 1);
        var above, k := PathOf(stack)[..index - 1], PathOf(stack)[index - 1];
        assert PathOf(stack)[..index] == above + [k];
        PathInit(root, PathOf(stack)[..index]);
        ShownSnoc(KidVisible(lang), root, above, k);
        StructuralSnoc(root, above, k);
      }
    }

    /** An iterator over the children of the top entry, which has some. */
    method IterateChildren() returns (it: ChildIterator)
      requires Valid() && stack[|stack| - 1].tree.kids != []
      ensures IteratorAt(lang, root, before, here, it, 0) && it.parent == stack[|stack| - 1].tree
    {
      var top := stack[|stack| - 1];
      EntryVisibleIff(|stack| - 1);
      TopIs(lang, root, before, stack);
      assert PathOf(stack)[..|stack| - 1] == PathOf(stack);
      it := ChildIterator(top.tree, top.position, 0, 0,
                          top.descendantIndex + if IsEntryVisible(|stack| - 1) then 1 else 0);
      assert CountedAt(lang, root, PathOf(stack)) && top.tree == NodeAt(root, PathOf(stack));
      IteratorStarts(lang, root, before, PathOf(stack), top);
    }

    /** The iterator's next child: the truth about it, and whether a move can stop there. */
    method Advance(it: ChildIterator, ghost path: Path, ghost k: nat)
      returns (entry: CursorEntry, visible: bool, next: ChildIterator)
      requires AllCounted(lang, root) && IteratorAt(lang, root, before, path, it, k) && k < |it.parent.kids|
      ensures EntryIs(lang, root, before, entry, path + [k]) && entry.tree == it.parent.kids[k]
      ensures entry.descendantIndex == it.descendantIndex
      ensures visible == KidVisible(lang)(it.parent, k) == VisibleAt(lang, root, path + [k])
      ensures Leads(lang, it.parent, k) <==> visible || ChildCount(entry.tree) > 0
      ensures IteratorAt(lang, root, before, path, next, k + 1) && next.parent == it.parent
    {
      KidCountsRight(lang, root, path, k);
      NextIsTrue(lang, root, before, path, it, k);
      ChildIndexAndStart(lang, root, path, k, before);
      var result := Next(lang, it);
      entry, visible, next := result.0, result.1, result.2;
    }

    method Push(entry: CursorEntry, ghost k: nat)
      requires Valid() && EntryIs(lang, root, before, entry, here + [k])
      modifies this`stack, this`here
      ensures Valid() && stack == old(stack) + [entry] && here == old(here) + [k]
    {
      StackPushed(lang, root, before, stack, entry, k);
      stack, here := stack + [entry], here + [k];
    }

    method Truncate(n: nat)
      requires Valid() && 0 < n <= |stack|
      modifies this`stack, this`here
      ensures Valid() && stack == old(stack)[..n] && here == old(here)[..n - 1]
    {
      StackPrefix(lang, root, before, stack, n);
      TopIs(lang, root, before, stack[..n]);
      stack, here := stack[..n], here[..n - 1];
    }

    /** The first child from the iterator on that is visible or has visible children. */
    method Scan(it: ChildIterator, ghost path: Path, ghost from: nat)
      returns (step: Step, entry: CursorEntry, ghost k: nat)
      requires stack != [] && AllCounted(lang, root) && IteratorAt(lang, root, before, path, it, from)
      ensures step.NoStep? ==> ChildrenFrom(lang, it.parent, from) == []
      ensures !step.NoStep? ==>
                && FirstLead(lang, it.parent, from, k) && EntryIs(lang, root, before, entry, path + [k])
                && (step.Shown? <==> VisibleAt(lang, root, path + [k]))
                && (step.Shown? <==> KidVisible(lang)(it.parent, k))
    {
      var next := it;
      k, step, entry := from, NoStep, stack[0];
      while next.childIndex < |it.parent.kids|
        invariant from <= k <= |it.parent.kids| && next.parent == it.parent &&
                  IteratorAt(lang, root, before, path, next, k)
        invariant NoneLead(lang, it.parent, from, k)
        decreases |it.parent.kids| - next.childIndex
      {
        var visible;
        entry, visible, next := Advance(next, path, k);
        if visible {
          return Shown, entry, k;
        }
        if ChildCount(entry.tree) > 0 {
          return Hidden, entry, k;
        }
        NoneLeadGrows(lang, it.parent, from, k);
        k := k + 1;
      }
      NoneLeads(lang, it.parent, from, |it.parent.kids|);
    }

    /** Goes to the first child that is visible or has visible children. */
    method GotoFirstChildStep() returns (step: Step, ghost k: nat)
      requires Valid()
      modifies this`stack, this`here
      ensures Valid()
      ensures step.NoStep? ==> stack == old(stack) && VisibleChildren(lang, NodeAt(root, old(here))) == []
      ensures !step.NoStep? ==>
                && here == old(here) + [k] && FirstLead(lang, NodeAt(root, old(here)), 0, k)
                && (step.Shown? <==> VisibleAt(lang, root, here))
                && (step.Shown? <==> KidVisible(lang)(NodeAt(root, old(here)), k))
    {
      step, k := NoStep, 0;
      TopIs(lang, root, before, stack);
      if stack[|stack| - 1].tree.kids != [] {
        var it := IterateChildren();
        var entry;
        step, entry, k := Scan(it, here, 0);
        if !step.NoStep? {
          Push(entry, k);
        }
      }
    }

    /** Goes to the first visible child, if there is one. */
    method GotoFirstChild() returns (ok: bool)
      requires Valid()
      modifies this`stack, this`here
      ensures Valid()
      ensures var list := VisibleChildren(lang, NodeAt(root, old(here)));
              && ok == (list != [])
              && (ok ==> here == old(here) + list[0] && Ready())
              && (!ok ==> stack == old(stack))
    {
      ghost var path, list := here, VisibleChildren(lang, NodeAt(root, here));
      ghost var below: Path := [];
      while true
        invariant Valid() && here == path + below
        invariant if below == [] then stack == old(stack) else list != []
        invariant OnTheWay(list, below, VisibleChildren(lang, NodeAt(root, here)), true)
        decreases NodeAt(root, here)
      {
        ghost var spot := here;
        ghost var k;
        var step;
        step, k := GotoFirstChildStep();
        if step.NoStep? {
          return false;
        }
        PathSnoc(root, spot, k);
        OnTheWayDown(lang, NodeAt(root, spot), list, below, k, true);
        below := below + [k];
        assert path + below == spot + [k];
        if step.Shown? {
          return true;
        }
      }
    }

    /** The last child that is visible or has visible children. */
    method ScanToLast(it: ChildIterator, ghost path: Path) returns (step: Step, lastEntry: CursorEntry, ghost last: nat)
      requires stack != [] && AllCounted(lang, root) && IteratorAt(lang, root, before, path, it, 0)
      ensures step.NoStep? ==> VisibleChildren(lang, it.parent) == []
      ensures !step.NoStep? ==>
                && IsLastLead(lang, it.parent, last) && EntryIs(lang, root, before, lastEntry, path + [last])
                && (step.Shown? <==> VisibleAt(lang, root, path + [last]))
                && (step.Shown? <==> KidVisible(lang)(it.parent, last))
    {
      var next := it;
      ghost var k := 0;
      step, last, lastEntry := NoStep, 0, stack[0];
      while next.childIndex < |it.parent.kids|
        invariant k <= |it.parent.kids| && Yields(lang, root, before, path, it.parent, next, k)
        invariant LastSoFar(lang, it.parent, k, step, last)
        invariant !step.NoStep? ==>
                    EntryIs(lang, root, before, lastEntry, path + [last]) &&
                    (step.Shown? <==> VisibleAt(lang, root, path + [last]))
        decreases |it.parent.kids| - next.childIndex
      {
        var entry, visible;
        entry, visible, next := Advance(next, path, k);
        LastGrows(lang, it.parent, k, step, last);
        if visible {
          lastEntry, step, last := entry, Shown, k;
        } else if ChildCount(entry.tree) > 0 {
          lastEntry, step, last := entry, Hidden, k;
        }
        k := k + 1;
      }
      if step.NoStep? {
        NoneLeads(lang, it.parent, 0, |it.parent.kids|);
      }
    }

    /** Goes to the last child that is visible or has visible children. */
    method GotoLastChildStep() returns (step: Step, ghost last: nat)
      requires Valid()
      modifies this`stack, this`here
      ensures Valid()
      ensures step.NoStep? ==> stack == old(stack) && VisibleChildren(lang, NodeAt(root, old(here))) == []
      ensures !step.NoStep? ==>
                && here == old(here) + [last] && IsLastLead(lang, NodeAt(root, old(here)), last)
                && (step.Shown? <==> VisibleAt(lang, root, here))
                && (step.Shown? <==> KidVisible(lang)(NodeAt(root, old(here)), last))
    {
      step, last := NoStep, 0;
      TopIs(lang, root, before, stack);
      if stack[|stack| - 1].tree.kids != [] {
        var it := IterateChildren();
        var entry;
        step, entry, last := ScanToLast(it, here);
        if !step.NoStep? {
          Push(entry, last);
        }
      }
    }

    /** Goes to the last visible child, if there is one. */
    method GotoLastChild() returns (ok: bool)
      requires Valid()
      modifies this`stack, this`here
      ensures Valid()
      ensures var list := VisibleChildren(lang, NodeAt(root, old(here)));
              && ok == (list != [])
              && (ok ==> here == old(here) + list[|list| - 1] && Ready())
              && (!ok ==> stack == old(stack))
    {
      ghost var path, list := here, VisibleChildren(lang, NodeAt(root, here));
      ghost var below: Path := [];
      while true
        invariant Valid() && here == path + below
        invariant if below == [] then stack == old(stack) else list != []
        invariant OnTheWay(list, below, VisibleChildren(lang, NodeAt(root, here)), false)
        decreases NodeAt(root, here)
      {
        ghost var spot := here;
        ghost var k;
        var step;
        step, k := GotoLastChildStep();
        if step.NoStep? {
          return false;
        }
        PathSnoc(root, spot, k);
        OnTheWayDown(lang, NodeAt(root, spot), list, below, k, false);
        below := below + [k];
        assert path + below == spot + [k];
        if step.Shown? {
          return true;
        }
      }
    }

    /** Goes to the nearest visible ancestor; only the root has none. */
    method GotoParent() returns (ok: bool)
      requires Valid()
      modifies this`stack, this`here
      ensures Valid() && ok == (old(here) != [])
      ensures ok ==> here == old(here)[..ParentLength(lang, root, old(here))] && Ready()
      ensures !ok ==> stack == old(stack)
    {
      ghost var path := here;
      var i := |stack| - 2;
      while i >= 0
        invariant -1 <= i <= |stack| - 2 && stack == old(stack) && path == here && Valid()
        invariant path != [] ==> ParentLength(lang, root, path) <= i
        decreases i
      {
        EntryVisibleIff(i);
        if IsEntryVisible(i) {
          ParentIsNearest(lang, root, path, i);
          Truncate(i + 1);
          return true;
        }
        i := i - 1;
      }
      return false;
    }

    /** Goes to the next visible sibling, or to the first visible node in a hidden one; if the
        nearest visible ancestor has no more children, the cursor stays. */
    method GotoNextSibling() returns (ok: bool)
      requires Ready()
      modifies this`stack, this`here
      ensures Ready()
      ensures ok <==> HasNextSibling(lang, root, old(here))
      ensures ok ==> IsNextSibling(lang, root, old(here), here)
      ensures !ok ==> stack == old(stack)
    {
      var saved := stack;
      ghost var path := here;
      ok := false;
      while |stack| > 1 && !ok
        invariant Valid() && (ok ==> Ready() && IsNextSibling(lang, root, path, here))
        invariant !ok ==> Climbing(lang, root, path, here)
        decreases !ok, |stack|
      {
        EntryVisibleIff(|stack| - 1);
        assert PathOf(stack)[..|here|] == here;
        if IsEntryVisible(|stack| - 1) && |stack| < |saved| {
          break;
        }
        ok := LaterSiblingOf(path);
      }
      if !ok {
        NoSibling(lang, root, path, here);
        stack, here := saved, path;
      }
    }

    /** One level of the climb of GotoNextSibling. */
    method LaterSiblingOf(ghost path: Path) returns (ok: bool)
      requires Valid() && |stack| > 1 && here <= path
      requires Climbing(lang, root, path, here) && (|here| < |path| ==> !VisibleAt(lang, root, here))
      modifies this`stack, this`here
      ensures Valid() && (ok ==> Ready() && IsNextSibling(lang, root, path, here))
      ensures !ok ==> |stack| < |old(stack)| && Climbing(lang, root, path, here)
    {
      ClimbsOn(lang, root, path, here);
      ok := LaterSibling();
    }

    /** Takes the top entry off and puts the next visible node among its later siblings there,
        if they have any. */
    method LaterSibling() returns (ok: bool)
      requires Valid() && |stack| > 1
      modifies this`stack, this`here
      ensures Valid()
      ensures ValidPath(root, old(here)[..|old(here)| - 1])
      ensures LaterSiblings(lang, root, old(here)) == [] ==> !ok && stack == old(stack)[..|old(stack)| - 1]
      ensures LaterSiblings(lang, root, old(here)) != [] ==>
                ok && Ready() && here == old(here)[..|old(here)| - 1] + LaterSiblings(lang, root, old(here))[0]
    {
      ghost var path := here;
      ghost var n := |path| - 1;
      PathInit(root, path);
      var it := Resume();
      var step, entry;
      ghost var k;
      step, entry, k := Scan(it, here, path[n] + 1);
      ok := !step.NoStep?;
      if ok {
        FirstLater(lang, root, path, k);
        PushAndDescend(step, entry, k);
      }
    }

    /** Stops at a visible child, or at the first visible node in a hidden one. */
    method PushAndDescend(step: Step, entry: CursorEntry, ghost k: nat)
      requires Valid() && EntryIs(lang, root, before, entry, here + [k]) && !step.NoStep?
      requires k < |NodeAt(root, here).kids| && Leads(lang, NodeAt(root, here), k)
      requires step.Shown? <==> KidVisible(lang)(NodeAt(root, here), k)
      modifies this`stack, this`here
      ensures Ready() && here == old(here) + ChildrenOfKid(lang, NodeAt(root, old(here)), k)[0]
    {
      ghost var path := here;
      PathSnoc(root, here, k);
      ShownSnoc(KidVisible(lang), root, here, k);
      Push(entry, k);
      if step.Hidden? {
        var _ := GotoFirstChild();
        assert path + [k] + VisibleChildren(lang, NodeAt(root, path).kids[k])[0] ==
          path + ([k] + VisibleChildren(lang, NodeAt(root, path).kids[k])[0]);
      }
    }

    /** Pops the top entry and returns an iterator that stands behind it. */
    method Resume() returns (it: ChildIterator)
      requires Valid() && |stack| > 1
      modifies this`stack, this`here
      ensures Valid() && stack == old(stack)[..|old(stack)| - 1] && here == old(here)[..|old(here)| - 1]
      ensures Yields(lang, root, before, here, stack[|stack| - 1].tree, it, old(here)[|old(here)| - 1] + 1)
    {
      var entry := stack[|stack| - 1];
      ghost var k := here[|here| - 1];
      ghost var path := here[..|here| - 1];
      TopIs(lang, root, before, stack);
      IteratorResumes(lang, root, before, entry, here);
      Truncate(|stack| - 1);
      TopIs(lang, root, before, stack);
      it := ChildIterator(stack[|stack| - 1].tree, entry.position, entry.childIndex, entry.structuralChildIndex,
                          entry.descendantIndex);
      var _, _, next := Advance(it, path, k);
      it := next;
    }

    /** Goes to the `goal`th visible node in document order, the root being the first. Beyond the
        last one it goes to the root. */
    method GotoDescendant(goal: nat)
      requires Ready()
      modifies this`stack, this`here
      ensures Ready()
      ensures goal < |Preorder(lang, root)| ==> here == Preorder(lang, root)[goal]
      ensures goal >= |Preorder(lang, root)| ==> here == []
    {
      var found := Ascend(goal);
      if found {
        ContainsInRange(lang, root, here, goal);
        Descend(goal);
        GoalReached(lang, root, here, goal);
      }
    }

    /** Goes up to the lowest ancestor that contains the goal. */
    method Ascend(goal: nat) returns (found: bool)
      requires Valid()
      modifies this`stack, this`here
      ensures Valid()
      ensures found ==> Contains(lang, root, here, goal)
      ensures !found ==> here == [] && goal >= |Preorder(lang, root)|
    {
      found := false;
      while true
        invariant Valid()
        decreases |stack|
      {
        var entry := stack[|stack| - 1];
        TopIs(lang, root, before, stack);
        EntryVisibleIff(|stack| - 1);
        assert PathOf(stack)[..|stack| - 1] == here;
        assert CountedAt(lang, root, here);
        var next := entry.descendantIndex + (if IsEntryVisible(|stack| - 1) then 1 else 0) +
                    DescendantCount(entry.tree);
        if entry.descendantIndex <= goal && next > goal {
          return true;
        } else if |stack| <= 1 {
          ContainsInRange(lang, root, [], goal);
          return false;
        }
        Truncate(|stack| - 1);
      }
    }

    /** Goes down to the goal. */
    method Descend(goal: nat)
      requires Valid() && Contains(lang, root, here, goal)
      modifies this`stack, this`here
      ensures Ready() && DescendantIndex(lang, root, here) == goal
    {
      while true
        invariant Valid() && Contains(lang, root, here, goal)
        decreases NodeAt(root, here)
      {
        TopIs(lang, root, before, stack);
        if stack[|stack| - 1].tree.kids == [] {
          return;
        }
        var it := IterateChildren();
        if it.descendantIndex > goal {
          return;
        }
        var entry, visible;
        ghost var k;
        entry, visible, k := ScanFor(it, here, goal);
        PathSnoc(root, here, k);
        Push(entry, k);
        if visible && entry.descendantIndex == goal {
          return;
        }
      }
    }

    /** The next child; if the iterator has passed the goal, it is in there. */
    method AdvanceFor(it: ChildIterator, ghost path: Path, ghost k: nat, ghost goal: nat)
      returns (entry: CursorEntry, visible: bool, next: ChildIterator)
      requires AllCounted(lang, root) && IteratorAt(lang, root, before, path, it, k) && k < |it.parent.kids|
      requires it.descendantIndex <= goal
      ensures EntryIs(lang, root, before, entry, path + [k]) && visible == VisibleAt(lang, root, path + [k])
      ensures next.descendantIndex > goal ==> Contains(lang, root, path + [k], goal)
      ensures IteratorAt(lang, root, before, path, next, k + 1) && next.parent == it.parent
    {
      entry, visible, next := Advance(it, path, k);
      IteratorPasses(lang, root, before, path, entry, next, k);
    }

    /** The child whose subtree contains the goal. */
    method ScanFor(it: ChildIterator, ghost path: Path, goal: nat)
      returns (entry: CursorEntry, visible: bool, ghost k: nat)
      requires stack != [] && AllCounted(lang, root) && IteratorAt(lang, root, before, path, it, 0)
      requires it.descendantIndex <= goal
      requires Contains(lang, root, path, goal)
      ensures k < |it.parent.kids| && EntryIs(lang, root, before, entry, path + [k])
      ensures ValidPath(root, path + [k]) && visible == VisibleAt(lang, root, path + [k])
      ensures Contains(lang, root, path + [k], goal)
    {
      var next := it;
      k, visible, entry := 0, false, stack[0];
      while next.childIndex < |it.parent.kids|
        invariant k <= |it.parent.kids| && Yields(lang, root, before, path, it.parent, next, k)
        invariant next.descendantIndex <= goal
        decreases |it.parent.kids| - next.childIndex
      {
        entry, visible, next := AdvanceFor(next, path, k, goal);
        if next.descendantIndex > goal {
          return;
        }
        k := k + 1;
      }
      IteratorAtEnd(lang, root, before, path, next, goal);
      assert false;
    }
  }
}
