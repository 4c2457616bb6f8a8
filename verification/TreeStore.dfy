/** The tree handles of one program and the nodes they share: copying, deleting and editing.
    Models tree.c:22-36, 55-93 and subtree.c:259-290, 558-594, 633-786. */
module TreeStore {
  import opened Lengths
  import opened SyntaxTrees
  import opened EditSpec
  import opened SubtreeMemory
  import opened Reclamation
  import opened EditInMemory
  import opened Summaries
  import opened Rotations
  import opened Balancing
  import opened Fragility
  import opened Compressions

  class TreeStore {
    var nodes: Nodes
    var roots: Roots
    var treeStack: seq<Ref>
    /** Addresses from `brk` on have never been handed out. */
    var brk: Ref

    ghost predicate Valid()
      reads this`nodes, this`roots, this`brk
    {
      SubtreeMemory.Valid(nodes, roots) && forall r :: r in nodes ==> r < brk
    }

    constructor ()
      ensures Valid() && nodes == map[] && roots == map[]
    {
      nodes, roots, treeStack, brk := map[], map[], [], 0;
      assert Ranked(map[], map[]);
    }

    method Retain(s: Subtree)
      requires s.Ptr? ==> s.ref in nodes
      modifies this`nodes
      ensures nodes == Retained(old(nodes), s)
    {
      match s {
        case Inline(_) =>
        case Ptr(r) =>
          nodes := nodes[r := nodes[r].(refCount := nodes[r].refCount + 1)];
      }
    }

    /** Gives up one reference to `s`: the nodes left without owners are freed, every survivor
        keeps its content, and all counts are exact again. */
    method Release(s: Subtree, ghost held: multiset<Ref>)
      requires s.Ptr? ==> s.ref in nodes && nodes[s.ref].refCount > 0
      requires s.Ptr? && nodes[s.ref].refCount == 1 ==> Counts(nodes, roots, {}, held + HeldFrom(s))
      requires Closed(nodes, roots, {}) && forall r :: r in nodes ==> nodes[r].refCount > 0
      modifies this`nodes, this`treeStack
      ensures s.Inline? ==> nodes == old(nodes)
      ensures s.Ptr? && old(nodes)[s.ref].refCount > 1 ==> nodes == Dropped(old(nodes), s.ref)
      ensures old(Counts(nodes, roots, {}, held + HeldFrom(s))) ==> Counts(nodes, roots, {}, held)
      ensures Closed(nodes, roots, {}) && Survives(old(nodes), nodes)
      ensures forall r :: r in nodes ==> nodes[r].refCount > 0
    {
      if s.Inline? {
        assert held + HeldFrom(s) == held;
        return;
      }
      ReleaseStart(nodes, roots, s.ref, held);
      nodes := Dropped(nodes, s.ref);
      treeStack := Enlisted(nodes, [], s.ref);
      while treeStack != []
        invariant Releasing(old(nodes), nodes, roots, treeStack, s.ref, held)
        decreases |nodes|
      {
        var tree := treeStack[|treeStack| - 1];
        TopOfWorklist(nodes, treeStack);
        treeStack := treeStack[..|treeStack| - 1];
        FreeOne(tree, held);
      }
    }

    /** Frees one node whose count is zero, giving up the references its children slots hold. */
    method FreeOne(tree: Ref, ghost held: multiset<Ref>)
      requires tree in nodes && nodes[tree].refCount == 0 && tree !in treeStack
      requires Counts(nodes, roots, {}, held) && Closed(nodes, roots, {})
      requires IsWorklist(nodes, treeStack + [tree])
      modifies this`nodes, this`treeStack
      ensures nodes.Keys == old(nodes.Keys) - {tree} && Survives(old(nodes), nodes)
      ensures Counts(nodes, roots, {}, held) && Closed(nodes, roots, {})
      ensures IsWorklist(nodes, treeStack)
    {
      var children := nodes[tree].children;
      FreeingStart(nodes, roots, treeStack, tree, held);
      var i := 0;
      while i < |children|
        invariant i <= |children|
        invariant Freeing(old(nodes), nodes, roots, treeStack, tree, i, held)
      {
        FreeingStep(old(nodes), nodes, roots, treeStack, tree, i, held);
        match children[i] {
          case Inline(_) =>
          case Ptr(r) =>
            nodes := Dropped(nodes, r);
            treeStack := Enlisted(nodes, treeStack, r);
        }
        i := i + 1;
      }
      FreeingEnd(old(nodes), nodes, roots, treeStack, tree, held);
      nodes := nodes - {tree};
    }

    /** A new handle on the same tree (ts_tree_copy). */
    method TreeCopy(id: TreeId, newId: TreeId)
      requires Valid() && id in roots && newId !in roots
      modifies this
      ensures Valid()
      ensures roots == old(roots)[newId := old(roots)[id]]
      ensures SameContents(old(nodes), nodes)
    {
      ghost var h := nodes;
      CopyRoot(h, roots, id, newId);
      Retain(roots[id]);
      roots := roots[newId := roots[id]];
    }

    /** Drops a handle (ts_tree_delete). What is left is exactly what the other handles reach,
        and they denote the trees they denoted before. */
    method TreeDelete(id: TreeId)
      requires Valid() && id in roots
      modifies this
      ensures Valid() && roots == old(roots) - {id}
      ensures forall r :: r in nodes <==> Reachable(old(nodes), roots, r)
      ensures Survives(old(nodes), nodes)
      ensures forall k, t :: k in roots && Denotes(old(nodes), roots[k], t) ==> Denotes(nodes, roots[k], t)
    {
      ghost var h := nodes;
      var root := roots[id];
      DropRoot(nodes, roots, id);
      roots := roots - {id};
      assert multiset{} + HeldFrom(root) == HeldFrom(root);
      Release(root, multiset{});
      Reclaimed(h, nodes, roots);
      SurvivorsValid(h, nodes, old(roots), id);
    }

    /** A copy of one node that shares its children (ts_subtree_clone). */
    method Clone(r: Ref, ghost dead: set<Slot>, ghost held: multiset<Ref>) returns (copy: Ref)
      requires Counts(nodes, roots, dead, held) && Closed(nodes, roots, {}) && r in nodes
      requires (forall x :: x in nodes ==> x < brk) && held[brk] == 0 && forall j: nat :: Child(brk, j) !in dead
      modifies this`nodes, this`brk
      ensures copy == old(brk) && brk == copy + 1
      ensures Cloning(old(nodes), nodes, roots, dead, held, r, copy, |old(nodes)[r].children|)
    {
      copy := brk;
      brk := brk + 1;
      ghost var h := nodes;
      CloningStart(nodes, roots, dead, held, r, copy);
      var children := nodes[r].children;
      nodes := nodes[copy := HeapData(1, nodes[r].info, children)];
      var i := 0;
      while i < |children|
        invariant i <= |children|
        invariant brk == copy + 1 && Cloning(h, nodes, roots, dead, held, r, copy, i)
      {
        CloningStep(h, nodes, roots, dead, held, r, copy, i);
        Retain(children[i]);
        i := i + 1;
      }
    }

    /** Takes the reference in `slot` and returns a subtree that nobody else refers to: the same
        one if it is unshared, else a copy (ts_subtree_make_mut). */
    method MakeMut(slot: Slot, s: Subtree) returns (m: Subtree)
      requires Valid() && HasSlot(nodes, roots, slot) && At(nodes, roots, slot) == s
      modifies this`nodes, this`brk, this`treeStack
      ensures Owned(old(nodes), roots, slot, nodes, m) && forall x :: x in nodes ==> x < brk
      ensures s.Inline? ==> m == s && nodes == old(nodes)
      ensures s.Ptr? ==> m.Ptr? && s.ref in old(nodes) && nodes[m.ref].info == old(nodes)[s.ref].info
    {
      ghost var h := nodes;
      assert NamesNode(nodes, roots, {}, slot);
      if s.Inline? || nodes[s.ref].refCount == 1 {
        OwnUnshared(nodes, roots, slot);
        return s;
      }
      GiveUp(nodes, roots, {}, multiset{}, slot);
      assert {} + {slot} == {slot} && multiset{} + HeldFrom(s) == multiset{s.ref};
      assert s.ref < brk;
      var copy := Clone(s.ref, {slot}, multiset{s.ref});
      OwnCopy(h, nodes, roots, slot, s.ref, copy);
      Release(s, multiset{copy});
      m := Ptr(copy);
    }

    /** Moves an inline leaf into a node of its own. */
    method Promote(slot: Slot, info: Info) returns (m: Subtree)
      requires Valid() && HasSlot(nodes, roots, slot) && At(nodes, roots, slot).Inline? && !info.isInline
      modifies this`nodes, this`brk
      ensures Owned(old(nodes), roots, slot, nodes, m) && forall x :: x in nodes ==> x < brk
      ensures m.Ptr? && nodes[m.ref].info == info
    {
      OwnPromoted(nodes, roots, slot, brk, info);
      nodes := nodes[brk := HeapData(1, info, [])];
      m := Ptr(brk);
      brk := brk + 1;
    }

    /** Owns the node in `slot`, marks it and reshapes it, promoting an inline leaf that no
        longer fits its bit fields. */
    method Reshape(slot: Slot, s: Subtree, e: Edit) returns (m: Subtree)
      requires Valid() && HasSlot(nodes, roots, slot) && At(nodes, roots, slot) == s
      modifies this`nodes, this`brk, this`treeStack
      ensures Owned(old(nodes), roots, slot, nodes, m) && forall x :: x in nodes ==> x < brk
      ensures s.Ptr? ==> s.ref in old(nodes)
      ensures match m
              case Inline(leaf) => s.Inline? && leaf == EditedInfo(s.leaf, e)
              case Ptr(r) => nodes[r].info == EditedInfo(InfoOf(old(nodes), s), e)
    {
      ghost var h := nodes;
      assert LeafFits(nodes, roots, slot) && NamesNode(nodes, roots, {}, slot);
      m := MakeMut(slot, s);
      match m {
        case Inline(leaf) =>
          var info := EditedInfo(leaf, e);
          if info.isInline {
            EditedLeafFits(leaf, e);
            m := Inline(info);
          } else {
            m := Promote(slot, info);
          }
        case Ptr(r) =>
          var info := EditedInfo(nodes[r].info, e);
          OwnedInfo(h, roots, slot, nodes, r, info);
          nodes := nodes[r := nodes[r].(info := info)];
      }
    }

    method StoreBack(slot: Slot, m: Subtree)
      requires HasSlot(nodes, roots, slot)
      modifies this`nodes, this`roots
      ensures nodes == StoredNodes(old(nodes), slot, m) && roots == StoredRoots(old(roots), slot, m)
    {
      match slot {
        case Root(k) => roots := roots[k := m];
        case Child(p, i) => nodes := nodes[p := nodes[p].(children := nodes[p].children[i := m])];
      }
    }

    /** Replaces what `slot` holds by an unshared, reshaped version of it. */
    method RewriteSlot(slot: Slot, s: Subtree, e: Edit) returns (m: Subtree)
      requires Valid() && HasSlot(nodes, roots, slot) && At(nodes, roots, slot) == s
      modifies this
      ensures Valid() && Replaced(old(nodes), old(roots), slot, m, nodes, roots)
      ensures s.Ptr? ==> s.ref in old(nodes)
      ensures match m
              case Inline(leaf) => s.Inline? && leaf == EditedInfo(s.leaf, e)
              case Ptr(r) => r in nodes && nodes[r].info == EditedInfo(InfoOf(old(nodes), s), e)
                             && nodes[r].children == ChildrenOf(old(nodes), s)
    {
      ghost var h := nodes;
      m := Reshape(slot, s, e);
      StoredIsValid(h, roots, slot, nodes, m);
      StoreBack(slot, m);
    }

    /** The edits that the children of the node at `r` are to receive, in order. */
    method QueueChildren(r: Ref, c: Context, newEnd: Length, ghost kids: seq<Tree>) returns (entries: seq<EditEntry>)
      requires r in nodes && |kids| == |nodes[r].children|
      requires forall i :: 0 <= i < |kids| ==> Denotes(nodes, nodes[r].children[i], kids[i])
      ensures var plan := Plan(c, newEnd, kids, ZERO, true); entries == EntriesFor(r, plan, |plan|)
    {
      ghost var plan := Plan(c, newEnd, kids, ZERO, true);
      var children := nodes[r].children;
      entries := [];
      QueueStarts(r, c, newEnd, kids);
      var right, inserted := ZERO, newEnd;
      var i := 0;
      while i < |children|
        invariant i <= |kids|
        invariant Queueing(r, plan, c, inserted, kids, right, i, entries)
      {
        assert Denotes(nodes, children[i], kids[i]);
        QueueStep(r, plan, c, inserted, kids, right, i, entries);
        var child := InfoOf(nodes, children[i]);
        var left := right;
        right := Add(left, TotalSize(child));
        if !EndsBefore(c, child, right) {
          if StopsAt(c, child, left, i == 0) {
            return;
          }
          entries := entries + [EditEntry(Child(r, i), ChildEdit(c, inserted, left, right))];
          if Touches(c, right) {
            inserted := c.start;
          }
        }
        i := i + 1;
      }
    }

    function Load(slot: Slot): (s: Subtree)
      requires HasSlot(nodes, roots, slot)
      reads this
      ensures s == At(nodes, roots, slot)
    {
      match slot
      case Root(k) => roots[k]
      case Child(p, i) => nodes[p].children[i]
    }

    /** Processes one entry of the worklist whose node is within the edit's reach. */
    method EditEntryNode(entry: EditEntry, ghost id: TreeId, ghost mine: set<Ref>, ghost t: Tree)
      returns (m: Subtree, entries: seq<EditEntry>)
      requires Valid() && HasSlot(nodes, roots, entry.slot) && mine <= nodes.Keys && Fenced(nodes, roots, id, mine)
      requires entry.slot == Root(id) || (entry.slot.Child? && entry.slot.parent in mine)
      requires Load(entry.slot).Ptr? ==> Load(entry.slot).ref !in mine
      requires Denotes(nodes, Load(entry.slot), t) && !IsOutOfReach(t.info, entry.edit)
      modifies this
      ensures Valid()
      ensures Rewrote(old(nodes), old(roots), id, mine, entry.slot, entry.edit, t, m, nodes, roots)
      ensures entries == if m.Inline? then [] else
                           var plan := PlanOf(t.info, t.kids, entry.edit); EntriesFor(m.ref, plan, |plan|)
    {
      var slot, e := entry.slot, entry.edit;
      var s := Load(slot);
      assert NamesNode(nodes, roots, {}, slot);
      var info := InfoOf(nodes, s);
      ghost var h, rs := nodes, roots;
      m := RewriteSlot(slot, s, e);
      entries := [];
      if m.Ptr? {
        KidsOfRewritten(h, rs, id, mine, slot, e, t, m, nodes, roots);
        entries := QueueChildren(m.ref, ContextOf(info, e), e.newEnd, t.kids);
      }
    }

    /** Applies one edit to one handle (ts_tree_edit). Its tree becomes EditSpec.EditTree of what
        it was; every other handle keeps its tree, and no node it reaches is rewritten. */
    method TreeEdit(id: TreeId, e: Edit)
      requires Valid() && id in roots
      modifies this
      ensures Valid()
      ensures roots.Keys == old(roots.Keys) && forall k :: k in roots && k != id ==> roots[k] == old(roots)[k]
      ensures forall t :: Denotes(old(nodes), old(roots)[id], t) ==> Denotes(nodes, roots[id], EditTree(t, e))
      ensures forall k, t :: k in roots && k != id && Denotes(old(nodes), roots[k], t) ==> Denotes(nodes, roots[k], t)
      ensures forall r :: Reachable(old(nodes), old(roots) - {id}, r) ==>
                r in old(nodes) && r in nodes && SameContent(old(nodes)[r], nodes[r])
    {
      ghost var h0, rs0 := nodes, roots;
      ghost var t0 := TreeOf(nodes, roots, id);
      ghost var mine: set<Ref>, goals: Goals, trees := {}, map[Root(id) := EditTree(t0, e)], [t0];
      EditingStart(nodes, roots, id, e, t0);
      var stack := [EditEntry(Root(id), e)];
      while stack != []
        invariant Valid()
        invariant Editing(nodes, roots, id, mine, goals, stack, trees, EditTree(t0, e))
        invariant Isolated(h0, rs0, nodes, roots, id, mine)
        decreases ForestSize(trees)
      {
        var n := |stack| - 1;
        var entry := stack[n];
        ghost var t, h, rs := trees[n], nodes, roots;
        assert EntryOk(nodes, roots, id, mine, goals, entry, t);
        assert NamesNode(nodes, roots, {}, entry.slot);
        if IsOutOfReach(InfoOf(nodes, Load(entry.slot)), entry.edit) {
          EditingSkip(nodes, roots, id, mine, goals, stack, trees, EditTree(t0, e));
          stack, trees, goals := stack[..n], trees[..n], goals - {entry.slot};
        } else {
          var m, entries := EditEntryNode(entry, id, mine, t);
          ghost var plan := PlanOf(t.info, t.kids, entry.edit);
          EditingStep(h, rs, id, mine, goals, stack, trees, EditTree(t0, e), m, nodes, roots);
          IsolatedStep(h0, rs0, h, rs, id, mine, entry.slot, entry.edit, t, m, nodes, roots);
          WorkShrinks(trees, m, plan);
          goals, mine := NewGoals(goals, entry.slot, m, t, plan), Claimed(mine, m);
          stack, trees := stack[..n] + entries, NewTrees(trees, m, t, plan);
        }
      }
      EditingDone(h0, rs0, nodes, roots, id, mine, goals, EditTree(t0, e));
    }

    /** Applies any number of edits to one handle. The others keep their trees and nodes. */
    method TreeEditAll(id: TreeId, edits: seq<Edit>)
      requires Valid() && id in roots
      modifies this
      ensures Valid()
      ensures roots.Keys == old(roots.Keys) && roots - {id} == old(roots) - {id}
      ensures forall t :: Denotes(old(nodes), old(roots)[id], t) ==> Denotes(nodes, roots[id], AllEdits(t, edits))
      ensures Untouched(old(nodes), nodes, roots - {id})
      ensures forall k, t :: k in roots && k != id && Denotes(old(nodes), roots[k], t) ==> Denotes(nodes, roots[k], t)
    {
      ghost var h0, others := nodes, roots - {id};
      ghost var t0 := TreeOf(nodes, roots, id);
      ReachableStored(h0, roots, others);
      var i := 0;
      while i < |edits|
        invariant i <= |edits| && Valid() && id in roots && roots - {id} == others && roots.Keys == old(roots.Keys)
        invariant Denotes(nodes, roots[id], AllEdits(t0, edits[..i]))
        invariant Untouched(h0, nodes, others)
      {
        ghost var h := nodes;
        OneMoreEdit(t0, edits, i);
        TreeEdit(id, edits[i]);
        UntouchedTransitive(h0, h, nodes, others);
        i := i + 1;
      }
      assert edits[..i] == edits;
      forall k, t | k in roots && k != id && Denotes(h0, roots[k], t)
        ensures Denotes(nodes, roots[k], t)
      {
        UntouchedTrees(h0, nodes, others, k, t);
      }
    }

    /** Edits made to a copy are not seen through the original: none of its nodes is rewritten. */
    method CopyThenEdit(id: TreeId, newId: TreeId, edits: seq<Edit>)
      requires Valid() && id in roots && newId !in roots
      modifies this
      ensures Valid() && roots.Keys == old(roots.Keys) + {newId} && roots - {newId} == old(roots)
      ensures Untouched(old(nodes), nodes, old(roots))
      ensures forall t :: Denotes(old(nodes), old(roots)[id], t) ==>
                Denotes(nodes, roots[id], t) && Denotes(nodes, roots[newId], AllEdits(t, edits))
    {
      ghost var h := nodes;
      TreeCopy(id, newId);
      ghost var copied := nodes;
      assert roots - {newId} == old(roots);
      ReachableStored(h, old(roots), old(roots));
      TreeEditAll(newId, edits);
      UntouchedTransitive(h, copied, nodes, old(roots));
      forall t | Denotes(h, old(roots)[id], t)
        ensures Denotes(copied, old(roots)[id], t)
      {
        UntouchedTrees(h, copied, old(roots), id, t);
      }
    }

    // ---- Rebalancing (parser.c:1878-1933, subtree.c:292-475) ----

    /** The loop of a summary over the children of the node at `r`. */
    method TallyChildren(lang: Language, r: Ref) returns (tally: Tally, dependsOnColumn: bool, hasError: bool)
      requires r in nodes && AreNodes(nodes, nodes[r].children)
      ensures tally == TallyOf(lang, Base(nodes[r].info), KidsOf(nodes, nodes[r].children))
      ensures dependsOnColumn == DependsOnColumn(nodes[r].info.size, InfosOf(nodes, nodes[r].children))
      ensures hasError == HasError(InfosOf(nodes, nodes[r].children))
    {
      var h := nodes;
      var info, children := h[r].info, h[r].children;
      ghost var kids, infos := KidsOf(h, children), InfosOf(h, children);
      var size := info.size;
      tally, dependsOnColumn, hasError := EMPTY_TALLY, false, false;
      TallyingStarts(lang, info, kids, infos);
      var i := 0;
      while i < |children|
        invariant i <= |children|
        invariant Tallying(lang, info, kids, infos, i, Sums(tally, size, dependsOnColumn, hasError))
      {
        var child := InfoOf(h, children[i]);
        ReadAt(h, children, i);
        TallyingStep(lang, info, kids, infos, i, Sums(tally, size, dependsOnColumn, hasError));
        if size.extent.row == 0 && child.dependsOnColumn {
          dependsOnColumn := true;
        }
        tally := Absorb(lang, Base(info), tally, KidOf(h, children[i]), i == 0);
        size := if i == 0 then child.size else Add(size, TotalSize(child));
        if child.symbol == SYM_ERROR {
          hasError := true;
        }
        i := i + 1;
      }
      TallyingEnds(lang, info, kids, infos, Sums(tally, size, dependsOnColumn, hasError));
    }

    /** What the node at `r` should cache about its children. */
    method NewSummary(lang: Language, r: Ref) returns (info: Info)
      requires r in nodes && nodes[r].children != [] && AreNodes(nodes, nodes[r].children)
      ensures Base(info) == Base(nodes[r].info)
      ensures Outer(info) == Summary(lang, Base(nodes[r].info), KidsOf(nodes, nodes[r].children))
      ensures info.repeatDepth == RepeatDepthOf(nodes[r].info, InfosOf(nodes, nodes[r].children))
      ensures info.dependsOnColumn == DependsOnColumn(nodes[r].info.size, InfosOf(nodes, nodes[r].children))
      ensures Flags(info) == FlagsAfter(Flags(nodes[r].info), InfosOf(nodes, nodes[r].children))
      ensures info.parseState == StateAfter(nodes[r].info.parseState, InfosOf(nodes, nodes[r].children))
      ensures info == SummaryInfo(lang, nodes, r)
    {
      var cached, children := nodes[r].info, nodes[r].children;
      ghost var infos := InfosOf(nodes, children);
      var tally, dependsOnColumn, hasError := TallyChildren(lang, r);
      var first, last := InfoOf(nodes, children[0]), InfoOf(nodes, children[|children| - 1]);
      assert first == infos[0] && last == infos[|infos| - 1];
      var flags := FlagSet(cached.fragileLeft || hasError || first.fragileLeft,
                           cached.fragileRight || hasError || last.fragileRight);
      var parseState := if hasError then NO_PARSE_STATE else cached.parseState;
      assert flags == FlagsAfter(Flags(cached), infos);
      var depth := RepeatDepthFrom(cached, first, last, |children|);
      AnnotatedFields(cached, tally, KidOf(nodes, children[0]), flags, parseState, dependsOnColumn, depth);
      info := Annotated(Cached(Base(cached), tally, KidOf(nodes, children[0])), flags, parseState, dependsOnColumn,
                        depth);
    }

    /** Recomputes everything the node at `r` caches about its children. */
    method SummarizeChildren(lang: Language, r: Ref)
      requires r in nodes && nodes[r].children != [] && AreNodes(nodes, nodes[r].children)
      modifies this`nodes
      ensures nodes == SummarizedAt(lang, old(nodes), r)
      ensures Summarized(lang, old(nodes), r, nodes)
    {
      ghost var h := nodes;
      var info := NewSummary(lang, r);
      nodes := nodes[r := nodes[r].(info := info)];
      SummarizedAtIs(lang, h, r);
    }

    /** Summarizes one node of a rotated chain. */
    method SummarizeLink(lang: Language, r: Ref, ghost k: Compression, ghost stale: set<Ref>, ghost stale': set<Ref>)
      requires k.lang == lang && k.Holds(nodes, roots, stale)
      requires OnChain(nodes, k.mine, k.symbol, r) && nodes[r].children != []
      requires (KidsFresh(nodes, r, stale) && stale' == stale - {r}) || (r in stale && stale' == stale)
      modifies this`nodes
      ensures k.Holds(nodes, roots, stale') && nodes == k.scope.summarizer.at(old(nodes), r)
    {
      ghost var h := nodes;
      ReadyToSummarize(lang, k.scope.dom, k.start, nodes, k.truth, roots, k.xs, k.cs, stale, r);
      SummarizeChildren(lang, r);
      assert k.scope.summarizer.RightAt(h, r);
      CompressionSummarizes(k, h, roots, stale, r, nodes, stale');
    }

    /** The second loop of a compression: from the bottom up, each link is summarized. */
    method Unwind(lang: Language, initialSize: nat, ghost k: Compression)
      requires k.lang == lang && |k.xs| == |k.cs| + 1 && k.Holds(nodes, roots, k.Stale())
      requires initialSize <= |treeStack| && treeStack[initialSize..] == k.xs[..|k.cs|]
      modifies this`nodes, this`treeStack
      ensures k.Holds(nodes, roots, {})
      ensures treeStack == old(treeStack)[..initialSize] &&
              nodes == Unwound(k.scope.summarizer, old(nodes), k.xs[..|k.cs|])
    {
      ghost var n: nat := |k.cs|;
      ghost var below, goal := treeStack[..initialSize], Unwound(k.scope.summarizer, nodes, k.xs[..|k.cs|]);
      UnwindingStarts(k, nodes, roots);
      assert treeStack == below + k.xs[..n];
      while |treeStack| > initialSize
        invariant n <= |k.cs| && treeStack == below + k.xs[..n] && Unwinding(k, goal, nodes, roots, n)
        decreases n
      {
        ChainPop(below, k.xs, n);
        UnwindLink(lang, k, goal, n);
        n := n - 1;
      }
      UnwindingEnds(k, goal, nodes, roots);
    }

    /** Pops one rotated node and summarizes what its rotation moved, lowest first. */
    method UnwindLink(lang: Language, ghost k: Compression, ghost goal: Nodes, ghost n: nat)
      requires k.lang == lang && |k.xs| == |k.cs| + 1 && 0 < n <= |k.cs|
      requires treeStack != [] && treeStack[|treeStack| - 1] == k.xs[n - 1]
      requires Unwinding(k, goal, nodes, roots, n)
      modifies this`nodes, this`treeStack
      ensures Unwinding(k, goal, nodes, roots, n - 1) && treeStack == old(treeStack)[..|old(treeStack)| - 1]
      ensures nodes == UnwoundLink(k.scope.summarizer, old(nodes), k.xs[n - 1])
    {
      var tree := treeStack[|treeStack| - 1];
      treeStack := treeStack[..|treeStack| - 1];
      NextLink(k, goal, nodes, roots, n);
      var child := nodes[tree].children[0].ref;
      var grandchild := nodes[child].children[|nodes[child].children| - 1].ref;
      UnwindThree(lang, grandchild, child, tree, k, n);
      UnwindingStep(k, goal, old(nodes), nodes, roots, n);
    }

    /** Summarizes the three nodes of a link. */
    method UnwindThree(lang: Language, grandchild: Ref, child: Ref, tree: Ref, ghost k: Compression, ghost n: nat)
      requires k.lang == lang && |k.xs| == |k.cs| + 1 && 0 < n <= |k.cs|
      requires grandchild == k.cs[n - 1] && child == k.xs[n] && tree == k.xs[n - 1]
      requires k.Holds(nodes, roots, StaleIn(k.xs, k.cs, n))
      modifies this`nodes
      ensures k.Holds(nodes, roots, StaleIn(k.xs, k.cs, n - 1))
      ensures nodes == LinkSummarized(k.scope.summarizer, old(nodes), tree, grandchild, child)
    {
      UnwindLower(lang, grandchild, child, k, n);
      StaleShrinks(k.xs, k.cs, n);
      LinkAt(k, nodes, roots, StaleIn(k.xs, k.cs, n - 1), n);
      TopMayBeSummarized(nodes, k, n);
      SummarizeLink(lang, tree, k, StaleIn(k.xs, k.cs, n - 1), StaleIn(k.xs, k.cs, n - 1));
    }

    /** Summarizes the two lower nodes of a link. */
    method UnwindLower(lang: Language, grandchild: Ref, child: Ref, ghost k: Compression, ghost n: nat)
      requires k.lang == lang && |k.xs| == |k.cs| + 1 && 0 < n <= |k.cs|
      requires grandchild == k.cs[n - 1] && child == k.xs[n]
      requires k.Holds(nodes, roots, StaleIn(k.xs, k.cs, n))
      modifies this`nodes
      ensures k.Holds(nodes, roots, StaleIn(k.xs, k.cs, n - 1))
      ensures var f := k.scope.summarizer; nodes == f.at(f.at(old(nodes), grandchild), child)
    {
      ghost var stale := StaleIn(k.xs, k.cs, n);
      LinkAt(k, nodes, roots, stale, n);
      LowestKidsFresh(nodes, roots, k.xs, k.cs, n);
      SummarizeLink(lang, grandchild, k, stale, stale - {grandchild});
      LinkAt(k, nodes, roots, stale - {grandchild}, n);
      MiddleKidsFresh(nodes, roots, k.xs, k.cs, n);
      SummarizeLink(lang, child, k, stale - {grandchild}, stale - {grandchild} - {child});
      StaleShrinks(k.xs, k.cs, n);
      CompressionStaler(k, nodes, roots, stale - {grandchild} - {child}, StaleIn(k.xs, k.cs, n - 1));
    }

    /** One rotation; the node rotated is remembered on the stack. */
    method RotateLink(tree: Ref, c: Ref, g: Ref, ghost k: Compression) returns (ghost k': Compression)
      requires |k.xs| == |k.cs| + 1 && tree == k.xs[|k.cs|] && k.Holds(nodes, roots, k.Stale())
      requires Rotatable(nodes, tree, c, g, k.symbol)
      modifies this`nodes, this`treeStack
      ensures k' == k.Longer(c, g, k'.truth, k'.flags) && k'.Holds(nodes, roots, k'.Stale())
      ensures treeStack == old(treeStack) + [tree] && nodes == Rotated(old(nodes), tree, c, g)
    {
      ghost var truth, flags := CompressionRotates(k, nodes, roots, c, g);
      k' := k.Longer(c, g, truth, flags);
      nodes := Rotated(nodes, tree, c, g);
      treeStack := treeStack + [tree];
    }

    /** The first loop of a compression: rotates the chain below `self` up to `count` times. */
    method RotateChain(self: Ref, count: nat, symbol: Symbol, ghost k: Compression)
      returns (ghost k': Compression)
      requires k.xs == [self] && k.cs == [] && k.symbol == symbol && k.IsRotating(nodes, roots)
      modifies this`nodes, this`treeStack
      ensures |k'.xs| == |k'.cs| + 1 && k'.Continues(k) && k'.IsRotating(nodes, roots)
      ensures treeStack == old(treeStack) + k'.xs[..|k'.cs|]
      ensures k'.xs[0] == self && Chained(old(nodes), nodes, k'.xs, count, symbol)
    {
      k' := k;
      ghost var below := treeStack;
      TraceStarts(nodes, self, symbol);
      var tree, i, found := self, 0, true;
      while i < count && found
        invariant i <= count && |k'.xs| == |k'.cs| + 1 == i + 1 && tree == k'.xs[i] && k'.Continues(k)
        invariant k'.IsRotating(nodes, roots) && treeStack == below + k'.xs[..i]
        invariant Traced(old(nodes), nodes, k'.xs, symbol) && k'.xs[0] == self
        invariant !found ==> !HasRotation(nodes, tree, symbol)
        decreases count - i, found
      {
        ghost var before := k';
        found, tree, k' := RotateOnce(tree, symbol, old(nodes), k');
        if found {
          ContinuesOn(k, before, k', tree);
          i := i + 1;
          PushedOn(below, before.xs, tree);
        }
      }
    }

    /** Rotates below `tree` if it can, and moves on to the node that took its first place. */
    method RotateOnce(tree: Ref, symbol: Symbol, ghost start: Nodes, ghost k: Compression)
      returns (found: bool, next: Ref, ghost k': Compression)
      requires |k.xs| == |k.cs| + 1 && tree == k.xs[|k.cs|] && k.symbol == symbol
      requires k.IsRotating(nodes, roots) && Traced(start, nodes, k.xs, symbol)
      modifies this`nodes, this`treeStack
      ensures found ==> Traced(start, nodes, k'.xs, symbol) && treeStack == old(treeStack) + [tree]
      ensures found ==> k'.Grows(k, next) && k'.IsRotating(nodes, roots)
      ensures !found ==>
                next == tree && k' == k && nodes == old(nodes) && treeStack == old(treeStack)
      ensures !found ==> !HasRotation(nodes, tree, symbol)
    {
      next, k' := tree, k;
      TopOfChain(k, nodes, roots, k.Stale());
      var c, g;
      found, c, g := FindRotation(tree, symbol);
      if found {
        next := g;
        ghost var h := nodes;
        k' := RotateLink(tree, c, g, k);
        TraceGrows(start, h, k.xs, symbol, nodes, g);
      }
    }

    /** Rotates the chain below `self` up to `count` times, then summarizes what moved. */
    method Compress(lang: Language, self: Ref, count: nat, ghost scope: Scope, ghost h0: Nodes, ghost id: TreeId,
                    ghost done: set<Ref>, ghost work: set<Ref>, ghost mine: set<Ref>) returns (ghost mine': set<Ref>)
      requires Valid() && Settled(lang, scope.dom, nodes)
      requires Contained(lang, scope, h0, nodes, roots, id, done, work, mine)
      requires self in nodes && OnChain(nodes, mine, nodes[self].info.symbol, self) && self !in done
      requires nodes[self].info.symbol in scope.repeats
      modifies this`nodes, this`treeStack
      ensures Valid() && Settled(lang, scope.dom, nodes) && SameTrees(lang, old(nodes), nodes, roots)
      ensures Contained(lang, scope, h0, nodes, roots, id, done, work, mine') && mine <= mine'
      ensures SameWidths(old(nodes), nodes, done) && treeStack == old(treeStack)
      ensures nodes == Compressed(scope.summarizer, old(nodes), self, count, old(nodes)[self].info.symbol)
    {
      var symbol := nodes[self].info.symbol;
      ghost var k := Compression(lang, scope, h0, nodes, nodes, FlagsOfAll(nodes), id, done, work, mine, symbol,
                                     [self], []);
      CompressionStarts(k, nodes, roots, self);
      k := CompressChain(lang, self, count, symbol, k);
      CompressionDone(k, nodes, roots);
      WidthsKeepKeys(old(nodes), nodes, done);
      mine' := k.mine;
    }

    /** The two loops. */
    method CompressChain(lang: Language, self: Ref, count: nat, symbol: Symbol, ghost k: Compression)
      returns (ghost k': Compression)
      requires k.lang == lang && k.xs == [self] && k.cs == [] && k.symbol == symbol && k.IsRotating(nodes, roots)
      modifies this`nodes, this`treeStack
      ensures k'.Continues(k) && k'.Holds(nodes, roots, {}) && treeStack == old(treeStack)
      ensures nodes == Compressed(k.scope.summarizer, old(nodes), self, count, symbol)
    {
      var initialSize := |treeStack|;
      k' := RotateChain(self, count, symbol, k);
      ChainedIsCompressed(k.scope.summarizer, old(nodes), nodes, k'.xs, count, symbol);
      Unwind(lang, initialSize, k');
    }

    /** The checks a rotation needs: the first child and first grandchild are unshared parents
        with the same symbol. */
    method FindRotation(tree: Ref, symbol: Symbol) returns (found: bool, c: Ref, g: Ref)
      requires SubtreeMemory.Valid(nodes, roots) && tree in nodes
      ensures found == HasRotation(nodes, tree, symbol)
      ensures found ==> c == First(nodes, tree) && g == First(nodes, c) && Rotatable(nodes, tree, c, g, symbol)
    {
      found, c, g := false, tree, tree;
      if nodes[tree].refCount > 1 || |nodes[tree].children| < 2 {
        return;
      }
      assert NamesNode(nodes, roots, {}, Child(tree, 0));
      var child := nodes[tree].children[0];
      if child.Inline? || |nodes[child.ref].children| < 2 || nodes[child.ref].refCount > 1 ||
         nodes[child.ref].info.symbol != symbol {
        return;
      }
      assert NamesNode(nodes, roots, {}, Child(child.ref, 0));
      var grandchild := nodes[child.ref].children[0];
      if grandchild.Inline? || |nodes[grandchild.ref].children| < 2 || nodes[grandchild.ref].refCount > 1 ||
         nodes[grandchild.ref].info.symbol != symbol {
        return;
      }
      found, c, g := true, child.ref, grandchild.ref;
    }

    /** The caller may be told to stop at any of its progress checks. */
    method CheckProgress() returns (mayContinue: bool) {
      mayContinue := *;
    }

    /** Balances the chain at the top of the stack by halving what its depth exceeds by. */
    method BalanceTop(lang: Language, id: TreeId, ghost scope: Scope, ghost h0: Nodes, ghost done: set<Ref>)
      returns (mayContinue: bool)
      requires Valid() && treeStack != [] && Walks(lang, scope, h0, nodes, roots, id, done, treeStack)
      modifies this`nodes, this`treeStack
      ensures Valid() && treeStack == old(treeStack) && nodes.Keys == old(nodes.Keys)
      ensures Walks(lang, scope, h0, nodes, roots, id, done, treeStack)
      ensures mayContinue ==> IsBalanced(scope.summarizer, old(nodes), treeStack[|treeStack| - 1], nodes)
    {
      mayContinue := true;
      var tree := treeStack[|treeStack| - 1];
      ghost var mine :| BalanceWalk(lang, scope, h0, nodes, roots, id, done, treeStack, mine);
      TopIsReady(lang, scope, h0, nodes, roots, id, done, treeStack, mine);
      NothingToHalve(scope.summarizer, nodes, tree, nodes[tree].info.symbol);
      if nodes[tree].info.repeatDepth == 0 {
        return;
      }
      var count := HalfOfExcess(tree);
      mayContinue := CompressHalving(lang, count, id, scope, h0, done);
    }

    /** Half of what the first child's repeat depth exceeds the last child's by. */
    method HalfOfExcess(tree: Ref) returns (count: nat)
      requires tree in nodes && nodes[tree].children != [] && AreNodes(nodes, nodes[tree].children)
      requires nodes[tree].info.repeatDepth > 0
      ensures count == CompressionCount(nodes, tree)
    {
      var children := nodes[tree].children;
      var first, last := InfoOf(nodes, children[0]), InfoOf(nodes, children[|children| - 1]);
      count := if first.repeatDepth > last.repeatDepth then (first.repeatDepth - last.repeatDepth) / 2 else 0;
    }

    /** Compresses the top of the stack by `count`, half of that, a quarter, and so on. */
    method CompressHalving(lang: Language, count: nat, id: TreeId, ghost scope: Scope, ghost h0: Nodes,
                           ghost done: set<Ref>) returns (mayContinue: bool)
      requires Valid() && treeStack != [] && Walks(lang, scope, h0, nodes, roots, id, done, treeStack)
      requires var tree := treeStack[|treeStack| - 1]; tree in nodes && nodes[tree].info.symbol in scope.repeats
      modifies this`nodes, this`treeStack
      ensures Valid() && treeStack == old(treeStack) && nodes.Keys == old(nodes.Keys)
      ensures Walks(lang, scope, h0, nodes, roots, id, done, treeStack)
      ensures var tree := treeStack[|treeStack| - 1];
              mayContinue ==> IsHalved(scope.summarizer, old(nodes), tree, count, old(nodes)[tree].info.symbol, nodes)
    {
      mayContinue := true;
      ghost var tree := treeStack[|treeStack| - 1];
      ghost var symbol := nodes[tree].info.symbol;
      HalvingStarts(scope.summarizer, nodes, tree, count, symbol);
      var i := count;
      while i > 0 && mayContinue
        invariant Valid() && treeStack == old(treeStack) && nodes.Keys == old(nodes.Keys)
        invariant Walks(lang, scope, h0, nodes, roots, id, done, treeStack)
        invariant tree in nodes && nodes[tree].info.symbol == symbol && symbol in scope.repeats
        invariant HalvedTo(scope.summarizer, old(nodes), tree, count, symbol, nodes, i)
        decreases i, mayContinue
      {
        HalveTop(lang, i, id, scope, h0, done, old(nodes), count);
        mayContinue := CheckProgress();
        i := i / 2;
      }
    }

    /** One stage of the halving. */
    method HalveTop(lang: Language, count: nat, id: TreeId, ghost scope: Scope, ghost h0: Nodes,
                    ghost done: set<Ref>, ghost start: Nodes, ghost total: nat)
      requires Valid() && treeStack != [] && Walks(lang, scope, h0, nodes, roots, id, done, treeStack)
      requires var tree := treeStack[|treeStack| - 1]; tree in nodes && nodes[tree].info.symbol in scope.repeats
      requires var tree := treeStack[|treeStack| - 1];
               HalvedTo(scope.summarizer, start, tree, total, nodes[tree].info.symbol, nodes, count) && count > 0
      modifies this`nodes, this`treeStack
      ensures Valid() && treeStack == old(treeStack) && nodes.Keys == old(nodes.Keys)
      ensures Walks(lang, scope, h0, nodes, roots, id, done, treeStack)
      ensures var tree := treeStack[|treeStack| - 1];
              && tree in nodes && nodes[tree].info.symbol == old(nodes)[tree].info.symbol
              && HalvedTo(scope.summarizer, start, tree, total, nodes[tree].info.symbol, nodes, count / 2)
    {
      ghost var tree := treeStack[|treeStack| - 1];
      HalvingGrows(scope.summarizer, start, tree, total, nodes[tree].info.symbol, nodes, count);
      CompressTop(lang, count, id, scope, h0, done);
    }

    method CompressTop(lang: Language, count: nat, id: TreeId, ghost scope: Scope, ghost h0: Nodes,
                       ghost done: set<Ref>)
      requires Valid() && treeStack != [] && Walks(lang, scope, h0, nodes, roots, id, done, treeStack)
      requires var tree := treeStack[|treeStack| - 1]; tree in nodes && nodes[tree].info.symbol in scope.repeats
      modifies this`nodes, this`treeStack
      ensures Valid() && treeStack == old(treeStack) && nodes.Keys == old(nodes.Keys)
      ensures Walks(lang, scope, h0, nodes, roots, id, done, treeStack)
      ensures var tree := treeStack[|treeStack| - 1];
              && tree in nodes && nodes[tree].info.symbol == old(nodes)[tree].info.symbol
              && nodes == Compressed(scope.summarizer, old(nodes), tree, count, nodes[tree].info.symbol)
    {
      var tree := treeStack[|treeStack| - 1];
      ghost var h := nodes;
      ghost var mine :| BalanceWalk(lang, scope, h0, nodes, roots, id, done, treeStack, mine);
      TopIsReady(lang, scope, h0, nodes, roots, id, done, treeStack, mine);
      ghost var mine' := Compress(lang, tree, count, scope, h0, id, done, done + Elements(treeStack), mine);
      WidthsKeepKeys(h, nodes, done);
      WidthsKeepSymbol(h, nodes, done, tree);
      WalkAfterCompression(lang, scope, h0, h, nodes, roots, id, done, treeStack, mine, mine');
      assert Walks(lang, scope, h0, nodes, roots, id, done, treeStack);
    }

    /** Pushes the children that the walk visits next. */
    method PushUnsharedParents(children: seq<Subtree>)
      requires AreNodes(nodes, children)
      modifies this`treeStack
      ensures treeStack == old(treeStack) + UnsharedParents(nodes, children)
    {
      ghost var below := treeStack;
      PushStarts(nodes, below, children);
      var i := 0;
      while i < |children|
        invariant i <= |children| && PushedUpTo(nodes, below, children, i, treeStack)
      {
        PushStep(nodes, below, children, i, treeStack);
        if children[i].Ptr? && nodes[children[i].ref].children != [] && nodes[children[i].ref].refCount == 1 {
          treeStack := treeStack + [children[i].ref];
        }
        i := i + 1;
      }
      PushEnds(nodes, below, children, treeStack);
    }

    /** Takes the top off the stack and puts its unshared parents there instead. */
    method VisitTop(lang: Language, id: TreeId, ghost scope: Scope, ghost h0: Nodes, ghost done: set<Ref>)
      returns (ghost tree: Ref)
      requires Valid() && treeStack != [] && Walks(lang, scope, h0, nodes, roots, id, done, treeStack)
      modifies this`treeStack
      ensures tree in nodes && tree !in done && IsVisit(nodes, old(treeStack), tree, treeStack)
      ensures Valid()
      ensures Walks(lang, scope, h0, nodes, roots, id, done + {tree}, treeStack)
    {
      ghost var mine :| BalanceWalk(lang, scope, h0, nodes, roots, id, done, treeStack, mine);
      TopIsReady(lang, scope, h0, nodes, roots, id, done, treeStack, mine);
      var n := |treeStack| - 1;
      var top := treeStack[n];
      assert treeStack == treeStack[..n] + [top];
      WalkAdvances(lang, scope, h0, nodes, roots, id, done, treeStack[..n], top, mine);
      treeStack := treeStack[..n];
      tree := top;
      PushUnsharedParents(nodes[top].children);
    }

    /** Balances the repetitions of one handle's tree, as far as it is allowed to
        (ts_parser__balance_subtree). Whether it finished or was stopped, what the handle reaches has
        right caches, no client can tell any tree from what it was, and neither a shared node nor
        one that another handle reaches has been touched; a stopped walk can be resumed from the
        stack. A walk that finishes has taken exactly the turns of `Compressions.Turn`. */
    method Balance(lang: Language, id: TreeId, resuming: bool, ghost scope: Scope, ghost h0: Nodes,
                   ghost done: set<Ref>)
      returns (finished: bool, ghost done': set<Ref>)
      requires Valid() && id in roots
      requires if resuming then Walks(lang, scope, h0, nodes, roots, id, done, treeStack)
               else scope.dom == ReachedBy(nodes, roots, id) && Settled(lang, scope.dom, nodes) &&
                    ScopeOk(lang, scope, nodes) && h0 == nodes
      modifies this`nodes, this`treeStack
      ensures Valid() && OnlyRebalanced(lang, h0, nodes, roots, id)
      ensures Walks(lang, scope, h0, nodes, roots, id, done', treeStack)
      ensures finished ==> treeStack == []
      ensures AreNodes(old(nodes), [roots[id]])
      ensures finished ==>
                RunsTo(scope.summarizer,
                       WalkState(old(nodes), if resuming then old(treeStack)
                                             else UnsharedParents(old(nodes), [roots[id]])),
                       WalkState(nodes, []))
    {
      finished, done' := true, done;
      assert NamesNode(nodes, roots, {}, Root(id));
      if !resuming {
        StartWalk(lang, id, scope);
        done' := {};
      }
      finished, done' := WalkOn(lang, id, scope, h0, done');
      ghost var mine :| BalanceWalk(lang, scope, h0, nodes, roots, id, done', treeStack, mine);
      WalkOnlyRebalances(lang, scope, h0, nodes, roots, id, done', treeStack, mine);
    }

    /** Takes turns until the stack is empty or the caller is told to stop. */
    method WalkOn(lang: Language, id: TreeId, ghost scope: Scope, ghost h0: Nodes, ghost done: set<Ref>)
      returns (finished: bool, ghost done': set<Ref>)
      requires Valid() && Walks(lang, scope, h0, nodes, roots, id, done, treeStack)
      modifies this`nodes, this`treeStack
      ensures Valid() && Walks(lang, scope, h0, nodes, roots, id, done', treeStack)
      ensures finished ==> treeStack == []
      ensures finished ==>
                RunsTo(scope.summarizer, WalkState(old(nodes), old(treeStack)), WalkState(nodes, treeStack))
    {
      finished, done' := true, done;
      ghost var start := WalkState(nodes, treeStack);
      RunStarts(scope.summarizer, start);
      while treeStack != [] && finished
        invariant Valid() && Walks(lang, scope, h0, nodes, roots, id, done', treeStack)
        invariant finished ==> RunsTo(scope.summarizer, start, WalkState(nodes, treeStack))
        decreases |nodes.Keys - done'|, finished
      {
        ghost var tree;
        finished, tree := WalkTurn(lang, id, scope, h0, done', start);
        if finished {
          OneLessLeft(nodes.Keys, done', tree);
          done' := done' + {tree};
        }
      }
    }

    /** Starts with nothing but the root on the stack, if it is an unshared parent. */
    method StartWalk(lang: Language, id: TreeId, ghost scope: Scope)
      requires Valid() && id in roots && Settled(lang, scope.dom, nodes) && ScopeOk(lang, scope, nodes)
      requires scope.dom == ReachedBy(nodes, roots, id)
      modifies this`treeStack
      ensures AreNodes(nodes, [roots[id]]) && treeStack == UnsharedParents(nodes, [roots[id]])
      ensures Walks(lang, scope, nodes, nodes, roots, id, {}, treeStack)
    {
      assert NamesNode(nodes, roots, {}, Root(id));
      treeStack := [];
      PushUnsharedParents([roots[id]]);
      assert treeStack == UnsharedParents(nodes, [roots[id]]);
      ReachedIsInward(nodes, roots, id);
      WalkStart(lang, scope, nodes, roots, id, treeStack);
    }

    /** Balances the chain at the top of the stack and visits it, unless told to stop before. */
    method WalkTurn(lang: Language, id: TreeId, ghost scope: Scope, ghost h0: Nodes, ghost done: set<Ref>,
                    ghost start: WalkState)
      returns (mayContinue: bool, ghost tree: Ref)
      requires Valid() && treeStack != [] && Walks(lang, scope, h0, nodes, roots, id, done, treeStack)
      requires RunsTo(scope.summarizer, start, WalkState(nodes, treeStack))
      modifies this`nodes, this`treeStack
      ensures Valid() && nodes.Keys == old(nodes.Keys)
      ensures Walks(lang, scope, h0, nodes, roots, id, if mayContinue then done + {tree} else done, treeStack)
      ensures mayContinue ==> tree in nodes && tree !in done
      ensures mayContinue ==> RunsTo(scope.summarizer, start, WalkState(nodes, treeStack))
    {
      ghost var h, stack := nodes, treeStack;
      mayContinue := CheckProgress();
      tree := treeStack[|treeStack| - 1];
      if mayContinue {
        mayContinue := BalanceTop(lang, id, scope, h0, done);
      }
      if mayContinue {
        tree := VisitTop(lang, id, scope, h0, done);
        TurnTaken(scope.summarizer, start, h, stack, tree, nodes, treeStack);
      }
    }
  }
}
