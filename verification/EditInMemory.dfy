/** Why editing nodes in place, one slot at a time, computes EditSpec.EditTree and touches no
    node that another handle can reach. Models the worklist of ts_subtree_edit (subtree.c:633-786). */
module EditInMemory {
  import opened Lengths
  import opened SyntaxTrees
  import opened EditSpec
  import opened SubtreeMemory

  datatype EditEntry = EditEntry(slot: Slot, edit: Edit)

  // ---- Which children are queued ----

  /** The positions below `n` whose child is visited, in order. */
  function TouchedBelow(plan: seq<Visit>, n: nat): (touched: seq<nat>)
    requires n <= |plan|
    ensures forall j :: 0 <= j < |touched| ==> touched[j] < n && plan[touched[j]].Touch?
    ensures forall j, k :: 0 <= j < k < |touched| ==> touched[j] < touched[k]
    ensures forall i :: 0 <= i < n && plan[i].Touch? ==> i in touched
  {
    if n == 0 then []
    else if plan[n - 1].Touch? then TouchedBelow(plan, n - 1) + [n - 1]
    else TouchedBelow(plan, n - 1)
  }

  function EntriesFor(r: Ref, plan: seq<Visit>, n: nat): (entries: seq<EditEntry>)
    requires n <= |plan|
  {
    var touched := TouchedBelow(plan, n);
    seq(|touched|, j requires 0 <= j < |touched| => EditEntry(Child(r, touched[j]), plan[touched[j]].edit))
  }

  ghost function TreesFor(kids: seq<Tree>, plan: seq<Visit>, n: nat): seq<Tree>
    requires n <= |plan| == |kids|
  {
    var touched := TouchedBelow(plan, n);
    seq(|touched|, j requires 0 <= j < |touched| => kids[touched[j]])
  }

  lemma {:induction false} NoneTouchedAfter(r: Ref, plan: seq<Visit>, i: nat, n: nat)
    requires i <= n <= |plan| && forall k :: i <= k < n ==> plan[k].Keep?
    ensures EntriesFor(r, plan, n) == EntriesFor(r, plan, i)
    decreases n - i
  {
    if i < n {
      NoneTouchedAfter(r, plan, i, n - 1);
    }
  }

  lemma EntriesStep(r: Ref, plan: seq<Visit>, i: nat)
    requires i < |plan|
    ensures EntriesFor(r, plan, i + 1) ==
            match plan[i]
            case Keep => EntriesFor(r, plan, i)
            case Touch(edit) => EntriesFor(r, plan, i) + [EditEntry(Child(r, i), edit)]
  {
  }

  /** Loop invariant of the walk over the children: what is planned for the rest. */
  ghost predicate Walking(plan: seq<Visit>, c: Context, newEnd: Length, kids: seq<Tree>, left: Length, i: nat) {
    i <= |plan| == |kids| && plan[i..] == Plan(c, newEnd, kids[i..], left, i == 0)
  }

  lemma WalkingStep(plan: seq<Visit>, c: Context, newEnd: Length, kids: seq<Tree>, left: Length, i: nat)
    requires Walking(plan, c, newEnd, kids, left, i) && i < |kids|
    ensures var right := Add(left, TotalSize(kids[i].info));
            if EndsBefore(c, kids[i].info, right) then
              plan[i] == Keep && Walking(plan, c, newEnd, kids, right, i + 1)
            else if StopsAt(c, kids[i].info, left, i == 0) then
              forall k :: i <= k < |plan| ==> plan[k] == Keep
            else
              && plan[i] == Touch(ChildEdit(c, newEnd, left, right))
              && Walking(plan, c, if Touches(c, right) then c.start else newEnd, kids, right, i + 1)
  {
    assert kids[i..][1..] == kids[i + 1..];
    assert plan[i..][1..] == plan[i + 1..];
    assert forall k :: i <= k < |plan| ==> plan[k] == plan[i..][k - i];
  }

  ghost predicate IsQueue(r: Ref, plan: seq<Visit>, c: Context, newEnd: Length, kids: seq<Tree>, left: Length, n: nat,
                          entries: seq<EditEntry>) {
    Walking(plan, c, newEnd, kids, left, n) && entries == EntriesFor(r, plan, n)
  }

  /** The entries queued so far are those planned for the first `i` children. */
  ghost predicate Queueing(r: Ref, plan: seq<Visit>, c: Context, newEnd: Length, kids: seq<Tree>, left: Length, i: nat,
                           entries: seq<EditEntry>) {
    exists n: nat :: IsQueue(r, plan, c, newEnd, kids, left, n, entries) && n == i
  }

  lemma QueueStarts(r: Ref, c: Context, newEnd: Length, kids: seq<Tree>)
    ensures Queueing(r, Plan(c, newEnd, kids, ZERO, true), c, newEnd, kids, ZERO, 0, [])
  {
    var plan := Plan(c, newEnd, kids, ZERO, true);
    assert plan[0..] == plan && kids[0..] == kids;
    assert IsQueue(r, plan, c, newEnd, kids, ZERO, 0, []);
  }

  lemma QueueStep(r: Ref, plan: seq<Visit>, c: Context, newEnd: Length, kids: seq<Tree>, left: Length, i: nat,
                  entries: seq<EditEntry>)
    requires Queueing(r, plan, c, newEnd, kids, left, i, entries) && i < |kids|
    ensures var right := Add(left, TotalSize(kids[i].info));
            if EndsBefore(c, kids[i].info, right) then Queueing(r, plan, c, newEnd, kids, right, i + 1, entries)
            else if StopsAt(c, kids[i].info, left, i == 0) then entries == EntriesFor(r, plan, |plan|)
            else Queueing(r, plan, c, if Touches(c, right) then c.start else newEnd, kids, right, i + 1,
                          entries + [EditEntry(Child(r, i), ChildEdit(c, newEnd, left, right))])
  {
    WalkingStep(plan, c, newEnd, kids, left, i);
    EntriesStep(r, plan, i);
    var right := Add(left, TotalSize(kids[i].info));
    if EndsBefore(c, kids[i].info, right) {
      assert IsQueue(r, plan, c, newEnd, kids, right, i + 1, entries);
    } else if StopsAt(c, kids[i].info, left, i == 0) {
      NoneTouchedAfter(r, plan, i, |plan|);
    } else {
      assert IsQueue(r, plan, c, if Touches(c, right) then c.start else newEnd, kids, right, i + 1,
                     entries + [EditEntry(Child(r, i), ChildEdit(c, newEnd, left, right))]);
    }
  }

  // ---- How much work is left ----

  ghost function TreeSize(t: Tree): nat {
    1 + ForestSize(t.kids)
  }

  ghost function ForestSize(ts: seq<Tree>): nat {
    if ts == [] then 0 else ForestSize(ts[..|ts| - 1]) + TreeSize(ts[|ts| - 1])
  }

  lemma {:induction false} ForestSizeAppend(a: seq<Tree>, b: seq<Tree>)
    ensures ForestSize(a + b) == ForestSize(a) + ForestSize(b)
    decreases |b|
  {
    if b == [] {
      assert a + b == a;
    } else {
      assert (a + b)[..|a + b| - 1] == a + b[..|b| - 1];
      ForestSizeAppend(a, b[..|b| - 1]);
    }
  }

  lemma ForestSizeSnoc(ts: seq<Tree>, t: Tree)
    ensures ForestSize(ts + [t]) == ForestSize(ts) + TreeSize(t)
  {
    assert (ts + [t])[..|ts|] == ts;
  }

  lemma TreesStep(kids: seq<Tree>, plan: seq<Visit>, n: nat)
    requires n < |plan| == |kids|
    ensures TreesFor(kids, plan, n + 1) ==
            if plan[n].Touch? then TreesFor(kids, plan, n) + [kids[n]] else TreesFor(kids, plan, n)
  {
  }

  lemma SizeWithNext(before: seq<Tree>, after: seq<Tree>, kids: seq<Tree>, n: nat)
    requires n < |kids| && (after == before || after == before + [kids[n]])
    requires ForestSize(before) <= ForestSize(kids[..n])
    ensures ForestSize(after) <= ForestSize(kids[..n + 1])
  {
    ForestSizeSnoc(before, kids[n]);
    ForestSizeSnoc(kids[..n], kids[n]);
    assert kids[..n + 1] == kids[..n] + [kids[n]];
  }

  ghost predicate PicksAt(picked: seq<seq<Tree>>, kids: seq<Tree>, i: nat) {
    i < |kids| && i + 1 < |picked| ==> picked[i + 1] == picked[i] || picked[i + 1] == picked[i] + [kids[i]]
  }

  /** Picking from the first `n` trees, one at a time, never collects more than they hold. */
  lemma {:induction false} PickedSize(picked: seq<seq<Tree>>, kids: seq<Tree>, n: nat)
    requires n <= |kids| && n < |picked| && picked[0] == []
    requires forall i: nat {:trigger PicksAt(picked, kids, i)} :: PicksAt(picked, kids, i)
    ensures ForestSize(picked[n]) <= ForestSize(kids[..n])
  {
    if n == 0 {
      assert kids[..n] == [];
    } else {
      PickedSize(picked, kids, n - 1);
      assert PicksAt(picked, kids, n - 1);
      SizeWithNext(picked[n - 1], picked[n], kids, n - 1);
    }
  }

  lemma QueuedSize(kids: seq<Tree>, plan: seq<Visit>, n: nat)
    requires n <= |plan| == |kids|
    ensures ForestSize(TreesFor(kids, plan, n)) <= ForestSize(kids[..n])
  {
    var picked := seq(n + 1, i requires 0 <= i <= n => TreesFor(kids, plan, i));
    forall i: nat
      ensures PicksAt(picked, kids, i)
    {
      if i < n {
        TreesStep(kids, plan, i);
      }
    }
    PickedSize(picked, kids, n);
  }

  // ---- The tree that is being edited ----

  type Goals = map<Slot, Tree>

  /** `s`, found in `slot`, will denote `t` once every slot in `goals` denotes its goal. */
  ghost predicate Awaits(h: Nodes, goals: Goals, slot: Slot, s: Subtree, t: Tree)
    decreases t
  {
    if slot in goals then t == goals[slot]
    else
      match s
      case Inline(leaf) => t == Tree(leaf, [])
      case Ptr(r) =>
        && r in h
        && t.info == h[r].info
        && |t.kids| == |h[r].children|
        && forall i :: 0 <= i < |t.kids| ==> Awaits(h, goals, Child(r, i), h[r].children[i], t.kids[i])
  }

  ghost predicate GoalsIn(goals: Goals, id: TreeId, mine: set<Ref>) {
    forall slot :: slot in goals ==> slot == Root(id) || (slot.Child? && slot.parent in mine)
  }

  /** A tree that no pending slot lies in already denotes what it will denote. */
  lemma {:induction false} AwaitsNothing(h: Nodes, roots: Roots, id: TreeId, mine: set<Ref>, goals: Goals,
                                         slot: Slot, s: Subtree, t: Tree)
    requires Denotes(h, s, t) && Fenced(h, roots, id, mine) && GoalsIn(goals, id, mine)
    requires slot !in goals && (s.Ptr? ==> s.ref !in mine)
    ensures Awaits(h, goals, slot, s, t)
    decreases t
  {
    if s.Ptr? {
      forall i | 0 <= i < |t.kids|
        ensures Awaits(h, goals, Child(s.ref, i), h[s.ref].children[i], t.kids[i])
      {
        AwaitsNothing(h, roots, id, mine, goals, Child(s.ref, i), h[s.ref].children[i], t.kids[i]);
      }
    }
  }

  lemma {:induction false} AwaitsDone(h: Nodes, slot: Slot, s: Subtree, t: Tree)
    requires Awaits(h, map[], slot, s, t)
    ensures Denotes(h, s, t)
    decreases t
  {
    if s.Ptr? {
      forall i | 0 <= i < |t.kids|
        ensures Denotes(h, h[s.ref].children[i], t.kids[i])
      {
        AwaitsDone(h, Child(s.ref, i), h[s.ref].children[i], t.kids[i]);
      }
    }
  }

  /** `s` has replaced what `slot` held. Only the slot itself and, if `s` is the node that was
      there, that node's fields have changed; that node had no other owner. */
  ghost predicate Replaced(h: Nodes, roots: Roots, slot: Slot, s: Subtree, h': Nodes, roots': Roots) {
    && HasSlot(h, roots, slot)
    && roots' == StoredRoots(roots, slot, s)
    && (s.Ptr? ==>
          && s.ref in h'
          && (s.ref !in h || Owners(h, roots, {}, s.ref) == {slot})
          && !(slot.Child? && slot.parent == s.ref))
    && (forall x :: x in h' <==> x in h || s == Ptr(x))
    && (forall x :: x in h && s != Ptr(x) ==> SameContent(h'[x], StoredNodes(h, slot, s)[x]))
  }

  /** What one replacement does to the rest of the tree. */
  lemma {:induction false} AwaitsStep(h: Nodes, roots: Roots, slot: Slot, s: Subtree, h': Nodes, roots': Roots,
                                      goals: Goals, goals': Goals, at: Slot, t: Tree)
    requires Closed(h, roots, {}) && Replaced(h, roots, slot, s, h', roots')
    requires HasSlot(h, roots, at) && !(at.Child? && Ptr(at.parent) == s)
    requires Awaits(h, goals, at, At(h, roots, at), t)
    requires slot in goals && Awaits(h', goals', slot, s, goals[slot])
    requires forall other :: other in goals && other != slot ==> other in goals' && goals'[other] == goals[other]
    requires forall other :: other in goals' && other !in goals ==> other.Child? && Ptr(other.parent) == s
    ensures HasSlot(h', roots', at) && Awaits(h', goals', at, At(h', roots', at), t)
    decreases t
  {
    assert at.Child? ==> SameContent(h'[at.parent], StoredNodes(h, slot, s)[at.parent]);
    if at != slot && at !in goals && At(h, roots, at).Ptr? {
      var r := At(h, roots, at).ref;
      assert s == Ptr(r) ==> at in Owners(h, roots, {}, r);
      assert s != Ptr(r);
      assert SameContent(h'[r], StoredNodes(h, slot, s)[r]);
      forall i | 0 <= i < |t.kids|
        ensures Awaits(h', goals', Child(r, i), h'[r].children[i], t.kids[i])
      {
        AwaitsStep(h, roots, slot, s, h', roots', goals, goals', Child(r, i), t.kids[i]);
      }
    }
  }

  // ---- The loop ----

  /** Entry `i` of the worklist asks that the tree `trees[i]` in its slot become its edit. */
  ghost predicate EntryOk(h: Nodes, roots: Roots, id: TreeId, mine: set<Ref>, goals: Goals, entry: EditEntry, t: Tree) {
    && entry.slot in goals && goals[entry.slot] == EditTree(t, entry.edit)
    && HasSlot(h, roots, entry.slot)
    && (entry.slot == Root(id) || (entry.slot.Child? && entry.slot.parent in mine))
    && (At(h, roots, entry.slot).Ptr? ==> At(h, roots, entry.slot).ref !in mine)
    && Denotes(h, At(h, roots, entry.slot), t)
  }

  ghost predicate DistinctSlots(stack: seq<EditEntry>) {
    forall i, j :: 0 <= i < j < |stack| ==> stack[i].slot != stack[j].slot
  }

  ghost predicate IsListed(stack: seq<EditEntry>, slot: Slot) {
    exists i :: 0 <= i < |stack| && stack[i].slot == slot
  }

  /** Every slot with a goal is on the worklist. */
  ghost predicate GoalsListed(goals: Goals, stack: seq<EditEntry>) {
    forall slot {:trigger IsListed(stack, slot)} :: slot in goals ==> IsListed(stack, slot)
  }

  /** Loop invariant of the edit: `mine` are the nodes rewritten so far, `final` the result. */
  ghost predicate Editing(h: Nodes, roots: Roots, id: TreeId, mine: set<Ref>, goals: Goals,
                          stack: seq<EditEntry>, trees: seq<Tree>, final: Tree) {
    && |trees| == |stack|
    && (forall i {:trigger EntryOk(h, roots, id, mine, goals, stack[i], trees[i])} :: 0 <= i < |stack| ==>
          EntryOk(h, roots, id, mine, goals, stack[i], trees[i]))
    && DistinctSlots(stack) && GoalsListed(goals, stack)
    && Fenced(h, roots, id, mine) && mine <= h.Keys
    && id in roots && Awaits(h, goals, Root(id), roots[id], final)
  }

  /** Outside `mine` nothing has changed since the edit began. */
  ghost predicate Isolated(h0: Nodes, roots0: Roots, h: Nodes, roots: Roots, id: TreeId, mine: set<Ref>) {
    && (forall r :: r in h0 && r !in mine ==> r in h && SameContent(h0[r], h[r]))
    && roots.Keys == roots0.Keys
    && forall k :: k in roots && k != id ==> roots[k] == roots0[k]
  }

  lemma {:induction false} AwaitsSkip(h: Nodes, roots: Roots, goals: Goals, slot: Slot, at: Slot, t: Tree)
    requires HasSlot(h, roots, slot) && HasSlot(h, roots, at) && Awaits(h, goals, at, At(h, roots, at), t)
    requires slot in goals && Awaits(h, goals - {slot}, slot, At(h, roots, slot), goals[slot])
    ensures Awaits(h, goals - {slot}, at, At(h, roots, at), t)
    decreases t
  {
    if at !in goals && At(h, roots, at).Ptr? {
      var r := At(h, roots, at).ref;
      forall i | 0 <= i < |t.kids|
        ensures Awaits(h, goals - {slot}, Child(r, i), h[r].children[i], t.kids[i])
      {
        AwaitsSkip(h, roots, goals, slot, Child(r, i), t.kids[i]);
      }
    }
  }

  lemma GoalsAreIn(h: Nodes, roots: Roots, id: TreeId, mine: set<Ref>, goals: Goals,
                   stack: seq<EditEntry>, trees: seq<Tree>, final: Tree)
    requires Editing(h, roots, id, mine, goals, stack, trees, final)
    ensures GoalsIn(goals, id, mine)
  {
    forall slot | slot in goals
      ensures slot == Root(id) || (slot.Child? && slot.parent in mine)
    {
      assert IsListed(stack, slot);
      var i :| 0 <= i < |stack| && stack[i].slot == slot;
      assert EntryOk(h, roots, id, mine, goals, stack[i], trees[i]);
    }
  }

  /** An entry out of the edit's reach is dropped: its subtree stays as it is. */
  lemma EditingSkip(h: Nodes, roots: Roots, id: TreeId, mine: set<Ref>, goals: Goals,
                    stack: seq<EditEntry>, trees: seq<Tree>, final: Tree)
    requires Editing(h, roots, id, mine, goals, stack, trees, final) && stack != []
    requires var n := |stack| - 1; EditTree(trees[n], stack[n].edit) == trees[n]
    ensures var n := |stack| - 1;
            Editing(h, roots, id, mine, goals - {stack[n].slot}, stack[..n], trees[..n], final)
  {
    var n := |stack| - 1;
    var slot, goals' := stack[n].slot, goals - {stack[n].slot};
    assert EntryOk(h, roots, id, mine, goals, stack[n], trees[n]);
    GoalsAreIn(h, roots, id, mine, goals, stack, trees, final);
    AwaitsNothing(h, roots, id, mine, goals', slot, At(h, roots, slot), trees[n]);
    AwaitsSkip(h, roots, goals, slot, Root(id), final);
    forall i | 0 <= i < n
      ensures EntryOk(h, roots, id, mine, goals', stack[..n][i], trees[..n][i])
    {
      assert EntryOk(h, roots, id, mine, goals, stack[i], trees[i]);
    }
    forall other | other in goals'
      ensures IsListed(stack[..n], other)
    {
      assert IsListed(stack, other);
      var i :| 0 <= i < |stack| && stack[i].slot == other;
      assert stack[..n][i].slot == other;
    }
  }

  /** One entry has been processed: `slot`, which denoted `t`, now holds the rewritten node `s`
      whose children are still the old ones. */
  ghost predicate Rewrote(h: Nodes, roots: Roots, id: TreeId, mine: set<Ref>, slot: Slot, e: Edit, t: Tree,
                          s: Subtree, h': Nodes, roots': Roots) {
    && Closed(h, roots, {}) && Fenced(h, roots, id, mine) && mine <= h.Keys && Replaced(h, roots, slot, s, h', roots')
    && (slot == Root(id) || (slot.Child? && slot.parent in mine))
    && (At(h, roots, slot).Ptr? ==> At(h, roots, slot).ref !in mine)
    && Denotes(h, At(h, roots, slot), t) && !IsOutOfReach(t.info, e)
    && match s
       case Inline(leaf) => leaf == EditedInfo(t.info, e) && t.kids == []
       case Ptr(r) => h'[r].info == EditedInfo(t.info, e) && h'[r].children == ChildrenOf(h, At(h, roots, slot))
  }

  ghost function Claimed(mine: set<Ref>, s: Subtree): set<Ref> {
    if s.Ptr? then mine + {s.ref} else mine
  }

  lemma RewrittenIsFresh(h: Nodes, roots: Roots, id: TreeId, mine: set<Ref>, slot: Slot, e: Edit, t: Tree,
                         s: Subtree, h': Nodes, roots': Roots, other: Slot)
    requires Rewrote(h, roots, id, mine, slot, e, t, s, h', roots')
    requires HasSlot(h, roots, other) && other != slot && s.Ptr?
    ensures At(h, roots, other) != s
  {
    assert NamesNode(h, roots, {}, other);
    assert At(h, roots, other) == s ==> other in Owners(h, roots, {}, s.ref);
  }

  lemma RewrittenFence(h: Nodes, roots: Roots, id: TreeId, mine: set<Ref>, slot: Slot, e: Edit, t: Tree,
                       s: Subtree, h': Nodes, roots': Roots)
    requires Rewrote(h, roots, id, mine, slot, e, t, s, h', roots')
    ensures Fenced(h, roots, id, Claimed(mine, s)) && Fenced(h', roots', id, Claimed(mine, s))
    ensures forall x :: x in h && x !in Claimed(mine, s) ==> x in h' && SameContent(h[x], h'[x])
  {
    var mine' := Claimed(mine, s);
    forall p, i | p in h && p !in mine' && 0 <= i < |h[p].children| && h[p].children[i].Ptr?
      ensures h[p].children[i].ref !in mine'
    {
      if s.Ptr? {
        RewrittenIsFresh(h, roots, id, mine, slot, e, t, s, h', roots', Child(p, i));
      }
    }
    forall k | k in roots && k != id && roots[k].Ptr?
      ensures roots[k].ref !in mine'
    {
      if s.Ptr? {
        RewrittenIsFresh(h, roots, id, mine, slot, e, t, s, h', roots', Root(k));
      }
    }
    forall x | x in h && x !in mine'
      ensures SameContent(h[x], h'[x])
    {
      assert SameContent(h'[x], StoredNodes(h, slot, s)[x]);
    }
  }

  /** Another slot of the worklist still holds what it held, outside everything rewritten. */
  lemma OtherSlotApart(h: Nodes, roots: Roots, id: TreeId, mine: set<Ref>, slot: Slot, e: Edit, t: Tree,
                       s: Subtree, h': Nodes, roots': Roots, other: Slot)
    requires Rewrote(h, roots, id, mine, slot, e, t, s, h', roots')
    requires HasSlot(h, roots, other) && other != slot
    requires other == Root(id) || (other.Child? && other.parent in mine)
    requires At(h, roots, other).Ptr? ==> At(h, roots, other).ref !in mine
    ensures HasSlot(h', roots', other) && At(h', roots', other) == At(h, roots, other)
    ensures At(h, roots, other).Ptr? ==> At(h, roots, other).ref !in Claimed(mine, s)
  {
    if s.Ptr? {
      RewrittenIsFresh(h, roots, id, mine, slot, e, t, s, h', roots', other);
      RewrittenNotMine(h, roots, id, mine, slot, e, t, s, h', roots');
    }
    OtherSlotKept(h, roots, slot, s, h', roots', other);
  }

  lemma OtherTreeKept(h: Nodes, roots: Roots, id: TreeId, mine: set<Ref>, slot: Slot, e: Edit, t: Tree,
                      s: Subtree, h': Nodes, roots': Roots, target: Subtree, tree: Tree)
    requires Rewrote(h, roots, id, mine, slot, e, t, s, h', roots')
    requires Denotes(h, target, tree) && (target.Ptr? ==> target.ref !in Claimed(mine, s))
    ensures Denotes(h', target, tree)
  {
    RewrittenFence(h, roots, id, mine, slot, e, t, s, h', roots');
    FencedFrame(h, h', roots, id, Claimed(mine, s), target, tree);
  }

  lemma OtherGoalKept(h: Nodes, roots: Roots, id: TreeId, mine: set<Ref>, slot: Slot, e: Edit, t: Tree,
                      s: Subtree, h': Nodes, roots': Roots, goals: Goals, other: Slot)
    requires Rewrote(h, roots, id, mine, slot, e, t, s, h', roots')
    requires other in goals && other != slot && HasSlot(h, roots, other)
    requires other == Root(id) || (other.Child? && other.parent in mine)
    requires At(h, roots, other).Ptr? ==> At(h, roots, other).ref !in mine
    ensures var goals' := NewGoals(goals, slot, s, t, PlanOf(t.info, t.kids, e));
            other in goals' && goals'[other] == goals[other]
  {
    OtherSlotApart(h, roots, id, mine, slot, e, t, s, h', roots', other);
  }

  /** An entry that was already waiting is still good after the rewrite. */
  lemma OtherEntryOk(h: Nodes, roots: Roots, id: TreeId, mine: set<Ref>, slot: Slot, e: Edit, t: Tree,
                     s: Subtree, h': Nodes, roots': Roots, goals: Goals, entry: EditEntry, tree: Tree)
    requires Rewrote(h, roots, id, mine, slot, e, t, s, h', roots')
    requires EntryOk(h, roots, id, mine, goals, entry, tree) && entry.slot != slot
    ensures EntryOk(h', roots', id, Claimed(mine, s), NewGoals(goals, slot, s, t, PlanOf(t.info, t.kids, e)), entry,
                    tree)
  {
    OtherSlotApart(h, roots, id, mine, slot, e, t, s, h', roots', entry.slot);
    OtherTreeKept(h, roots, id, mine, slot, e, t, s, h', roots', At(h, roots, entry.slot), tree);
    OtherGoalKept(h, roots, id, mine, slot, e, t, s, h', roots', goals, entry.slot);
  }

  lemma OtherSlotKept(h: Nodes, roots: Roots, slot: Slot, s: Subtree, h': Nodes, roots': Roots, other: Slot)
    requires Replaced(h, roots, slot, s, h', roots') && HasSlot(h, roots, other) && other != slot
    requires other.Child? ==> s != Ptr(other.parent)
    ensures HasSlot(h', roots', other) && At(h', roots', other) == At(h, roots, other)
  {
    if other.Child? {
      assert SameContent(h'[other.parent], StoredNodes(h, slot, s)[other.parent]);
    }
  }

  /** The children of the rewritten node lie outside everything rewritten so far. */
  lemma KidOfRewritten(h: Nodes, roots: Roots, id: TreeId, mine: set<Ref>, slot: Slot, e: Edit, t: Tree,
                       s: Subtree, h': Nodes, roots': Roots, i: nat)
    requires Rewrote(h, roots, id, mine, slot, e, t, s, h', roots') && s.Ptr? && i < |t.kids|
    ensures |h'[s.ref].children| == |t.kids|
    ensures Denotes(h', h'[s.ref].children[i], t.kids[i])
    ensures h'[s.ref].children[i].Ptr? ==> h'[s.ref].children[i].ref !in Claimed(mine, s)
  {
    RewrittenFence(h, roots, id, mine, slot, e, t, s, h', roots');
    var r := At(h, roots, slot).ref;
    RewrittenIsFresh(h, roots, id, mine, slot, e, t, s, h', roots', Child(r, i));
    FencedFrame(h, h', roots, id, Claimed(mine, s), h[r].children[i], t.kids[i]);
  }

  lemma KidsOfRewritten(h: Nodes, roots: Roots, id: TreeId, mine: set<Ref>, slot: Slot, e: Edit, t: Tree,
                        s: Subtree, h': Nodes, roots': Roots)
    requires Rewrote(h, roots, id, mine, slot, e, t, s, h', roots') && s.Ptr?
    ensures |h'[s.ref].children| == |t.kids|
    ensures forall i :: 0 <= i < |t.kids| ==> Denotes(h', h'[s.ref].children[i], t.kids[i])
  {
    forall i | 0 <= i < |t.kids|
      ensures |h'[s.ref].children| == |t.kids| && Denotes(h', h'[s.ref].children[i], t.kids[i])
    {
      KidOfRewritten(h, roots, id, mine, slot, e, t, s, h', roots', i);
    }
  }

  ghost function TouchedSlots(r: Ref, plan: seq<Visit>): (slots: set<Slot>)
    ensures forall slot :: slot in slots <==>
              slot.Child? && slot.parent == r && slot.index < |plan| && plan[slot.index].Touch?
  {
    set i | 0 <= i < |plan| && plan[i].Touch? :: Child(r, i)
  }

  /** The goals once `slot` holds `s`: its touched children are to be edited in turn. */
  ghost function NewGoals(goals: Goals, slot: Slot, s: Subtree, t: Tree, plan: seq<Visit>): Goals
    requires |plan| == |t.kids|
  {
    if s.Inline? then goals - {slot}
    else
      (goals - {slot}) +
      (map other | other in TouchedSlots(s.ref, plan) :: EditTree(t.kids[other.index], plan[other.index].edit))
  }

  ghost function NewStack(stack: seq<EditEntry>, s: Subtree, plan: seq<Visit>): seq<EditEntry>
    requires stack != []
  {
    stack[..|stack| - 1] + if s.Inline? then [] else EntriesFor(s.ref, plan, |plan|)
  }

  ghost function NewTrees(trees: seq<Tree>, s: Subtree, t: Tree, plan: seq<Visit>): seq<Tree>
    requires trees != [] && |plan| == |t.kids|
  {
    trees[..|trees| - 1] + if s.Inline? then [] else TreesFor(t.kids, plan, |plan|)
  }

  lemma RewrittenNotMine(h: Nodes, roots: Roots, id: TreeId, mine: set<Ref>, slot: Slot, e: Edit, t: Tree,
                         s: Subtree, h': Nodes, roots': Roots)
    requires Rewrote(h, roots, id, mine, slot, e, t, s, h', roots') && s.Ptr?
    ensures s.ref !in mine
  {
    assert s.ref in h ==> slot in Owners(h, roots, {}, s.ref);
  }

  lemma NewGoalsAreIn(h: Nodes, roots: Roots, id: TreeId, mine: set<Ref>, slot: Slot, e: Edit, t: Tree,
                      s: Subtree, h': Nodes, roots': Roots, goals: Goals)
    requires Rewrote(h, roots, id, mine, slot, e, t, s, h', roots') && GoalsIn(goals, id, mine)
    ensures var goals' := NewGoals(goals, slot, s, t, PlanOf(t.info, t.kids, e));
            GoalsIn(goals', id, Claimed(mine, s)) && slot !in goals'
  {
  }

  lemma AwaitsKid(h: Nodes, roots: Roots, id: TreeId, mine: set<Ref>, slot: Slot, e: Edit, t: Tree,
                  s: Subtree, h': Nodes, roots': Roots, goals: Goals, i: nat)
    requires Rewrote(h, roots, id, mine, slot, e, t, s, h', roots') && GoalsIn(goals, id, mine)
    requires s.Ptr? && i < |t.kids|
    ensures |h'[s.ref].children| == |t.kids|
    ensures var goals' := NewGoals(goals, slot, s, t, PlanOf(t.info, t.kids, e));
            Awaits(h', goals', Child(s.ref, i), h'[s.ref].children[i], EditTree(t, e).kids[i])
  {
    var plan := PlanOf(t.info, t.kids, e);
    var goals' := NewGoals(goals, slot, s, t, plan);
    var kidSlot := Child(s.ref, i);
    KidOfRewritten(h, roots, id, mine, slot, e, t, s, h', roots', i);
    NewGoalsAreIn(h, roots, id, mine, slot, e, t, s, h', roots', goals);
    RewrittenNotMine(h, roots, id, mine, slot, e, t, s, h', roots');
    if plan[i].Touch? {
      assert kidSlot in TouchedSlots(s.ref, plan);
    } else {
      RewrittenFence(h, roots, id, mine, slot, e, t, s, h', roots');
      AwaitsNothing(h', roots', id, Claimed(mine, s), goals', kidSlot, h'[s.ref].children[i], t.kids[i]);
    }
  }

  /** The rewritten node, with its queued children still to come, will denote the edited tree. */
  lemma AwaitsRewritten(h: Nodes, roots: Roots, id: TreeId, mine: set<Ref>, slot: Slot, e: Edit, t: Tree,
                        s: Subtree, h': Nodes, roots': Roots, goals: Goals)
    requires Rewrote(h, roots, id, mine, slot, e, t, s, h', roots') && GoalsIn(goals, id, mine)
    ensures Awaits(h', NewGoals(goals, slot, s, t, PlanOf(t.info, t.kids, e)), slot, s, EditTree(t, e))
  {
    NewGoalsAreIn(h, roots, id, mine, slot, e, t, s, h', roots', goals);
    if s.Ptr? {
      forall i | 0 <= i < |t.kids|
        ensures |h'[s.ref].children| == |t.kids|
        ensures Awaits(h', NewGoals(goals, slot, s, t, PlanOf(t.info, t.kids, e)), Child(s.ref, i),
                       h'[s.ref].children[i], EditTree(t, e).kids[i])
      {
        AwaitsKid(h, roots, id, mine, slot, e, t, s, h', roots', goals, i);
      }
      assert |h'[s.ref].children| == |t.kids|;
    }
  }

  lemma NewEntryOk(h: Nodes, roots: Roots, id: TreeId, mine: set<Ref>, slot: Slot, e: Edit, t: Tree,
                   s: Subtree, h': Nodes, roots': Roots, goals: Goals, j: nat)
    requires Rewrote(h, roots, id, mine, slot, e, t, s, h', roots') && s.Ptr?
    requires var plan := PlanOf(t.info, t.kids, e); j < |EntriesFor(s.ref, plan, |plan|)|
    ensures var plan := PlanOf(t.info, t.kids, e);
            EntryOk(h', roots', id, Claimed(mine, s), NewGoals(goals, slot, s, t, plan),
                    EntriesFor(s.ref, plan, |plan|)[j], TreesFor(t.kids, plan, |plan|)[j])
  {
    var plan := PlanOf(t.info, t.kids, e);
    var i := TouchedBelow(plan, |plan|)[j];
    KidOfRewritten(h, roots, id, mine, slot, e, t, s, h', roots', i);
    assert Child(s.ref, i) in TouchedSlots(s.ref, plan);
  }

  lemma NewStackAt(stack: seq<EditEntry>, trees: seq<Tree>, s: Subtree, t: Tree, plan: seq<Visit>, i: nat)
    requires stack != [] && |trees| == |stack| && |plan| == |t.kids| && i < |NewStack(stack, s, plan)|
    ensures |NewTrees(trees, s, t, plan)| == |NewStack(stack, s, plan)|
    ensures var n := |stack| - 1;
            if i < n then NewStack(stack, s, plan)[i] == stack[i] && NewTrees(trees, s, t, plan)[i] == trees[i]
            else
              && s.Ptr? && i - n < |EntriesFor(s.ref, plan, |plan|)|
              && NewStack(stack, s, plan)[i] == EntriesFor(s.ref, plan, |plan|)[i - n]
              && NewTrees(trees, s, t, plan)[i] == TreesFor(t.kids, plan, |plan|)[i - n]
  {
  }

  lemma TouchedIsListed(stack: seq<EditEntry>, r: Ref, plan: seq<Visit>, i: nat)
    requires stack != [] && i < |plan| && plan[i].Touch?
    ensures IsListed(NewStack(stack, Ptr(r), plan), Child(r, i))
  {
    var touched, entries := TouchedBelow(plan, |plan|), EntriesFor(r, plan, |plan|);
    var j :| 0 <= j < |touched| && touched[j] == i;
    assert entries[j].slot == Child(r, i);
    assert NewStack(stack, Ptr(r), plan)[|stack| - 1 + j] == entries[j];
  }

  lemma NewGoalListed(goals: Goals, stack: seq<EditEntry>, s: Subtree, t: Tree, plan: seq<Visit>, other: Slot)
    requires stack != [] && |plan| == |t.kids| && GoalsListed(goals, stack)
    requires other in NewGoals(goals, stack[|stack| - 1].slot, s, t, plan)
    ensures IsListed(NewStack(stack, s, plan), other)
  {
    if s.Ptr? && other in TouchedSlots(s.ref, plan) {
      TouchedIsListed(stack, s.ref, plan, other.index);
    } else {
      assert IsListed(stack, other);
      var i :| 0 <= i < |stack| && stack[i].slot == other;
      assert NewStack(stack, s, plan)[i] == stack[i];
    }
  }

  lemma NewStackDistinct(stack: seq<EditEntry>, trees: seq<Tree>, s: Subtree, t: Tree, plan: seq<Visit>)
    requires stack != [] && |trees| == |stack| && |plan| == |t.kids| && DistinctSlots(stack)
    requires s.Ptr? ==> forall i :: 0 <= i < |stack| && stack[i].slot.Child? ==> stack[i].slot.parent != s.ref
    ensures DistinctSlots(NewStack(stack, s, plan))
  {
    var stack' := NewStack(stack, s, plan);
    forall i, j | 0 <= i < j < |stack'|
      ensures stack'[i].slot != stack'[j].slot
    {
      NewStackAt(stack, trees, s, t, plan, i);
      NewStackAt(stack, trees, s, t, plan, j);
    }
  }

  lemma OldEntriesOk(h: Nodes, roots: Roots, id: TreeId, mine: set<Ref>, goals: Goals, stack: seq<EditEntry>,
                     trees: seq<Tree>, final: Tree, s: Subtree, h': Nodes, roots': Roots, i: nat)
    requires Editing(h, roots, id, mine, goals, stack, trees, final) && i < |stack| - 1
    requires var n := |stack| - 1; Rewrote(h, roots, id, mine, stack[n].slot, stack[n].edit, trees[n], s, h', roots')
    ensures var n := |stack| - 1;
            var plan := PlanOf(trees[n].info, trees[n].kids, stack[n].edit);
            EntryOk(h', roots', id, Claimed(mine, s), NewGoals(goals, stack[n].slot, s, trees[n], plan), stack[i],
                    trees[i])
  {
    var n := |stack| - 1;
    assert EntryOk(h, roots, id, mine, goals, stack[i], trees[i]);
    assert stack[i].slot != stack[n].slot;
    OtherEntryOk(h, roots, id, mine, stack[n].slot, stack[n].edit, trees[n], s, h', roots', goals, stack[i], trees[i]);
  }

  lemma NewStackApart(h: Nodes, roots: Roots, id: TreeId, mine: set<Ref>, goals: Goals, stack: seq<EditEntry>,
                      trees: seq<Tree>, final: Tree, s: Subtree, h': Nodes, roots': Roots)
    requires Editing(h, roots, id, mine, goals, stack, trees, final) && stack != []
    requires var n := |stack| - 1; Rewrote(h, roots, id, mine, stack[n].slot, stack[n].edit, trees[n], s, h', roots')
    ensures var n := |stack| - 1;
            var plan := PlanOf(trees[n].info, trees[n].kids, stack[n].edit);
            var stack' := NewStack(stack, s, plan);
            |NewTrees(trees, s, trees[n], plan)| == |stack'| && DistinctSlots(stack')
  {
    var n := |stack| - 1;
    var slot, e, t := stack[n].slot, stack[n].edit, trees[n];
    if s.Ptr? {
      RewrittenNotMine(h, roots, id, mine, slot, e, t, s, h', roots');
    }
    forall i | 0 <= i < |stack| && stack[i].slot.Child?
      ensures s.Ptr? ==> stack[i].slot.parent != s.ref
    {
      assert EntryOk(h, roots, id, mine, goals, stack[i], trees[i]);
    }
    NewStackDistinct(stack, trees, s, t, PlanOf(t.info, t.kids, e));
  }

  lemma NewStackEntryOk(h: Nodes, roots: Roots, id: TreeId, mine: set<Ref>, goals: Goals, stack: seq<EditEntry>,
                        trees: seq<Tree>, final: Tree, s: Subtree, h': Nodes, roots': Roots, i: nat)
    requires Editing(h, roots, id, mine, goals, stack, trees, final) && stack != []
    requires var n := |stack| - 1; Rewrote(h, roots, id, mine, stack[n].slot, stack[n].edit, trees[n], s, h', roots')
    requires var n := |stack| - 1;
             i < |NewStack(stack, s, PlanOf(trees[n].info, trees[n].kids, stack[n].edit))|
    ensures var n := |stack| - 1;
            var plan := PlanOf(trees[n].info, trees[n].kids, stack[n].edit);
            var stack', trees' := NewStack(stack, s, plan), NewTrees(trees, s, trees[n], plan);
            && |trees'| == |stack'|
            && EntryOk(h', roots', id, Claimed(mine, s), NewGoals(goals, stack[n].slot, s, trees[n], plan),
                       stack'[i], trees'[i])
  {
    var n := |stack| - 1;
    var slot, e, t := stack[n].slot, stack[n].edit, trees[n];
    NewStackAt(stack, trees, s, t, PlanOf(t.info, t.kids, e), i);
    if i < n {
      OldEntriesOk(h, roots, id, mine, goals, stack, trees, final, s, h', roots', i);
    } else {
      NewEntryOk(h, roots, id, mine, slot, e, t, s, h', roots', goals, i - n);
    }
  }

  lemma NewStackOk(h: Nodes, roots: Roots, id: TreeId, mine: set<Ref>, goals: Goals, stack: seq<EditEntry>,
                   trees: seq<Tree>, final: Tree, s: Subtree, h': Nodes, roots': Roots)
    requires Editing(h, roots, id, mine, goals, stack, trees, final) && stack != []
    requires var n := |stack| - 1; Rewrote(h, roots, id, mine, stack[n].slot, stack[n].edit, trees[n], s, h', roots')
    ensures var n := |stack| - 1;
            var plan := PlanOf(trees[n].info, trees[n].kids, stack[n].edit);
            var stack', trees' := NewStack(stack, s, plan), NewTrees(trees, s, trees[n], plan);
            && |trees'| == |stack'| && DistinctSlots(stack')
            && forall i {:trigger EntryOk(h', roots', id, Claimed(mine, s),
                                          NewGoals(goals, stack[n].slot, s, trees[n], plan), stack'[i], trees'[i])} ::
                 0 <= i < |stack'| ==>
                   EntryOk(h', roots', id, Claimed(mine, s), NewGoals(goals, stack[n].slot, s, trees[n], plan),
                           stack'[i], trees'[i])
  {
    var n := |stack| - 1;
    var plan := PlanOf(trees[n].info, trees[n].kids, stack[n].edit);
    var goals', stack' := NewGoals(goals, stack[n].slot, s, trees[n], plan), NewStack(stack, s, plan);
    var trees' := NewTrees(trees, s, trees[n], plan);
    NewStackApart(h, roots, id, mine, goals, stack, trees, final, s, h', roots');
    forall i | 0 <= i < |stack'|
      ensures EntryOk(h', roots', id, Claimed(mine, s), goals', stack'[i], trees'[i])
    {
      NewStackEntryOk(h, roots, id, mine, goals, stack, trees, final, s, h', roots', i);
    }
  }

  lemma FinalAwaited(h: Nodes, roots: Roots, id: TreeId, mine: set<Ref>, goals: Goals, stack: seq<EditEntry>,
                     trees: seq<Tree>, final: Tree, s: Subtree, h': Nodes, roots': Roots)
    requires Editing(h, roots, id, mine, goals, stack, trees, final) && stack != []
    requires var n := |stack| - 1; Rewrote(h, roots, id, mine, stack[n].slot, stack[n].edit, trees[n], s, h', roots')
    ensures HasSlot(h', roots', Root(id))
    ensures var n := |stack| - 1;
            var plan := PlanOf(trees[n].info, trees[n].kids, stack[n].edit);
            Awaits(h', NewGoals(goals, stack[n].slot, s, trees[n], plan), Root(id), At(h', roots', Root(id)), final)
  {
    var n := |stack| - 1;
    var slot, e, t := stack[n].slot, stack[n].edit, trees[n];
    var goals' := NewGoals(goals, slot, s, t, PlanOf(t.info, t.kids, e));
    GoalsAreIn(h, roots, id, mine, goals, stack, trees, final);
    NewGoalsAreIn(h, roots, id, mine, slot, e, t, s, h', roots', goals);
    AwaitsRewritten(h, roots, id, mine, slot, e, t, s, h', roots', goals);
    assert EntryOk(h, roots, id, mine, goals, stack[n], trees[n]);
    AwaitsStep(h, roots, slot, s, h', roots', goals, goals', Root(id), final);
  }

  /** One turn of the loop: the last entry is processed and its touched children are queued. */
  lemma EditingStep(h: Nodes, roots: Roots, id: TreeId, mine: set<Ref>, goals: Goals, stack: seq<EditEntry>,
                    trees: seq<Tree>, final: Tree, s: Subtree, h': Nodes, roots': Roots)
    requires Editing(h, roots, id, mine, goals, stack, trees, final) && stack != []
    requires var n := |stack| - 1; Rewrote(h, roots, id, mine, stack[n].slot, stack[n].edit, trees[n], s, h', roots')
    ensures var n := |stack| - 1;
            var plan := PlanOf(trees[n].info, trees[n].kids, stack[n].edit);
            Editing(h', roots', id, Claimed(mine, s), NewGoals(goals, stack[n].slot, s, trees[n], plan),
                    NewStack(stack, s, plan), NewTrees(trees, s, trees[n], plan), final)
  {
    var n := |stack| - 1;
    var slot, e, t := stack[n].slot, stack[n].edit, trees[n];
    var plan := PlanOf(t.info, t.kids, e);
    var goals', stack' := NewGoals(goals, slot, s, t, plan), NewStack(stack, s, plan);
    GoalsAreIn(h, roots, id, mine, goals, stack, trees, final);
    RewrittenFence(h, roots, id, mine, slot, e, t, s, h', roots');
    NewStackOk(h, roots, id, mine, goals, stack, trees, final, s, h', roots');
    forall other | other in goals'
      ensures IsListed(stack', other)
    {
      NewGoalListed(goals, stack, s, t, plan, other);
    }
    NewGoalsAreIn(h, roots, id, mine, slot, e, t, s, h', roots', goals);
    FinalAwaited(h, roots, id, mine, goals, stack, trees, final, s, h', roots');
  }

  lemma EditingStart(h: Nodes, roots: Roots, id: TreeId, e: Edit, t: Tree)
    requires id in roots && Denotes(h, roots[id], t)
    ensures Editing(h, roots, id, {}, map[Root(id) := EditTree(t, e)], [EditEntry(Root(id), e)], [t], EditTree(t, e))
    ensures Isolated(h, roots, h, roots, id, {})
  {
    var goals, stack := map[Root(id) := EditTree(t, e)], [EditEntry(Root(id), e)];
    assert stack[0].slot == Root(id);
    assert EntryOk(h, roots, id, {}, goals, stack[0], [t][0]);
  }

  lemma EditingDone(h0: Nodes, roots0: Roots, h: Nodes, roots: Roots, id: TreeId, mine: set<Ref>, goals: Goals,
                    final: Tree)
    requires Editing(h, roots, id, mine, goals, [], [], final) && Isolated(h0, roots0, h, roots, id, mine)
    requires Closed(h0, roots0, {}) && id in roots0
    ensures Denotes(h, roots[id], final)
    ensures forall k, t :: k in roots && k != id && Denotes(h0, roots[k], t) ==> Denotes(h, roots[k], t)
    ensures forall r :: Reachable(h0, roots0 - {id}, r) ==> r in h0 && r in h && SameContent(h0[r], h[r])
  {
    forall slot
      ensures slot !in goals
    {
      assert !IsListed([], slot);
    }
    assert goals == map[];
    AwaitsDone(h, Root(id), roots[id], final);
    assert Fenced(h0, roots0, id, mine);
    forall k, t | k in roots && k != id && Denotes(h0, roots[k], t)
      ensures Denotes(h, roots[k], t)
    {
      FencedFrame(h0, h, roots0, id, mine, roots[k], t);
    }
    forall r | Reachable(h0, roots0 - {id}, r)
      ensures r in h0 && r in h && SameContent(h0[r], h[r])
    {
      var chain :| IsChain(h0, roots0 - {id}, chain) && chain[|chain| - 1] == r;
      FencedChain(h0, roots0, id, mine, chain);
      ReachableIsNode(h0, roots0, id, chain);
    }
  }

  lemma ReachableIsNode(h: Nodes, roots: Roots, id: TreeId, chain: seq<Ref>)
    requires Closed(h, roots, {}) && IsChain(h, roots - {id}, chain)
    ensures chain[|chain| - 1] in h
  {
    var last := |chain| - 1;
    if last == 0 {
      var k :| k in roots && roots[k] == Ptr(chain[0]);
      assert NamesNode(h, roots, {}, Root(k));
    } else {
      assert IsChild(h, chain[last - 1], chain[last]);
      var i :| 0 <= i < |h[chain[last - 1]].children| && h[chain[last - 1]].children[i] == Ptr(chain[last]);
      assert NamesNode(h, roots, {}, Child(chain[last - 1], i));
    }
  }

  lemma IsolatedStep(h0: Nodes, roots0: Roots, h: Nodes, roots: Roots, id: TreeId, mine: set<Ref>, slot: Slot, e: Edit,
                     t: Tree, s: Subtree, h': Nodes, roots': Roots)
    requires Isolated(h0, roots0, h, roots, id, mine)
    requires Rewrote(h, roots, id, mine, slot, e, t, s, h', roots')
    ensures Isolated(h0, roots0, h', roots', id, Claimed(mine, s))
  {
    RewrittenFence(h, roots, id, mine, slot, e, t, s, h', roots');
  }

  lemma WorkShrinks(trees: seq<Tree>, s: Subtree, plan: seq<Visit>)
    requires trees != [] && |plan| == |trees[|trees| - 1].kids|
    ensures ForestSize(NewTrees(trees, s, trees[|trees| - 1], plan)) < ForestSize(trees)
  {
    var t := trees[|trees| - 1];
    ForestSizeAppend(trees[..|trees| - 1], if s.Inline? then [] else TreesFor(t.kids, plan, |plan|));
    QueuedSize(t.kids, plan, |plan|);
    assert t.kids[..|plan|] == t.kids;
  }

  // ---- Taking ownership of one node and storing it back ----

  /** The reference in `slot` is in the hands of a local variable, which holds `m`: what was in
      the slot if nobody shares it, else a copy or a promoted leaf. Nothing else has changed. */
  ghost predicate Owned(h0: Nodes, roots: Roots, slot: Slot, h: Nodes, m: Subtree) {
    && HasSlot(h0, roots, slot)
    && Counts(h, roots, {slot}, HeldFrom(m)) && Closed(h, roots, {})
    && (forall r :: r in h ==> h[r].refCount > 0 && !h[r].info.isInline)
    && (forall x :: x in h <==> x in h0 || m == Ptr(x))
    && (forall x :: x in h0 && m != Ptr(x) ==> SameContent(h[x], h0[x]))
    && match m
       case Inline(leaf) => InlineOk(leaf)
       case Ptr(r) =>
         && h[r].children == OwnedChildren(h0, roots, slot)
         && (r in h0 ==> At(h0, roots, slot) == m && h0[r].refCount == 1)
  }

  // ---- Cloning ----

  ghost function SlotsFrom(p: Ref, i: nat, n: nat): set<Slot> {
    set j | i <= j < n :: Child(p, j)
  }

  /** While the children of a copy are being retained: the first `i` slots own, the rest do not yet. */
  ghost predicate Cloning(h0: Nodes, h: Nodes, roots: Roots, dead: set<Slot>, held: multiset<Ref>, r: Ref, copy: Ref,
                          i: nat) {
    && r in h0 && copy !in h0 && h.Keys == h0.Keys + {copy}
    && (forall x :: x in h0 ==> SameContent(h[x], h0[x]) && h[x].refCount >= h0[x].refCount)
    && h[copy] == HeapData(1, h0[r].info, h0[r].children)
    && Counts(h, roots, dead + SlotsFrom(copy, i, |h0[r].children|), held + multiset{copy})
    && Closed(h, roots, {})
  }

  lemma CloningStart(h: Nodes, roots: Roots, dead: set<Slot>, held: multiset<Ref>, r: Ref, copy: Ref)
    requires Counts(h, roots, dead, held) && Closed(h, roots, {}) && r in h && copy !in h && held[copy] == 0
    ensures Cloning(h, h[copy := HeapData(1, h[r].info, h[r].children)], roots, dead, held, r, copy, 0)
  {
    var h' := h[copy := HeapData(1, h[r].info, h[r].children)];
    forall i | 0 <= i < |h[r].children| && h[r].children[i].Ptr?
      ensures h[r].children[i].ref in h
    {
      assert NamesNode(h, roots, {}, Child(r, i));
    }
    NewNode(h, roots, dead, held, copy, h[r].info, h[r].children);
    assert SlotsFrom(copy, 0, |h[r].children|) == SlotsOf(h', copy);
    forall slot
      ensures NamesNode(h', roots, {}, slot)
    {
      assert NamesNode(h, roots, {}, slot);
    }
  }

  lemma CloningStep(h0: Nodes, h: Nodes, roots: Roots, dead: set<Slot>, held: multiset<Ref>, r: Ref, copy: Ref, i: nat)
    requires Cloning(h0, h, roots, dead, held, r, copy, i) && i < |h0[r].children|
    requires Closed(h0, roots, {}) && forall j: nat :: Child(copy, j) !in dead
    ensures h0[r].children[i].Ptr? ==> h0[r].children[i].ref in h
    ensures Cloning(h0, Retained(h, h0[r].children[i]), roots, dead, held, r, copy, i + 1)
  {
    var slot, n := Child(copy, i), |h0[r].children|;
    assert NamesNode(h, roots, {}, slot) && NamesNode(h0, roots, {}, Child(r, i));
    Revive(h, roots, dead + SlotsFrom(copy, i, n), held + multiset{copy}, slot);
    assert dead + SlotsFrom(copy, i, n) - {slot} == dead + SlotsFrom(copy, i + 1, n);
    var h' := Retained(h, h0[r].children[i]);
    forall other
      ensures NamesNode(h', roots, {}, other)
    {
      assert NamesNode(h, roots, {}, other);
    }
  }

  // ---- The three ways to own a node ----

  ghost function OwnedChildren(h0: Nodes, roots: Roots, slot: Slot): seq<Subtree>
    requires HasSlot(h0, roots, slot)
  {
    match At(h0, roots, slot)
    case Inline(_) => []
    case Ptr(x) => if x in h0 then h0[x].children else []
  }

  lemma OwnUnshared(h: Nodes, roots: Roots, slot: Slot)
    requires SubtreeMemory.Valid(h, roots) && HasSlot(h, roots, slot)
    requires At(h, roots, slot).Ptr? ==> At(h, roots, slot).ref in h && h[At(h, roots, slot).ref].refCount == 1
    ensures Owned(h, roots, slot, h, At(h, roots, slot))
  {
    GiveUp(h, roots, {}, multiset{}, slot);
    assert {} + {slot} == {slot};
    assert multiset{} + HeldFrom(At(h, roots, slot)) == HeldFrom(At(h, roots, slot));
    assert LeafFits(h, roots, slot);
  }

  lemma OwnCopy(h0: Nodes, h: Nodes, roots: Roots, slot: Slot, r: Ref, copy: Ref)
    requires SubtreeMemory.Valid(h0, roots) && HasSlot(h0, roots, slot) && At(h0, roots, slot) == Ptr(r)
    requires r in h0 && h0[r].refCount > 1
    requires Cloning(h0, h, roots, {slot}, multiset{r}, r, copy, |h0[r].children|)
    ensures h[r].refCount > 1 && Owned(h0, roots, slot, Dropped(h, r), Ptr(copy))
  {
    assert SlotsFrom(copy, |h0[r].children|, |h0[r].children|) == {};
    assert {slot} + {} == {slot};
    assert multiset{r} + multiset{copy} == multiset{copy} + multiset{r};
    DropHeld(h, roots, {slot}, multiset{copy}, r);
    DroppedIsClosed(h, roots, r);
  }

  lemma DroppedIsClosed(h: Nodes, roots: Roots, r: Ref)
    requires Closed(h, roots, {}) && r in h && h[r].refCount > 0
    ensures Closed(Dropped(h, r), roots, {})
  {
    forall other
      ensures NamesNode(Dropped(h, r), roots, {}, other)
    {
      assert NamesNode(h, roots, {}, other);
    }
  }

  lemma OwnPromoted(h: Nodes, roots: Roots, slot: Slot, leaf: Ref, info: Info)
    requires SubtreeMemory.Valid(h, roots) && HasSlot(h, roots, slot) && At(h, roots, slot).Inline?
    requires leaf !in h && !info.isInline
    ensures Owned(h, roots, slot, h[leaf := HeapData(1, info, [])], Ptr(leaf))
  {
    OwnUnshared(h, roots, slot);
    var h' := h[leaf := HeapData(1, info, [])];
    NewNode(h, roots, {slot}, multiset{}, leaf, info, []);
    assert SlotsOf(h', leaf) == {} && {slot} + {} == {slot};
    assert multiset{} + multiset{leaf} == multiset{leaf};
    forall other
      ensures NamesNode(h', roots, {}, other)
    {
      assert NamesNode(h, roots, {}, other);
    }
  }

  /** The owner of a node may rewrite its fields. */
  lemma InfoKeepsOwners(h: Nodes, roots: Roots, dead: set<Slot>, r: Ref, info: Info, x: Ref)
    requires r in h
    ensures Owners(h[r := h[r].(info := info)], roots, dead, x) == Owners(h, roots, dead, x)
  {
    assert AllSlots(h[r := h[r].(info := info)], roots) == AllSlots(h, roots);
  }

  lemma OwnedInfo(h0: Nodes, roots: Roots, slot: Slot, h: Nodes, r: Ref, info: Info)
    requires Owned(h0, roots, slot, h, Ptr(r)) && !info.isInline
    ensures Owned(h0, roots, slot, h[r := h[r].(info := info)], Ptr(r))
  {
    var h' := h[r := h[r].(info := info)];
    forall x
      ensures IsExact(h', roots, {slot}, multiset{r}, x)
    {
      assert IsExact(h, roots, {slot}, multiset{r}, x);
      InfoKeepsOwners(h, roots, {slot}, r, info, x);
    }
    forall other
      ensures NamesNode(h', roots, {}, other)
    {
      assert NamesNode(h, roots, {}, other);
    }
  }

  lemma StoredElsewhere(h0: Nodes, roots: Roots, slot: Slot, h: Nodes, m: Subtree, x: Ref)
    requires HasSlot(h0, roots, slot) && HasSlot(h, roots, slot)
    requires x in h0 && x in h && m != Ptr(x) && SameContent(h[x], h0[x])
    ensures x in StoredNodes(h, slot, m) && x in StoredNodes(h0, slot, m)
    ensures SameContent(StoredNodes(h, slot, m)[x], StoredNodes(h0, slot, m)[x])
  {
  }

  lemma StoredIsReplaced(h0: Nodes, roots: Roots, slot: Slot, h: Nodes, m: Subtree)
    requires SubtreeMemory.Valid(h0, roots) && Owned(h0, roots, slot, h, m)
    ensures HasSlot(h, roots, slot)
    ensures Replaced(h0, roots, slot, m, StoredNodes(h, slot, m), StoredRoots(roots, slot, m))
  {
    if m.Ptr? && m.ref in h0 {
      SoleOwner(h0, roots, slot);
      var rank :| Ranked(h0, rank);
      assert slot.Child? ==> Descends(h0, rank, slot.parent, slot.index);
    }
    forall x | x in h0 && m != Ptr(x)
      ensures SameContent(StoredNodes(h, slot, m)[x], StoredNodes(h0, slot, m)[x])
    {
      StoredElsewhere(h0, roots, slot, h, m, x);
    }
  }

  lemma StoredIsClosed(h0: Nodes, roots: Roots, slot: Slot, h: Nodes, m: Subtree)
    requires SubtreeMemory.Valid(h0, roots) && Owned(h0, roots, slot, h, m)
    ensures HasSlot(h, roots, slot)
    ensures var h', roots' := StoredNodes(h, slot, m), StoredRoots(roots, slot, m);
            Closed(h', roots', {}) && Counts(h', roots', {}, multiset{})
  {
    var h', roots' := StoredNodes(h, slot, m), StoredRoots(roots, slot, m);
    StoredIsReplaced(h0, roots, slot, h, m);
    assert multiset{} + HeldFrom(m) == HeldFrom(m);
    TakeOver(h, roots, {slot}, multiset{}, slot, m);
    assert {slot} - {slot} == {};
    forall other
      ensures NamesNode(h', roots', {}, other)
    {
      StoredSlots(h, roots, slot, m, other);
      assert NamesNode(h, roots, {}, other);
    }
  }

  lemma StoredIsAcyclic(h0: Nodes, roots: Roots, slot: Slot, h: Nodes, m: Subtree)
    requires SubtreeMemory.Valid(h0, roots) && Owned(h0, roots, slot, h, m)
    ensures HasSlot(h, roots, slot) && Acyclic(StoredNodes(h, slot, m))
  {
    StoredIsReplaced(h0, roots, slot, h, m);
    var rank :| Ranked(h0, rank);
    var rank' := RaisedRank(rank, h0, roots, slot, m);
    assert NamesNode(h0, roots, {}, slot);
    forall p, i: nat
      ensures Descends(StoredNodes(h, slot, m), rank', p, i)
    {
      if m == Ptr(p) {
        StoredDescendsFromNew(h0, roots, rank, slot, h, m, i);
      } else {
        StoredDescends(h0, roots, rank, slot, h, m, p, i);
      }
    }
    assert Ranked(StoredNodes(h, slot, m), rank');
  }

  /** Everything moves up one; a copy ranks with its original, a promoted leaf at the bottom. */
  ghost function RaisedRank(rank: map<Ref, nat>, h0: Nodes, roots: Roots, slot: Slot, m: Subtree): map<Ref, nat>
    requires HasSlot(h0, roots, slot)
  {
    var higher := map x | x in rank :: rank[x] + 1;
    match m
    case Inline(_) => higher
    case Ptr(r) =>
      match At(h0, roots, slot)
      case Ptr(x) => higher[r := if x in rank then rank[x] + 1 else 0]
      case Inline(_) => higher[r := 0]
  }

  lemma StoredDescends(h0: Nodes, roots: Roots, rank: map<Ref, nat>, slot: Slot, h: Nodes, m: Subtree, p: Ref, i: nat)
    requires Closed(h0, roots, {}) && Owned(h0, roots, slot, h, m) && Ranked(h0, rank) && HasSlot(h, roots, slot)
    requires Replaced(h0, roots, slot, m, StoredNodes(h, slot, m), StoredRoots(roots, slot, m))
    requires m != Ptr(p)
    ensures Descends(StoredNodes(h, slot, m), RaisedRank(rank, h0, roots, slot, m), p, i)
  {
    var h' := StoredNodes(h, slot, m);
    if p in h' && i < |h'[p].children| && h'[p].children[i].Ptr? {
      StoredEdge(h0, roots, slot, h, m, p, i);
      if Child(p, i) == slot {
        StoredEdgeDescends(h0, roots, rank, slot, m, p, i);
      } else {
        OldEdgeDescends(h0, roots, rank, slot, m, p, i);
      }
    }
  }

  /** What the children of an old node are after the store. */
  lemma StoredEdge(h0: Nodes, roots: Roots, slot: Slot, h: Nodes, m: Subtree, p: Ref, i: nat)
    requires Owned(h0, roots, slot, h, m) && HasSlot(h, roots, slot) && p in StoredNodes(h, slot, m) && m != Ptr(p)
    requires i < |StoredNodes(h, slot, m)[p].children|
    ensures p in h0 && i < |h0[p].children|
    ensures StoredNodes(h, slot, m)[p].children[i] == if Child(p, i) == slot then m else h0[p].children[i]
  {
    assert SameContent(h[p], h0[p]);
  }

  lemma StoredEdgeDescends(h0: Nodes, roots: Roots, rank: map<Ref, nat>, slot: Slot, m: Subtree, p: Ref, i: nat)
    requires Closed(h0, roots, {}) && Ranked(h0, rank) && HasSlot(h0, roots, slot) && slot == Child(p, i)
    requires m.Ptr? && m != Ptr(p) && (m.ref in h0 ==> At(h0, roots, slot) == m)
    ensures var rank' := RaisedRank(rank, h0, roots, slot, m);
            p in rank' && m.ref in rank' && rank'[m.ref] < rank'[p]
  {
    assert NamesNode(h0, roots, {}, slot) && Descends(h0, rank, p, i);
  }

  lemma OldEdgeDescends(h0: Nodes, roots: Roots, rank: map<Ref, nat>, slot: Slot, m: Subtree, p: Ref, i: nat)
    requires Closed(h0, roots, {}) && Ranked(h0, rank) && HasSlot(h0, roots, slot) && m != Ptr(p)
    requires m.Ptr? && m.ref in h0 ==> Owners(h0, roots, {}, m.ref) == {slot}
    requires p in h0 && i < |h0[p].children| && h0[p].children[i].Ptr? && Child(p, i) != slot
    ensures var rank' := RaisedRank(rank, h0, roots, slot, m);
            p in rank' && h0[p].children[i].ref in rank' && rank'[h0[p].children[i].ref] < rank'[p]
  {
    assert NamesNode(h0, roots, {}, Child(p, i)) && Descends(h0, rank, p, i);
    if m.Ptr? && m.ref in h0 {
      NotAnOwner(h0, roots, slot, m.ref, Child(p, i));
    }
  }

  lemma StoredDescendsFromNew(h0: Nodes, roots: Roots, rank: map<Ref, nat>, slot: Slot, h: Nodes, m: Subtree, i: nat)
    requires Closed(h0, roots, {}) && Owned(h0, roots, slot, h, m) && Ranked(h0, rank) && HasSlot(h, roots, slot)
    requires Replaced(h0, roots, slot, m, StoredNodes(h, slot, m), StoredRoots(roots, slot, m))
    requires m.Ptr?
    ensures Descends(StoredNodes(h, slot, m), RaisedRank(rank, h0, roots, slot, m), m.ref, i)
  {
    assert StoredNodes(h, slot, m)[m.ref] == h[m.ref];
    if At(h0, roots, slot).Ptr? {
      var x := At(h0, roots, slot).ref;
      assert NamesNode(h0, roots, {}, slot);
      assert NamesNode(h0, roots, {}, Child(x, i)) && Descends(h0, rank, x, i);
    }
  }

  lemma StoredKinds(h0: Nodes, roots: Roots, slot: Slot, h: Nodes, m: Subtree)
    requires SubtreeMemory.Valid(h0, roots) && Owned(h0, roots, slot, h, m)
    ensures HasSlot(h, roots, slot) && Kinds(StoredNodes(h, slot, m), StoredRoots(roots, slot, m))
  {
    StoredIsReplaced(h0, roots, slot, h, m);
    forall other
      ensures LeafFits(StoredNodes(h, slot, m), StoredRoots(roots, slot, m), other)
    {
      StoredLeafFits(h0, roots, slot, h, m, other);
    }
  }

  lemma StoredLeafFits(h0: Nodes, roots: Roots, slot: Slot, h: Nodes, m: Subtree, other: Slot)
    requires Closed(h0, roots, {}) && Kinds(h0, roots) && Owned(h0, roots, slot, h, m) && HasSlot(h, roots, slot)
    ensures LeafFits(StoredNodes(h, slot, m), StoredRoots(roots, slot, m), other)
  {
    StoredSlots(h, roots, slot, m, other);
    assert NamesNode(h0, roots, {}, slot);
    if other != slot && HasSlot(h, roots, other) {
      var origin := if other.Child? && m == Ptr(other.parent) && At(h0, roots, slot).Ptr?
        then Child(At(h0, roots, slot).ref, other.index) else other;
      assert LeafFits(h0, roots, origin);
    }
  }

  lemma EditedLeafFits(leaf: Info, e: Edit)
    requires InlineOk(leaf) && EditedInfo(leaf, e).isInline
    ensures InlineOk(EditedInfo(leaf, e))
  {
  }

  /** Storing an owned node back makes memory valid again. */
  lemma StoredIsValid(h0: Nodes, roots: Roots, slot: Slot, h: Nodes, m: Subtree)
    requires SubtreeMemory.Valid(h0, roots) && Owned(h0, roots, slot, h, m)
    ensures HasSlot(h, roots, slot)
    ensures var h', roots' := StoredNodes(h, slot, m), StoredRoots(roots, slot, m);
            SubtreeMemory.Valid(h', roots') && Replaced(h0, roots, slot, m, h', roots')
    ensures m.Ptr? ==> var h' := StoredNodes(h, slot, m);
              m.ref in h' && m.ref in h && h'[m.ref] == h[m.ref] && h[m.ref].children == OwnedChildren(h0, roots, slot)
  {
    StoredIsReplaced(h0, roots, slot, h, m);
    StoredIsClosed(h0, roots, slot, h, m);
    StoredIsAcyclic(h0, roots, slot, h, m);
    StoredKinds(h0, roots, slot, h, m);
  }

  // ---- Several edits ----

  function AllEdits(t: Tree, edits: seq<Edit>): Tree {
    if edits == [] then t else EditTree(AllEdits(t, edits[..|edits| - 1]), edits[|edits| - 1])
  }

  lemma OneMoreEdit(t: Tree, edits: seq<Edit>, i: nat)
    requires i < |edits|
    ensures AllEdits(t, edits[..i + 1]) == EditTree(AllEdits(t, edits[..i]), edits[i])
  {
    assert edits[..i + 1][..i] == edits[..i];
  }

  /** What these handles reach says what it said. */
  ghost predicate Untouched(h: Nodes, h': Nodes, roots: Roots) {
    forall r {:trigger Reachable(h, roots, r)} :: Reachable(h, roots, r) ==>
      r in h && r in h' && SameContent(h[r], h'[r])
  }

  lemma ReachableKept(h: Nodes, h': Nodes, roots: Roots, r: Ref)
    requires Untouched(h, h', roots) && Reachable(h, roots, r)
    ensures Reachable(h', roots, r)
  {
    var chain :| IsChain(h, roots, chain) && chain[|chain| - 1] == r;
    forall k | 0 < k < |chain|
      ensures IsChild(h', chain[k - 1], chain[k])
    {
      var prefix := chain[..k];
      assert IsChild(h, chain[k - 1], chain[k]);
      assert forall j :: 0 < j < k ==> IsChild(h, prefix[j - 1], prefix[j]) by {
        assert forall j :: 0 < j < k ==> IsChild(h, chain[j - 1], chain[j]);
      }
      assert IsChain(h, roots, prefix) && prefix[|prefix| - 1] == chain[k - 1];
      assert Reachable(h, roots, chain[k - 1]);
    }
    assert IsChain(h', roots, chain);
  }

  /** What a handle reaches exists. */
  lemma ReachableStored(h: Nodes, roots: Roots, others: Roots)
    requires Closed(h, roots, {}) && others.Keys <= roots.Keys && forall k :: k in others ==> others[k] == roots[k]
    ensures forall r :: Reachable(h, others, r) ==> r in h
  {
    forall r | Reachable(h, others, r)
      ensures r in h
    {
      var chain :| IsChain(h, others, chain) && chain[|chain| - 1] == r;
      if |chain| == 1 {
        var k :| k in others && others[k] == Ptr(chain[0]);
        assert NamesNode(h, roots, {}, Root(k));
      } else {
        assert IsChild(h, chain[|chain| - 2], r);
        var i :| 0 <= i < |h[chain[|chain| - 2]].children| && h[chain[|chain| - 2]].children[i] == Ptr(r);
        assert NamesNode(h, roots, {}, Child(chain[|chain| - 2], i));
      }
    }
  }

  lemma UntouchedTransitive(h0: Nodes, h1: Nodes, h2: Nodes, roots: Roots)
    requires Untouched(h0, h1, roots) && Untouched(h1, h2, roots)
    ensures Untouched(h0, h2, roots)
  {
    forall r | Reachable(h0, roots, r)
      ensures r in h0 && r in h2 && SameContent(h0[r], h2[r])
    {
      ReachableKept(h0, h1, roots, r);
    }
  }

  /** A handle whose nodes say what they said denotes what it did. */
  lemma {:induction false} UntouchedTree(h: Nodes, h': Nodes, roots: Roots, chain: seq<Ref>, t: Tree)
    requires Untouched(h, h', roots) && IsChain(h, roots, chain) && Denotes(h, Ptr(chain[|chain| - 1]), t)
    ensures Denotes(h', Ptr(chain[|chain| - 1]), t)
    decreases t
  {
    var r := chain[|chain| - 1];
    assert Reachable(h, roots, r);
    forall i | 0 <= i < |t.kids|
      ensures Denotes(h', h'[r].children[i], t.kids[i])
    {
      if h[r].children[i].Ptr? {
        var k := h[r].children[i].ref;
        var longer := chain + [k];
        assert IsChild(h, r, k);
        forall j | 0 < j < |longer|
          ensures IsChild(h, longer[j - 1], longer[j])
        {
          assert j < |chain| ==> IsChild(h, chain[j - 1], chain[j]);
        }
        UntouchedTree(h, h', roots, longer, t.kids[i]);
      }
    }
  }

  lemma UntouchedTrees(h: Nodes, h': Nodes, roots: Roots, id: TreeId, t: Tree)
    requires Untouched(h, h', roots) && id in roots && Denotes(h, roots[id], t)
    ensures Denotes(h', roots[id], t)
  {
    if roots[id].Ptr? {
      assert IsChain(h, roots, [roots[id].ref]);
      UntouchedTree(h, h', roots, [roots[id].ref], t);
    }
  }
}
