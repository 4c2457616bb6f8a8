/** What releasing references does to memory: a worklist frees every node whose last owner is
    gone, and what is left is exactly what the remaining handles reach. */
module Reclamation {
  import opened SyntaxTrees
  import opened SubtreeMemory

  /** Releasing never rewrites a surviving node, it only lowers its count. */
  ghost predicate Survives(h: Nodes, h': Nodes) {
    forall r :: r in h' ==> r in h && SameContent(h[r], h'[r])
  }

  /** The nodes waiting to be freed are exactly those whose count has reached zero. */
  ghost predicate IsWorklist(h: Nodes, stack: seq<Ref>) {
    && (forall i, j :: 0 <= i < j < |stack| ==> stack[i] != stack[j])
    && (forall r :: r in h && h[r].refCount == 0 <==> r in stack)
  }

  /** The worklist after the count of `r` has been lowered to what `h` says. */
  function Enlisted(h: Nodes, stack: seq<Ref>, r: Ref): seq<Ref>
    requires r in h
  {
    if h[r].refCount == 0 then stack + [r] else stack
  }

  /** While `tree` is being freed: its first `i` slots have died, the others still own. */
  ghost predicate Freeing(h0: Nodes, h: Nodes, roots: Roots, stack: seq<Ref>, tree: Ref, i: nat, held: multiset<Ref>) {
    && SameContents(h0, h)
    && tree in h && tree !in stack && IsWorklist(h, stack + [tree])
    && Counts(h, roots, SlotsUpTo(tree, i), held)
    && Closed(h, roots, {})
  }

  /** While a release is under way; only the last reference to `r` sets the worklist going. */
  lemma TopOfWorklist(h: Nodes, stack: seq<Ref>)
    requires stack != [] && IsWorklist(h, stack)
    ensures var n := |stack| - 1;
            && stack == stack[..n] + [stack[n]] && IsWorklist(h, stack[..n] + [stack[n]])
            && stack[n] in h && h[stack[n]].refCount == 0 && stack[n] !in stack[..n]
  {
    var n := |stack| - 1;
    assert stack == stack[..n] + [stack[n]];
  }

  ghost predicate Releasing(h0: Nodes, h: Nodes, roots: Roots, stack: seq<Ref>, r: Ref,
                            held: multiset<Ref>)
    requires r in h0 && h0[r].refCount > 0
  {
    && (Counts(h0, roots, {}, held + multiset{r}) ==> Counts(h, roots, {}, held))
    && (h0[r].refCount > 1 ==> stack == [] && h == Dropped(h0, r))
    && Closed(h, roots, {}) && Survives(h0, h) && IsWorklist(h, stack)
  }

  ghost function SlotsUpTo(p: Ref, n: nat): set<Slot> {
    set i | 0 <= i < n :: Child(p, i)
  }

  lemma ClosedKept(h: Nodes, h': Nodes, roots: Roots)
    requires SameContents(h, h') && Closed(h, roots, {})
    ensures Closed(h', roots, {})
  {
    forall slot
      ensures NamesNode(h', roots, {}, slot)
    {
      assert NamesNode(h, roots, {}, slot);
    }
  }

  lemma ReleaseStart(h: Nodes, roots: Roots, r: Ref, held: multiset<Ref>)
    requires r in h && h[r].refCount > 0 && Closed(h, roots, {})
    requires h[r].refCount == 1 ==> Counts(h, roots, {}, held + multiset{r})
    requires forall x :: x in h ==> h[x].refCount > 0
    ensures Releasing(h, Dropped(h, r), roots, Enlisted(Dropped(h, r), [], r), r, held)
  {
    if Counts(h, roots, {}, held + multiset{r}) {
      DropHeld(h, roots, {}, held, r);
    }
    ClosedKept(h, Dropped(h, r), roots);
  }

  lemma FreeingStep(h0: Nodes, h: Nodes, roots: Roots, stack: seq<Ref>, tree: Ref, i: nat, held: multiset<Ref>)
    requires Freeing(h0, h, roots, stack, tree, i, held) && i < |h[tree].children|
    ensures match h[tree].children[i]
            case Inline(_) => Freeing(h0, h, roots, stack, tree, i + 1, held)
            case Ptr(r) =>
              && r in h && h[r].refCount > 0
              && Freeing(h0, Dropped(h, r), roots, Enlisted(Dropped(h, r), stack, r), tree, i + 1, held)
  {
    var slot := Child(tree, i);
    assert NamesNode(h, roots, {}, slot);
    Kill(h, roots, SlotsUpTo(tree, i), held, slot);
    assert SlotsUpTo(tree, i) + {slot} == SlotsUpTo(tree, i + 1);
    match h[tree].children[i]
    case Inline(_) =>
    case Ptr(r) =>
      ClosedKept(h, Dropped(h, r), roots);
      WorklistGrows(h, stack, tree, r);
  }

  lemma FreeingStart(h: Nodes, roots: Roots, stack: seq<Ref>, tree: Ref, held: multiset<Ref>)
    requires tree in h && h[tree].refCount == 0 && tree !in stack && IsWorklist(h, stack + [tree])
    requires Counts(h, roots, {}, held) && Closed(h, roots, {})
    ensures Freeing(h, h, roots, stack, tree, 0, held)
  {
    assert SlotsUpTo(tree, 0) == {};
  }

  lemma FreeingEnd(h0: Nodes, h: Nodes, roots: Roots, stack: seq<Ref>, tree: Ref, held: multiset<Ref>)
    requires tree in h && Freeing(h0, h, roots, stack, tree, |h[tree].children|, held)
    ensures var h' := h - {tree};
            && Counts(h', roots, {}, held) && Closed(h', roots, {})
            && IsWorklist(h', stack) && Survives(h0, h') && h'.Keys == h0.Keys - {tree}
  {
    var all := stack + [tree];
    assert forall r :: r in all <==> r in stack || r == tree;
    assert forall i :: 0 <= i < |stack| ==> all[i] == stack[i];
    assert all[|stack|] == tree;
    assert SlotsUpTo(tree, |h[tree].children|) == SlotsOf(h, tree);
    FreeNode(h, roots, held, tree);
  }

  lemma WorklistGrows(h: Nodes, stack: seq<Ref>, tree: Ref, child: Ref)
    requires IsWorklist(h, stack + [tree]) && child in h && h[child].refCount > 0
    ensures var h' := Dropped(h, child);
            tree != child && child !in stack && IsWorklist(h', Enlisted(h', stack, child) + [tree])
  {
    var all := stack + [tree];
    assert forall r :: r in all <==> r in stack || r == tree;
    assert forall i :: 0 <= i < |stack| ==> all[i] == stack[i];
    assert all[|stack|] == tree;
    assert child !in all;
    assert forall i :: 0 <= i < |stack| ==> stack[i] in all;
  }

  lemma RankSurvives(h: Nodes, h': Nodes, rank: map<Ref, nat>)
    requires Ranked(h, rank) && Survives(h, h')
    ensures Ranked(h', rank)
  {
    forall p, i: nat
      ensures Descends(h', rank, p, i)
    {
      assert Descends(h, rank, p, i);
    }
  }

  // ---- Handles ----

  lemma CopiedRootCounts(h: Nodes, roots: Roots, id: TreeId, newId: TreeId)
    requires SubtreeMemory.Valid(h, roots) && id in roots && newId !in roots
    ensures roots[id].Ptr? ==> roots[id].ref in h
    ensures Counts(Retained(h, roots[id]), roots[newId := roots[id]], {}, multiset{})
  {
    var roots' := roots[newId := roots[id]];
    assert NamesNode(h, roots, {}, Root(id));
    forall r
      ensures IsExact(h, roots', {Root(newId)}, multiset{}, r)
    {
      assert IsExact(h, roots, {}, multiset{}, r);
      assert Owners(h, roots', {Root(newId)}, r) == Owners(h, roots, {}, r);
    }
    Revive(h, roots', {Root(newId)}, multiset{}, Root(newId));
    assert {Root(newId)} - {Root(newId)} == {};
  }

  lemma CopyRoot(h: Nodes, roots: Roots, id: TreeId, newId: TreeId)
    requires SubtreeMemory.Valid(h, roots) && id in roots && newId !in roots
    ensures roots[id].Ptr? ==> roots[id].ref in h
    ensures SubtreeMemory.Valid(Retained(h, roots[id]), roots[newId := roots[id]])
  {
    var s, roots' := roots[id], roots[newId := roots[id]];
    assert NamesNode(h, roots, {}, Root(id));
    CopiedRootCounts(h, roots, id, newId);
    var h' := Retained(h, s);
    forall slot
      ensures NamesNode(h', roots', {}, slot)
    {
      assert NamesNode(h, roots, {}, slot);
    }
    var rank :| Ranked(h, rank);
    RankSurvives(h, h', rank);
    assert LeafFits(h, roots, Root(id));
    forall slot
      ensures LeafFits(h', roots', slot)
    {
      assert LeafFits(h, roots, slot);
    }
  }

  lemma DropRoot(h: Nodes, roots: Roots, id: TreeId)
    requires SubtreeMemory.Valid(h, roots) && id in roots
    ensures roots[id].Ptr? ==> roots[id].ref in h
    ensures Counts(h, roots - {id}, {}, HeldFrom(roots[id])) && Closed(h, roots - {id}, {})
  {
    var roots' := roots - {id};
    assert NamesNode(h, roots, {}, Root(id));
    GiveUp(h, roots, {}, multiset{}, Root(id));
    forall r
      ensures IsExact(h, roots', {}, HeldFrom(roots[id]), r)
    {
      assert IsExact(h, roots, {} + {Root(id)}, multiset{} + HeldFrom(roots[id]), r);
      assert Owners(h, roots', {}, r) == Owners(h, roots, {} + {Root(id)}, r);
    }
    forall slot
      ensures NamesNode(h, roots', {}, slot)
    {
      assert NamesNode(h, roots, {}, slot);
    }
  }

  // ---- Exact reclamation ----

  lemma {:induction false} ReachableSurvives(h: Nodes, h': Nodes, roots: Roots, chain: seq<Ref>)
    requires Survives(h, h') && Closed(h', roots, {}) && IsChain(h, roots, chain)
    ensures chain[|chain| - 1] in h'
    decreases |chain|
  {
    var last := |chain| - 1;
    if last == 0 {
      var id :| id in roots && roots[id] == Ptr(chain[0]);
      assert NamesNode(h', roots, {}, Root(id));
    } else {
      var prefix := chain[..last];
      forall k | 0 < k < |prefix|
        ensures IsChild(h, prefix[k - 1], prefix[k])
      {
        assert IsChild(h, chain[k - 1], chain[k]);
      }
      ReachableSurvives(h, h', roots, prefix);
      assert IsChild(h, chain[last - 1], chain[last]);
      var i :| 0 <= i < |h[chain[last - 1]].children| && h[chain[last - 1]].children[i] == Ptr(chain[last]);
      assert NamesNode(h', roots, {}, Child(chain[last - 1], i));
    }
  }

  lemma {:induction false} RankBound(rank: map<Ref, nat>, keys: set<Ref>) returns (bound: nat)
    requires keys <= rank.Keys
    ensures forall r :: r in keys ==> rank[r] < bound
  {
    if keys == {} {
      bound := 0;
    } else {
      var r :| r in keys;
      var rest := RankBound(rank, keys - {r});
      bound := if rank[r] < rest then rest else rank[r] + 1;
    }
  }

  /** A counted node has an owner; following owners upwards ends at a handle. */
  lemma {:induction false} CountedIsReachable(h: Nodes, roots: Roots, rank: map<Ref, nat>, bound: nat, r: Ref)
    requires Counts(h, roots, {}, multiset{}) && Ranked(h, rank) && r in h
    requires forall x :: x in h ==> h[x].refCount > 0 && rank[x] < bound
    ensures Reachable(h, roots, r)
    decreases bound - rank[r]
  {
    assert IsExact(h, roots, {}, multiset{}, r);
    assert Owners(h, roots, {}, r) != {};
    var slot :| slot in Owners(h, roots, {}, r);
    match slot {
      case Root(id) =>
        assert IsChain(h, roots, [r]);
        assert [r][|[r]| - 1] == r;
      case Child(p, i) =>
        assert Descends(h, rank, p, i);
        CountedIsReachable(h, roots, rank, bound, p);
        var chain :| IsChain(h, roots, chain) && chain[|chain| - 1] == p;
        var longer := chain + [r];
        assert IsChild(h, p, r);
        assert IsChain(h, roots, longer) by {
          forall k | 0 < k < |longer|
            ensures IsChild(h, longer[k - 1], longer[k])
          {
            if k < |chain| {
              assert IsChild(h, chain[k - 1], chain[k]);
            }
          }
        }
        assert longer[|longer| - 1] == r;
    }
  }

  lemma {:induction false} SurvivingTree(h: Nodes, h': Nodes, roots: Roots, s: Subtree, t: Tree)
    requires Survives(h, h') && Closed(h', roots, {}) && Denotes(h, s, t) && (s.Ptr? ==> s.ref in h')
    ensures Denotes(h', s, t)
    decreases t
  {
    if s.Ptr? {
      forall i | 0 <= i < |t.kids|
        ensures Denotes(h', h'[s.ref].children[i], t.kids[i])
      {
        assert NamesNode(h', roots, {}, Child(s.ref, i));
        SurvivingTree(h, h', roots, h[s.ref].children[i], t.kids[i]);
      }
    }
  }

  lemma SurvivorsValid(h: Nodes, h': Nodes, roots: Roots, id: TreeId)
    requires Acyclic(h) && Kinds(h, roots) && Survives(h, h')
    ensures Acyclic(h') && Kinds(h', roots - {id})
  {
    var rank :| Ranked(h, rank);
    RankSurvives(h, h', rank);
    forall slot
      ensures LeafFits(h', roots - {id}, slot)
    {
      assert LeafFits(h, roots, slot);
    }
  }

  /** After a release nothing is leaked and nothing is lost. */
  lemma Reclaimed(h: Nodes, h': Nodes, roots: Roots)
    requires Acyclic(h) && Survives(h, h') && Counts(h', roots, {}, multiset{}) && Closed(h', roots, {})
    requires forall r :: r in h' ==> h'[r].refCount > 0
    ensures forall r :: r in h' <==> Reachable(h, roots, r)
    ensures forall k, t :: k in roots && Denotes(h, roots[k], t) ==> Denotes(h', roots[k], t)
  {
    var rank :| Ranked(h, rank);
    RankSurvives(h, h', rank);
    var bound := RankBound(rank, h'.Keys);
    forall r
      ensures r in h' <==> Reachable(h, roots, r)
    {
      if r in h' {
        CountedIsReachable(h', roots, rank, bound, r);
        var chain :| IsChain(h', roots, chain) && chain[|chain| - 1] == r;
        ChainSurvived(h, h', roots, chain);
      }
      if Reachable(h, roots, r) {
        var chain :| IsChain(h, roots, chain) && chain[|chain| - 1] == r;
        ReachableSurvives(h, h', roots, chain);
      }
    }
    forall k, t | k in roots && Denotes(h, roots[k], t)
      ensures Denotes(h', roots[k], t)
    {
      assert NamesNode(h', roots, {}, Root(k));
      SurvivingTree(h, h', roots, roots[k], t);
    }
  }

  lemma ChainSurvived(h: Nodes, h': Nodes, roots: Roots, chain: seq<Ref>)
    requires Survives(h, h') && IsChain(h', roots, chain)
    ensures IsChain(h, roots, chain)
  {
    forall k | 0 < k < |chain|
      ensures IsChild(h, chain[k - 1], chain[k])
    {
      assert IsChild(h', chain[k - 1], chain[k]);
    }
  }
}
