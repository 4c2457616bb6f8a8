/** Why rebalancing repeat chains in place is invisible. A chain is first rotated with all caches
    left stale, then summarized from the bottom up; the proof follows a second memory, the truth,
    with the same children and right caches throughout. Models ts_subtree_compress
    (subtree.c:292-336) and ts_parser__balance_subtree (parser.c:1878-1933). */
module Balancing {
  import opened SyntaxTrees
  import opened Summaries
  import opened VisibleTrees
  import opened SubtreeMemory
  import opened Rotations
  import opened Fragility

  /** The real node at `r` against the true one: only nodes in `stale` may cache something wrong. */
  ghost predicate TracksAt(h: Nodes, truth: Nodes, stale: set<Ref>, r: Ref) {
    && (r in h <==> r in truth)
    && (r in h ==>
          && h[r].children == truth[r].children && h[r].refCount == truth[r].refCount
          && Base(h[r].info) == Base(truth[r].info)
          && (r !in stale ==> Outer(h[r].info) == Outer(truth[r].info))
          && (h[r].children == [] ==> h[r] == truth[r]))
  }

  ghost predicate Tracks(h: Nodes, truth: Nodes, stale: set<Ref>) {
    forall r {:trigger TracksAt(h, truth, stale, r)} :: TracksAt(h, truth, stale, r)
  }

  lemma TracksItself(h: Nodes)
    ensures Tracks(h, h, {})
  {
    forall r
      ensures TracksAt(h, h, {}, r)
    {
    }
  }

  lemma TracksMore(h: Nodes, truth: Nodes, stale: set<Ref>, more: set<Ref>)
    requires Tracks(h, truth, stale) && stale <= more
    ensures Tracks(h, truth, more)
  {
    forall r
      ensures TracksAt(h, truth, more, r)
    {
      assert TracksAt(h, truth, stale, r);
    }
  }

  /** Only caches differ, so whoever reads no cache sees the same memory. */
  lemma SameShapeValid(h: Nodes, h': Nodes, roots: Roots, stale: set<Ref>)
    requires SubtreeMemory.Valid(h, roots) && Tracks(h', h, stale)
    ensures SubtreeMemory.Valid(h', roots)
  {
    forall slot
      ensures HasSlot(h', roots, slot) <==> HasSlot(h, roots, slot)
      ensures HasSlot(h, roots, slot) ==> At(h', roots, slot) == At(h, roots, slot)
      ensures NamesNode(h', roots, {}, slot) && LeafFits(h', roots, slot)
    {
      if slot.Child? {
        assert TracksAt(h', h, stale, slot.parent);
      }
      assert NamesNode(h, roots, {}, slot) && LeafFits(h, roots, slot);
      if HasSlot(h, roots, slot) && At(h, roots, slot).Ptr? {
        assert TracksAt(h', h, stale, At(h, roots, slot).ref);
      }
    }
    forall r
      ensures IsExact(h', roots, {}, multiset{}, r)
      ensures r in h' ==> h'[r].refCount > 0 && !h'[r].info.isInline
    {
      assert IsExact(h, roots, {}, multiset{}, r) && TracksAt(h', h, stale, r);
      assert Owners(h', roots, {}, r) == Owners(h, roots, {}, r);
      assert r in h' ==> Base(h'[r].info).isInline == Base(h[r].info).isInline;
    }
    var rank :| Ranked(h, rank);
    forall p, i: nat
      ensures Descends(h', rank, p, i)
    {
      assert Descends(h, rank, p, i) && TracksAt(h', h, stale, p);
      if p in h && i < |h[p].children| && h[p].children[i].Ptr? {
        assert TracksAt(h', h, stale, h[p].children[i].ref);
      }
    }
    forall p | p in h'
      ensures p in rank
    {
      assert TracksAt(h', h, stale, p);
    }
    assert Ranked(h', rank);
  }

  lemma RotationTracks(h: Nodes, truth: Nodes, stale: set<Ref>, x: Ref, c: Ref, g: Ref, truth': Nodes)
    requires Tracks(h, truth, stale) && CanRotate(h, x, c, g)
    requires IsRotation(truth, x, c, g, truth')
    ensures Tracks(Rotated(h, x, c, g), truth', stale + {c, g})
  {
    assert TracksAt(h, truth, stale, x) && TracksAt(h, truth, stale, c) && TracksAt(h, truth, stale, g);
    forall r
      ensures TracksAt(Rotated(h, x, c, g), truth', stale + {c, g}, r)
    {
      assert TracksAt(h, truth, stale, r) && NodeRotated(truth, x, c, g, truth', r);
    }
  }

  lemma TruthCanRotate(h: Nodes, truth: Nodes, stale: set<Ref>, x: Ref, c: Ref, g: Ref)
    requires Tracks(h, truth, stale) && CanRotate(h, x, c, g)
    ensures CanRotate(truth, x, c, g)
  {
    assert TracksAt(h, truth, stale, x) && TracksAt(h, truth, stale, c) && TracksAt(h, truth, stale, g);
    assert Base(h[x].info).symbol == h[x].info.symbol && Base(h[c].info).symbol == h[c].info.symbol
        && Base(h[g].info).symbol == h[g].info.symbol;
  }

  // ---- Summarizing one node ----

  ghost predicate KidsFresh(h: Nodes, r: Ref, stale: set<Ref>) {
    r in h ==> forall i :: 0 <= i < |h[r].children| && h[r].children[i].Ptr? ==> h[r].children[i].ref !in stale
  }

  /** `h'` is `h` after the node at `r` has been summarized. */
  ghost predicate Summarized(lang: Language, h: Nodes, r: Ref, h': Nodes) {
    && r in h && h[r].children != [] && AreNodes(h, h[r].children)
    && h'.Keys == h.Keys && (forall other :: other in h && other != r ==> h'[other] == h[other])
    && h'[r].children == h[r].children && h'[r].refCount == h[r].refCount
    && Base(h'[r].info) == Base(h[r].info)
    && Outer(h'[r].info) == Summary(lang, Base(h[r].info), KidsOf(h, h[r].children))
    && Flags(h'[r].info) == FlagsAfter(Flags(h[r].info), InfosOf(h, h[r].children))
    && h'[r].info.parseState == StateAfter(h[r].info.parseState, InfosOf(h, h[r].children))
  }

  ghost predicate CanSummarize(h: Nodes, r: Ref) {
    r in h && h[r].children != [] && AreNodes(h, h[r].children)
  }

  /** Everything the node at `r` caches once it has been summarized. */
  ghost function SummaryInfo(lang: Language, h: Nodes, r: Ref): Info
    requires CanSummarize(h, r)
  {
    var info, infos := h[r].info, InfosOf(h, h[r].children);
    Annotated(Summary(lang, Base(info), KidsOf(h, h[r].children)), FlagsAfter(Flags(info), infos),
              StateAfter(info.parseState, infos), DependsOnColumn(info.size, infos), RepeatDepthOf(info, infos))
  }

  ghost function SummarizedAt(lang: Language, h: Nodes, r: Ref): Nodes {
    if CanSummarize(h, r) then h[r := h[r].(info := SummaryInfo(lang, h, r))] else h
  }

  lemma SummarizedAtIs(lang: Language, h: Nodes, r: Ref)
    requires CanSummarize(h, r)
    ensures Summarized(lang, h, r, SummarizedAt(lang, h, r))
    ensures SummarizedAt(lang, h, r)[r].info.repeatDepth == RepeatDepthOf(h[r].info, InfosOf(h, h[r].children))
  {
    var info, kids, infos := h[r].info, KidsOf(h, h[r].children), InfosOf(h, h[r].children);
    AnnotatedFields(info, TallyOf(lang, Base(info), kids), kids[0], FlagsAfter(Flags(info), infos),
                    StateAfter(info.parseState, infos), DependsOnColumn(info.size, infos), RepeatDepthOf(info, infos));
  }

  /** `SummarizedAt` for one language, as a value. */
  datatype Summarizer = Summarizer(lang: Language, at: (Nodes, Ref) -> Nodes)
  {
    ghost predicate RightAt(h: Nodes, r: Ref) {
      at(h, r) == SummarizedAt(lang, h, r)
    }

    ghost predicate Right() {
      forall h, r {:trigger RightAt(h, r)} :: RightAt(h, r)
    }
  }

  ghost function SummarizerOf(lang: Language): (f: Summarizer)
    ensures f.lang == lang && f.Right()
  {
    var f := Summarizer(lang, (h, r) => SummarizedAt(lang, h, r));
    assert forall h, r {:trigger f.RightAt(h, r)} :: f.RightAt(h, r);
    f
  }

  lemma SummarizerIs(f: Summarizer, h: Nodes, r: Ref)
    requires f.Right() && CanSummarize(h, r)
    ensures Summarized(f.lang, h, r, f.at(h, r))
    ensures f.at(h, r)[r].info.repeatDepth == RepeatDepthOf(h[r].info, InfosOf(h, h[r].children))
  {
    assert f.RightAt(h, r);
    SummarizedAtIs(f.lang, h, r);
  }

  lemma SummarizerSkips(f: Summarizer, h: Nodes, r: Ref)
    requires f.Right()
    ensures !CanSummarize(h, r) ==> f.at(h, r) == h
    ensures forall y :: y != r ==> (y in f.at(h, r) <==> y in h) && (y in h ==> f.at(h, r)[y] == h[y])
  {
    assert f.RightAt(h, r);
  }

  lemma FreshKids(h: Nodes, truth: Nodes, stale: set<Ref>, r: Ref)
    requires Tracks(h, truth, stale) && r in h && AreNodes(h, h[r].children) && KidsFresh(h, r, stale)
    ensures AreNodes(truth, h[r].children) && KidsOf(h, h[r].children) == KidsOf(truth, h[r].children)
  {
    forall i | 0 <= i < |h[r].children|
      ensures h[r].children[i].Ptr? ==> h[r].children[i].ref in h && h[r].children[i].ref in truth
      ensures KidOf(h, h[r].children[i]) == KidOf(truth, h[r].children[i])
    {
      if h[r].children[i].Ptr? {
        var k := h[r].children[i].ref;
        assert TracksAt(h, truth, stale, k);
        assert Outer(h[k].info).firstLeafState == h[k].info.firstLeafState;
        assert Outer(truth[k].info).firstLeafState == truth[k].info.firstLeafState;
      }
    }
  }

  /** Summarizing a node whose children are right puts it right. */
  lemma SummarizeFresh(lang: Language, h: Nodes, truth: Nodes, stale: set<Ref>, r: Ref, h': Nodes)
    requires Tracks(h, truth, stale) && Summarized(lang, h, r, h') && KidsFresh(h, r, stale) && LocalOk(lang, truth, r)
    ensures Tracks(h', truth, stale - {r})
  {
    FreshKids(h, truth, stale, r);
    assert TracksAt(h, truth, stale, r);
    forall other
      ensures TracksAt(h', truth, stale - {r}, other)
    {
      assert TracksAt(h, truth, stale, other);
    }
  }

  /** Summarizing a stale node does no harm. */
  lemma SummarizeStale(lang: Language, h: Nodes, truth: Nodes, stale: set<Ref>, r: Ref, h': Nodes)
    requires Tracks(h, truth, stale) && Summarized(lang, h, r, h') && r in stale
    ensures Tracks(h', truth, stale)
  {
    forall other
      ensures TracksAt(h', truth, stale, other)
    {
      assert TracksAt(h, truth, stale, other);
    }
  }

  /** With nothing stale left, every cache in the territory is right and every tree is as it should be. */
  lemma NothingStale(lang: Language, h: Nodes, truth: Nodes, roots: Roots, dom: set<Ref>)
    requires Tracks(h, truth, {}) && OkIn(lang, truth, dom) && Closed(truth, roots, {})
    ensures OkIn(lang, h, dom) && SameTrees(lang, truth, h, roots)
  {
    forall r | r in dom
      ensures LocalOk(lang, h, r)
    {
      assert LocalOk(lang, truth, r) && TracksAt(h, truth, {}, r);
      if r in h && h[r].children != [] {
        forall i | 0 <= i < |h[r].children| && h[r].children[i].Ptr?
          ensures h[r].children[i].ref in h
        {
          assert NamesNode(truth, roots, {}, Child(r, i)) && TracksAt(h, truth, {}, h[r].children[i].ref);
        }
        FreshKids(h, truth, {}, r);
      }
    }
    forall k, t | k in roots && Denotes(truth, roots[k], t)
      ensures StillShows(lang, h, roots[k], t)
    {
      var u := CachesKeepTree(lang, h, truth, roots[k], t);
    }
  }

  lemma {:induction false} CachesKeepTree(lang: Language, h: Nodes, truth: Nodes, s: Subtree, t: Tree) returns (u: Tree)
    requires Tracks(h, truth, {}) && Denotes(truth, s, t)
    ensures Denotes(h, s, u) && Same(lang, t, u)
    decreases t
  {
    if s.Inline? {
      u := t;
    } else {
      assert TracksAt(h, truth, {}, s.ref);
      DenotesKids(truth, s.ref, t);
      var kids := CachesKeepForest(lang, h, truth, truth[s.ref].children, t.kids);
      u := DenotesNode(h, s.ref, kids);
      SameParent(lang, t.info, t.kids, kids);
      SameOuterSame(lang, Tree(t.info, kids), u);
      SameTransitive(lang, t, Tree(t.info, kids), u);
    }
  }

  lemma SameOuterSame(lang: Language, t: Tree, u: Tree)
    requires t.kids == u.kids && Outer(t.info) == Outer(u.info) && (t.kids == [] ==> t == u)
    ensures Same(lang, t, u)
  {
    assert Outer(t.info).productionId == t.info.productionId && Outer(u.info).productionId == u.info.productionId;
    if t.kids != [] {
      HiddenLeaves(t);
      HiddenLeaves(u);
    }
  }

  lemma {:induction false} CachesKeepForest(lang: Language, h: Nodes, truth: Nodes, ss: seq<Subtree>, ts: seq<Tree>)
    returns (us: seq<Tree>)
    requires Tracks(h, truth, {}) && DenotesAll(truth, ss, ts)
    ensures AllSame(lang, ts, us) && DenotesAll(h, ss, us)
    decreases ts
  {
    if ts == [] {
      us := [];
    } else {
      assert Denotes(truth, ss[0], ts[0]);
      DenotesSlice(truth, ss, ts, 1, |ss|);
      var first := CachesKeepTree(lang, h, truth, ss[0], ts[0]);
      var rest := CachesKeepForest(lang, h, truth, ss[1..], ts[1..]);
      us := [first] + rest;
      AllSameOne(lang, ts[0], first);
      AllSameAppend(lang, [ts[0]], [first], ts[1..], rest);
      assert DenotesAll(h, [ss[0]], [first]);
      DenotesAppend(h, [ss[0]], [first], ss[1..], rest);
      assert [ts[0]] + ts[1..] == ts && [ss[0]] + ss[1..] == ss;
    }
  }

  // ---- The chain that has been rotated ----

  ghost predicate SpineLink(h: Nodes, xs: seq<Ref>, cs: seq<Ref>, j: nat) {
    j + 1 < |xs| && j < |cs| ==>
      && xs[j] in h && xs[j + 1] in h && cs[j] in h
      && |h[xs[j]].children| >= 2 && |h[xs[j + 1]].children| >= 2 && h[cs[j]].children != []
      && h[xs[j]].children[0] == Ptr(xs[j + 1])
      && h[xs[j + 1]].children[|h[xs[j + 1]].children| - 1] == Ptr(cs[j])
      && h[xs[j + 1]].refCount == 1 && h[cs[j]].refCount == 1
  }

  /** Each rotation at `xs[j]` put `xs[j + 1]` under it and `cs[j]` last under that. */
  ghost predicate IsChainOf(h: Nodes, xs: seq<Ref>, cs: seq<Ref>) {
    && |xs| == |cs| + 1 && xs[0] in h
    && forall j {:trigger SpineLink(h, xs, cs, j)} :: 0 <= j < |cs| ==> SpineLink(h, xs, cs, j)
  }

  /** The nodes of the first `n` links, all of them stale. */
  ghost function StaleIn(xs: seq<Ref>, cs: seq<Ref>, n: nat): set<Ref>
    requires n <= |cs| < |xs|
  {
    (set j | 0 < j <= n :: xs[j]) + (set j | 0 <= j < n :: cs[j])
  }

  lemma StaleAt(xs: seq<Ref>, cs: seq<Ref>, n: nat, r: Ref) returns (j: nat)
    requires n <= |cs| < |xs| && r in StaleIn(xs, cs, n)
    ensures j < n && (r == xs[j + 1] || r == cs[j])
  {
    if k: int :| 0 < k <= n && xs[k] == r {
      j := k - 1;
    } else {
      j :| 0 <= j < n && cs[j] == r;
    }
  }

  lemma {:induction false} ChainDescends(h: Nodes, rank: map<Ref, nat>, xs: seq<Ref>, cs: seq<Ref>, j: nat, k: nat)
    requires IsChainOf(h, xs, cs) && Ranked(h, rank) && j <= k < |xs|
    ensures xs[j] in h && xs[k] in h && rank[xs[k]] <= rank[xs[j]] && (j < k ==> rank[xs[k]] < rank[xs[j]])
    decreases k - j
  {
    if j < k {
      ChainDescends(h, rank, xs, cs, j, k - 1);
      assert SpineLink(h, xs, cs, k - 1) && Descends(h, rank, xs[k - 1], 0);
    } else if j > 0 {
      assert SpineLink(h, xs, cs, j - 1);
    }
  }

  /** A stale node sits where the chain put it and nowhere else. */
  lemma StaleOwner(h: Nodes, roots: Roots, xs: seq<Ref>, cs: seq<Ref>, j: nat, slot: Slot)
    requires IsChainOf(h, xs, cs) && Counts(h, roots, {}, multiset{}) && j < |cs| && HasSlot(h, roots, slot)
    ensures xs[j + 1] in h && h[xs[j + 1]].children != []
    ensures At(h, roots, slot) == Ptr(xs[j + 1]) ==> slot == Child(xs[j], 0)
    ensures At(h, roots, slot) == Ptr(cs[j]) ==> slot == LastSlot(h, xs[j + 1])
  {
    assert SpineLink(h, xs, cs, j);
    var first, last := Child(xs[j], 0), LastSlot(h, xs[j + 1]);
    SoleOwner(h, roots, first);
    SoleOwner(h, roots, last);
    if slot != first {
      NotAnOwner(h, roots, first, xs[j + 1], slot);
    }
    if slot != last {
      NotAnOwner(h, roots, last, cs[j], slot);
    }
  }

  /** No child of `cs[n - 1]` is stale. */
  lemma LowestKidsFresh(h: Nodes, roots: Roots, xs: seq<Ref>, cs: seq<Ref>, n: nat)
    requires IsChainOf(h, xs, cs) && SubtreeMemory.Valid(h, roots) && 0 < n <= |cs|
    ensures KidsFresh(h, cs[n - 1], StaleIn(xs, cs, n))
  {
    var r := cs[n - 1];
    forall i | r in h && 0 <= i < |h[r].children| && h[r].children[i].Ptr?
      ensures h[r].children[i].ref !in StaleIn(xs, cs, n)
    {
      if h[r].children[i].ref in StaleIn(xs, cs, n) {
        var j := StaleAt(xs, cs, n, h[r].children[i].ref);
        StaleOwner(h, roots, xs, cs, j, Child(r, i));
        NotOnChain(h, roots, xs, cs, n - 1, if r == xs[j] then j else j + 1);
      }
    }
  }

  lemma NotOnChain(h: Nodes, roots: Roots, xs: seq<Ref>, cs: seq<Ref>, j: nat, k: nat)
    requires IsChainOf(h, xs, cs) && SubtreeMemory.Valid(h, roots) && j < |cs| && k < |xs|
    ensures cs[j] != xs[k]
  {
    var rank :| Ranked(h, rank);
    assert SpineLink(h, xs, cs, j) && Descends(h, rank, xs[j + 1], |h[xs[j + 1]].children| - 1);
    if k <= j + 1 {
      ChainDescends(h, rank, xs, cs, k, j + 1);
    } else {
      assert SpineLink(h, xs, cs, k - 1);
      StaleOwner(h, roots, xs, cs, j, Child(xs[k - 1], 0));
      ChainDescends(h, rank, xs, cs, j + 1, k - 1);
    }
  }

  /** Once `cs[n - 1]` is right, no child of `xs[n]` is stale. */
  lemma MiddleKidsFresh(h: Nodes, roots: Roots, xs: seq<Ref>, cs: seq<Ref>, n: nat)
    requires IsChainOf(h, xs, cs) && SubtreeMemory.Valid(h, roots) && 0 < n <= |cs|
    ensures KidsFresh(h, xs[n], StaleIn(xs, cs, n) - {cs[n - 1]})
  {
    var r := xs[n];
    var rank :| Ranked(h, rank);
    forall i | r in h && 0 <= i < |h[r].children| && h[r].children[i].Ptr?
      ensures h[r].children[i].ref !in StaleIn(xs, cs, n) - {cs[n - 1]}
    {
      if h[r].children[i].ref in StaleIn(xs, cs, n) {
        var j := StaleAt(xs, cs, n, h[r].children[i].ref);
        StaleOwner(h, roots, xs, cs, j, Child(r, i));
        ChainDescends(h, rank, xs, cs, j, n);
        ChainDescends(h, rank, xs, cs, j + 1, n);
      }
    }
  }

  // ---- Who may be rewritten ----

  ghost predicate HeldAt(h: Nodes, roots: Roots, id: TreeId, done: set<Ref>, y: Ref, slot: Slot) {
    HasSlot(h, roots, slot) && At(h, roots, slot) == Ptr(y) &&
    (slot == Root(id) || (slot.Child? && slot.parent in done))
  }

  ghost predicate HeldBy(h: Nodes, roots: Roots, id: TreeId, done: set<Ref>, y: Ref) {
    y in h && h[y].refCount == 1 && exists slot :: HeldAt(h, roots, id, done, y, slot)
  }

  /** Every node visited or waiting has one owner: the handle or a node already done. */
  ghost predicate Working(h: Nodes, roots: Roots, id: TreeId, done: set<Ref>, work: set<Ref>) {
    && done <= work
    && forall y {:trigger HeldBy(h, roots, id, done, y)} :: y in work ==> HeldBy(h, roots, id, done, y)
  }

  /** An unshared child of a node that is not done is not at work yet. */
  lemma ChildNotAtWork(h: Nodes, roots: Roots, id: TreeId, done: set<Ref>, work: set<Ref>, x: Ref, i: nat, k: Ref)
    requires Working(h, roots, id, done, work) && Counts(h, roots, {}, multiset{}) && x !in done
    requires x in h && i < |h[x].children| && h[x].children[i] == Ptr(k) && k in h && h[k].refCount == 1
    ensures k !in work
  {
    if k in work {
      assert HeldBy(h, roots, id, done, k);
      var slot :| HeldAt(h, roots, id, done, k, slot);
      SoleOwner(h, roots, Child(x, i));
      NotAnOwner(h, roots, Child(x, i), k, slot);
    }
  }

  lemma WorkingRotated(h: Nodes, roots: Roots, id: TreeId, done: set<Ref>, work: set<Ref>, x: Ref, c: Ref, g: Ref)
    requires Working(h, roots, id, done, work) && CanRotate(h, x, c, g) && Counts(h, roots, {}, multiset{})
    requires x !in done
    ensures c !in work && g !in work && Working(Rotated(h, x, c, g), roots, id, done, work)
  {
    ChildNotAtWork(h, roots, id, done, work, x, 0, c);
    ChildNotAtWork(h, roots, id, done, work, c, 0, g);
    var h' := Rotated(h, x, c, g);
    forall y | y in work
      ensures HeldBy(h', roots, id, done, y)
    {
      assert HeldBy(h, roots, id, done, y);
      var slot :| HeldAt(h, roots, id, done, y, slot);
      RotatedSlots(h, roots, x, c, g, slot);
      assert HeldAt(h', roots, id, done, y, slot);
    }
  }

  lemma WorkingSummarized(lang: Language, h: Nodes, roots: Roots, id: TreeId, done: set<Ref>, work: set<Ref>, r: Ref,
                          h': Nodes)
    requires Working(h, roots, id, done, work) && Summarized(lang, h, r, h')
    ensures Working(h', roots, id, done, work)
  {
    forall y | y in work
      ensures HeldBy(h', roots, id, done, y)
    {
      assert HeldBy(h, roots, id, done, y);
      var slot :| HeldAt(h, roots, id, done, y, slot);
      assert HeldAt(h', roots, id, done, y, slot);
    }
  }

  /** Compared with `h0`, only nodes in `mine` have changed, none of them shared, and nobody but
      the handle `id` can reach them. A parse state is kept or taken away. */
  ghost predicate UnchangedOutside(h0: Nodes, h: Nodes, mine: set<Ref>, r: Ref) {
    && (r in h <==> r in h0)
    && (r in h0 ==>
          && h[r].refCount == h0[r].refCount && Base(h[r].info) == Base(h0[r].info)
          && (h[r].info.parseState == h0[r].info.parseState || h[r].info.parseState == NO_PARSE_STATE))
    && (r in h0 && (r !in mine || h0[r].refCount != 1) ==> h[r] == h0[r])
  }

  ghost predicate Confined(h0: Nodes, h: Nodes, roots: Roots, id: TreeId, mine: set<Ref>) {
    && Fenced(h, roots, id, mine)
    && forall r {:trigger UnchangedOutside(h0, h, mine, r)} :: UnchangedOutside(h0, h, mine, r)
  }

  lemma FenceGrows(h: Nodes, roots: Roots, id: TreeId, mine: set<Ref>, x: Ref, i: nat, k: Ref)
    requires Fenced(h, roots, id, mine) && Counts(h, roots, {}, multiset{}) && x in mine
    requires x in h && i < |h[x].children| && h[x].children[i] == Ptr(k) && k in h && h[k].refCount == 1
    ensures Fenced(h, roots, id, mine + {k})
  {
    SoleOwner(h, roots, Child(x, i));
    forall p, j | p in h && p !in mine + {k} && 0 <= j < |h[p].children| && h[p].children[j].Ptr?
      ensures h[p].children[j].ref !in mine + {k}
    {
      NotAnOwner(h, roots, Child(x, i), k, Child(p, j));
    }
    forall other | other in roots && other != id && roots[other].Ptr?
      ensures roots[other].ref !in mine + {k}
    {
      NotAnOwner(h, roots, Child(x, i), k, Root(other));
    }
  }

  lemma ConfinedRotated(h0: Nodes, h: Nodes, roots: Roots, id: TreeId, mine: set<Ref>, x: Ref, c: Ref, g: Ref)
    requires Confined(h0, h, roots, id, mine) && CanRotate(h, x, c, g) && Counts(h, roots, {}, multiset{})
    requires x in mine && h[x].refCount == 1
    ensures Confined(h0, Rotated(h, x, c, g), roots, id, mine + {c, g})
  {
    FenceGrows(h, roots, id, mine, x, 0, c);
    FenceGrows(h, roots, id, mine + {c}, c, 0, g);
    assert mine + {c} + {g} == mine + {c, g};
    var h' := Rotated(h, x, c, g);
    forall r
      ensures UnchangedOutside(h0, h', mine + {c, g}, r)
    {
      assert UnchangedOutside(h0, h, mine, r);
    }
    forall p, j | p in h' && p !in mine + {c, g} && 0 <= j < |h'[p].children| && h'[p].children[j].Ptr?
      ensures h'[p].children[j].ref !in mine + {c, g}
    {
      assert h'[p] == h[p];
    }
  }

  lemma ConfinedSummarized(lang: Language, h0: Nodes, h: Nodes, roots: Roots, id: TreeId, mine: set<Ref>, r: Ref,
                           h': Nodes)
    requires Confined(h0, h, roots, id, mine) && Summarized(lang, h, r, h') && r in mine && h[r].refCount == 1
    ensures Confined(h0, h', roots, id, mine)
  {
    forall other
      ensures UnchangedOutside(h0, h', mine, other)
    {
      assert UnchangedOutside(h0, h, mine, other);
    }
  }

  ghost predicate RepeatOk(lang: Language, repeats: set<Symbol>, h: Nodes, r: Ref) {
    r in h ==>
      && (h[r].info.symbol in repeats ==> IsRepeat(lang, Base(h[r].info)))
      && (h[r].info.repeatDepth > 0 ==> h[r].info.symbol in repeats)
  }

  /** The repeat symbols of the grammar, the territory of the walk (a set of nodes that no pointer
      leads out of), and the summaries it takes. */
  datatype Scope = Scope(repeats: set<Symbol>, dom: set<Ref>, summarizer: Summarizer)

  /** What the grammar promises of the territory: only hidden, alias-free symbols repeat. */
  ghost predicate ScopeOk(lang: Language, scope: Scope, h: Nodes) {
    && Inward(h, scope.dom) && scope.summarizer.lang == lang && scope.summarizer.Right()
    && forall r {:trigger RepeatOk(lang, scope.repeats, h, r)} :: r in scope.dom ==> RepeatOk(lang, scope.repeats, h, r)
  }

  // ---- The loops of a compression ----

  ghost predicate OnChain(h: Nodes, mine: set<Ref>, symbol: Symbol, r: Ref) {
    r in h && r in mine && h[r].refCount == 1 && h[r].info.symbol == symbol
  }

  ghost predicate ChainMine(h: Nodes, mine: set<Ref>, done: set<Ref>, symbol: Symbol, xs: seq<Ref>, cs: seq<Ref>) {
    && (forall j {:trigger OnChain(h, mine, symbol, xs[j])} :: 0 <= j < |xs| ==>
        OnChain(h, mine, symbol, xs[j]) && xs[j] !in done)
    && (forall j {:trigger OnChain(h, mine, symbol, cs[j])} :: 0 <= j < |cs| ==> OnChain(h, mine, symbol, cs[j]))
  }

  /** Since `h0` the chain `xs` over `cs` has been rotated; `truth` is memory as it should be. */
  ghost predicate Compressing(lang: Language, dom: set<Ref>, h0: Nodes, h: Nodes, truth: Nodes, roots: Roots,
                              xs: seq<Ref>, cs: seq<Ref>, stale: set<Ref>) {
    && SubtreeMemory.Valid(h, roots) && SubtreeMemory.Valid(truth, roots)
    && OkIn(lang, truth, dom) && SameTrees(lang, h0, truth, roots)
    && IsChainOf(h, xs, cs) && Tracks(h, truth, stale)
  }

  lemma CompressingStart(lang: Language, dom: set<Ref>, h: Nodes, roots: Roots, x: Ref)
    requires SubtreeMemory.Valid(h, roots) && OkIn(lang, h, dom) && x in h
    ensures Compressing(lang, dom, h, h, h, roots, [x], [], {}) && StaleIn([x], [], 0) == {}
  {
    TracksItself(h);
    forall k, t | k in roots && Denotes(h, roots[k], t)
      ensures StillShows(lang, h, roots[k], t)
    {
      assert Same(lang, t, t);
    }
  }

  lemma CompressingDone(lang: Language, dom: set<Ref>, h0: Nodes, h: Nodes, truth: Nodes, roots: Roots, xs: seq<Ref>,
                        cs: seq<Ref>)
    requires Compressing(lang, dom, h0, h, truth, roots, xs, cs, {})
    ensures OkIn(lang, h, dom) && SameTrees(lang, h0, h, roots)
  {
    NothingStale(lang, h, truth, roots, dom);
    SameTreesTransitive(lang, h0, truth, h, roots);
  }

  /** The test the loop makes before it rotates. */
  predicate Rotatable(h: Nodes, x: Ref, c: Ref, g: Ref, symbol: Symbol) {
    && x in h && c in h && g in h
    && |h[x].children| >= 2 && h[x].refCount == 1 && h[x].children[0] == Ptr(c)
    && |h[c].children| >= 2 && h[c].refCount == 1 && h[c].info.symbol == symbol && h[c].children[0] == Ptr(g)
    && |h[g].children| >= 2 && h[g].refCount == 1 && h[g].info.symbol == symbol
  }

  predicate FirstIsParent(h: Nodes, x: Ref) {
    x in h && h[x].children != [] && h[x].children[0].Ptr? && h[x].children[0].ref in h
  }

  function First(h: Nodes, x: Ref): Ref
    requires FirstIsParent(h, x)
  {
    h[x].children[0].ref
  }

  /** Is the chain below `x` long enough, and unshared? */
  predicate HasRotation(h: Nodes, x: Ref, symbol: Symbol) {
    && FirstIsParent(h, x) && FirstIsParent(h, First(h, x))
    && Rotatable(h, x, First(h, x), First(h, First(h, x)), symbol)
  }

  /** The children after up to `count` rotations, each one below where the last one ended. */
  function RotatedTimes(h: Nodes, x: Ref, count: nat, symbol: Symbol): Nodes
    decreases count
  {
    if count == 0 || !HasRotation(h, x, symbol) then h
    else
      var g := First(h, First(h, x));
      RotatedTimes(Rotated(h, x, First(h, x), g), g, count - 1, symbol)
  }

  lemma RotatableCanRotate(h: Nodes, roots: Roots, x: Ref, c: Ref, g: Ref, symbol: Symbol)
    requires SubtreeMemory.Valid(h, roots) && Rotatable(h, x, c, g, symbol) && h[x].info.symbol == symbol
    ensures CanRotate(h, x, c, g)
  {
    var rank :| Ranked(h, rank);
    assert Descends(h, rank, x, 0) && Descends(h, rank, c, 0);
  }

  lemma BelowChain(h: Nodes, roots: Roots, xs: seq<Ref>, cs: seq<Ref>, c: Ref, g: Ref, j: nat)
    requires IsChainOf(h, xs, cs) && SubtreeMemory.Valid(h, roots) && j < |xs|
    requires CanRotate(h, xs[|cs|], c, g)
    ensures xs[j] != c && xs[j] != g && (j < |cs| ==> xs[j] != xs[|cs|])
  {
    var x := xs[|cs|];
    var rank :| Ranked(h, rank);
    assert Descends(h, rank, x, 0) && Descends(h, rank, c, 0);
    ChainDescends(h, rank, xs, cs, j, |cs|);
  }

  lemma OldLinkKept(h: Nodes, roots: Roots, xs: seq<Ref>, cs: seq<Ref>, c: Ref, g: Ref, j: nat)
    requires IsChainOf(h, xs, cs) && SubtreeMemory.Valid(h, roots) && CanRotate(h, xs[|cs|], c, g) && j < |cs|
    ensures SpineLink(Rotated(h, xs[|cs|], c, g), xs + [g], cs + [c], j)
  {
    var x := xs[|cs|];
    assert SpineLink(h, xs, cs, j);
    BelowChain(h, roots, xs, cs, c, g, j);
    BelowChain(h, roots, xs, cs, c, g, j + 1);
    RotatedSlots(h, roots, x, c, g, Child(xs[j], 0));
    RotatedSlots(h, roots, x, c, g, LastSlot(h, xs[j + 1]));
    assert (xs + [g])[j] == xs[j] && (xs + [g])[j + 1] == xs[j + 1] && (cs + [c])[j] == cs[j];
  }

  lemma ChainGrows(h: Nodes, roots: Roots, xs: seq<Ref>, cs: seq<Ref>, c: Ref, g: Ref)
    requires IsChainOf(h, xs, cs) && SubtreeMemory.Valid(h, roots) && CanRotate(h, xs[|cs|], c, g)
    ensures IsChainOf(Rotated(h, xs[|cs|], c, g), xs + [g], cs + [c])
  {
    var x, n := xs[|cs|], |cs|;
    var h', xs', cs' := Rotated(h, x, c, g), xs + [g], cs + [c];
    forall j | 0 <= j < |cs'|
      ensures SpineLink(h', xs', cs', j)
    {
      if j < n {
        OldLinkKept(h, roots, xs, cs, c, g, j);
      } else {
        RotationLists(h, x, c, g);
        assert xs'[n] == x && xs'[n + 1] == g && cs'[n] == c;
      }
    }
    assert xs'[0] == xs[0];
  }

  /** One turn of the first loop, and the truth it is on its way to. */
  lemma CompressingRotates(lang: Language, scope: Scope, h0: Nodes, h: Nodes, truth: Nodes, roots: Roots,
                           xs: seq<Ref>, cs: seq<Ref>, c: Ref, g: Ref) returns (truth': Nodes)
    requires |xs| == |cs| + 1 && Compressing(lang, scope.dom, h0, h, truth, roots, xs, cs, StaleIn(xs, cs, |cs|))
    requires ScopeOk(lang, scope, h) && CanRotate(h, xs[|cs|], c, g) && h[c].info.symbol in scope.repeats
    requires xs[|cs|] in scope.dom
    ensures Compressing(lang, scope.dom, h0, Rotated(h, xs[|cs|], c, g), truth', roots, xs + [g], cs + [c],
                        StaleIn(xs + [g], cs + [c], |cs| + 1))
  {
    var x, stale := xs[|cs|], StaleIn(xs, cs, |cs|);
    TruthCanRotate(h, truth, stale, x, c, g);
    truth' := RotateTruth(lang, truth, roots, x, c, g);
    TruthIsHidden(lang, scope, h, truth, stale, x, c, g);
    TruthKeepsOk(lang, scope.dom, truth, roots, x, c, g, truth');
    RotationKeepsTrees(lang, truth, roots, x, c, g, truth');
    SameTreesTransitive(lang, h0, truth, truth', roots);
    RotatedValid(h, roots, x, c, g);
    RotationTracks(h, truth, stale, x, c, g, truth');
    StaleGrows(xs, cs, c, g);
    ChainGrows(h, roots, xs, cs, c, g);
    TruthValid(Rotated(h, x, c, g), truth', roots, stale + {c, g});
  }

  lemma TruthKeepsOk(lang: Language, dom: set<Ref>, truth: Nodes, roots: Roots, x: Ref, c: Ref, g: Ref, truth': Nodes)
    requires Rotating(lang, truth, roots, x, c, g, truth') && SubtreeMemory.Valid(truth, roots)
    requires OkIn(lang, truth, dom) && x in dom && c in dom && g in dom
    requires LocalOk(lang, truth', c) && LocalOk(lang, truth', g)
    ensures OkIn(lang, truth', dom)
  {
    assert LocalOk(lang, truth, x) && LocalOk(lang, truth, c) && LocalOk(lang, truth, g);
    forall r | r in dom
      ensures LocalOk(lang, truth', r)
    {
      assert LocalOk(lang, truth, r);
      RotationKeepsOk(lang, truth, roots, x, c, g, truth', r);
    }
  }

  lemma StaleGrows(xs: seq<Ref>, cs: seq<Ref>, c: Ref, g: Ref)
    requires |xs| == |cs| + 1
    ensures StaleIn(xs + [g], cs + [c], |cs| + 1) == StaleIn(xs, cs, |cs|) + {c, g}
  {
    var n, xs', cs' := |cs|, xs + [g], cs + [c];
    assert xs'[n + 1] == g && cs'[n] == c;
    assert forall j :: 0 < j <= n ==> xs'[j] == xs[j];
    assert forall j :: 0 <= j < n ==> cs'[j] == cs[j];
  }

  lemma TruthValid(h: Nodes, truth: Nodes, roots: Roots, stale: set<Ref>)
    requires SubtreeMemory.Valid(h, roots) && Tracks(h, truth, stale)
    ensures SubtreeMemory.Valid(truth, roots)
  {
    forall r
      ensures TracksAt(truth, h, stale, r)
    {
      assert TracksAt(h, truth, stale, r);
    }
    SameShapeValid(h, truth, roots, stale);
  }

  lemma TruthIsHidden(lang: Language, scope: Scope, h: Nodes, truth: Nodes, stale: set<Ref>, x: Ref, c: Ref, g: Ref)
    requires ScopeOk(lang, scope, h) && Tracks(h, truth, stale) && CanRotate(h, x, c, g)
    requires h[c].info.symbol in scope.repeats && x in scope.dom
    ensures IsHiddenSpine(lang, truth, x, c, g) && c in scope.dom && g in scope.dom
  {
    RotatedInward(h, scope.dom, x, c, g);
    assert RepeatOk(lang, scope.repeats, h, x) && RepeatOk(lang, scope.repeats, h, c) &&
           RepeatOk(lang, scope.repeats, h, g);
    assert TracksAt(h, truth, stale, x) && TracksAt(h, truth, stale, c) && TracksAt(h, truth, stale, g);
    assert Base(h[x].info).symbol == h[x].info.symbol && Base(h[c].info).symbol == h[c].info.symbol
        && Base(h[g].info).symbol == h[g].info.symbol;
  }

  /** Summarizing keeps everything but the set of stale nodes, which the caller tells. */
  lemma CompressingSummarizes(lang: Language, dom: set<Ref>, h0: Nodes, h: Nodes, truth: Nodes, roots: Roots,
                              xs: seq<Ref>, cs: seq<Ref>, stale: set<Ref>, r: Ref, h': Nodes, stale': set<Ref>)
    requires Compressing(lang, dom, h0, h, truth, roots, xs, cs, stale) && Summarized(lang, h, r, h')
    requires Tracks(h', truth, stale')
    ensures Compressing(lang, dom, h0, h', truth, roots, xs, cs, stale')
  {
    SameShapeValid(truth, h', roots, stale');
    SummarizedLinks(lang, h, r, h');
    SameLinksChain(h, h', xs, cs);
  }

  ghost predicate LinksKept(h: Nodes, h': Nodes, r: Ref) {
    && (r in h' <==> r in h)
    && (r in h ==>
        h'[r].children == h[r].children && h'[r].refCount == h[r].refCount && h'[r].info.symbol == h[r].info.symbol)
  }

  ghost predicate SameLinks(h: Nodes, h': Nodes) {
    forall r {:trigger LinksKept(h, h', r)} :: LinksKept(h, h', r)
  }

  lemma SummarizedLinks(lang: Language, h: Nodes, r: Ref, h': Nodes)
    requires Summarized(lang, h, r, h')
    ensures SameLinks(h, h')
  {
    assert Base(h'[r].info).symbol == h'[r].info.symbol && Base(h[r].info).symbol == h[r].info.symbol;
    forall other
      ensures LinksKept(h, h', other)
    {
    }
  }

  lemma SameLinksItself(h: Nodes)
    ensures SameLinks(h, h)
  {
    forall r
      ensures LinksKept(h, h, r)
    {
    }
  }

  lemma SameLinksTransitive(h0: Nodes, h1: Nodes, h2: Nodes)
    requires SameLinks(h0, h1) && SameLinks(h1, h2)
    ensures SameLinks(h0, h2)
  {
    forall r
      ensures LinksKept(h0, h2, r)
    {
      assert LinksKept(h0, h1, r) && LinksKept(h1, h2, r);
    }
  }

  lemma SameLinksRotation(h: Nodes, h': Nodes, x: Ref, symbol: Symbol)
    requires SameLinks(h, h')
    ensures HasRotation(h, x, symbol) == HasRotation(h', x, symbol)
    ensures HasRotation(h, x, symbol) ==> First(h', x) == First(h, x) && First(h', First(h, x)) == First(h, First(h, x))
  {
    assert LinksKept(h, h', x);
    if FirstIsParent(h, x) {
      assert LinksKept(h, h', First(h, x));
      if FirstIsParent(h, First(h, x)) {
        assert LinksKept(h, h', First(h, First(h, x)));
      }
    } else {
      assert x in h' && h'[x].children != [] && h'[x].children[0].Ptr? ==> LinksKept(h, h', h'[x].children[0].ref);
    }
    if FirstIsParent(h, x) && !FirstIsParent(h, First(h, x)) {
      var c := First(h, x);
      assert h'[c].children != [] && h'[c].children[0].Ptr? ==> LinksKept(h, h', h'[c].children[0].ref);
    }
  }

  lemma SameLinksRotated(h: Nodes, h': Nodes, x: Ref, c: Ref, g: Ref, symbol: Symbol)
    requires SameLinks(h, h') && Rotatable(h, x, c, g, symbol) && Rotatable(h', x, c, g, symbol)
    ensures SameLinks(Rotated(h, x, c, g), Rotated(h', x, c, g))
  {
    var k, k' := Rotated(h, x, c, g), Rotated(h', x, c, g);
    assert LinksKept(h, h', x) && LinksKept(h, h', c) && LinksKept(h, h', g);
    forall r
      ensures LinksKept(k, k', r)
    {
      assert LinksKept(h, h', r);
    }
  }

  /** Rotating reads nothing but links, counts and symbols. */
  lemma {:induction false} RotatedTimesSameLinks(h: Nodes, h': Nodes, x: Ref, count: nat, symbol: Symbol)
    requires SameLinks(h, h')
    ensures SameLinks(RotatedTimes(h, x, count, symbol), RotatedTimes(h', x, count, symbol))
    decreases count
  {
    SameLinksRotation(h, h', x, symbol);
    if count > 0 && HasRotation(h, x, symbol) {
      var c := First(h, x);
      var g := First(h, c);
      SameLinksRotated(h, h', x, c, g, symbol);
      RotatedTimesSameLinks(Rotated(h, x, c, g), Rotated(h', x, c, g), g, count - 1, symbol);
    }
  }

  /** Half of what the first child's repeat depth exceeds the last child's by. */
  function CompressionCount(h: Nodes, x: Ref): nat
    requires x in h && h[x].children != [] && AreNodes(h, h[x].children)
  {
    var first, last := InfoOf(h, h[x].children[0]), InfoOf(h, h[x].children[|h[x].children| - 1]);
    if h[x].info.repeatDepth == 0 || first.repeatDepth <= last.repeatDepth then 0
    else (first.repeatDepth - last.repeatDepth) / 2
  }

  lemma SameLinksChain(h: Nodes, h': Nodes, xs: seq<Ref>, cs: seq<Ref>)
    requires SameLinks(h, h') && IsChainOf(h, xs, cs)
    ensures IsChainOf(h', xs, cs)
  {
    assert LinksKept(h, h', xs[0]);
    forall j | 0 <= j < |cs|
      ensures SpineLink(h', xs, cs, j)
    {
      assert SpineLink(h, xs, cs, j) && LinksKept(h, h', xs[j]) && LinksKept(h, h', xs[j + 1]) &&
             LinksKept(h, h', cs[j]);
    }
  }

  lemma ChainMineGrows(h: Nodes, mine: set<Ref>, done: set<Ref>, symbol: Symbol, xs: seq<Ref>, cs: seq<Ref>, c: Ref,
                       g: Ref)
    requires |xs| == |cs| + 1 && ChainMine(h, mine, done, symbol, xs, cs)
    requires CanRotate(h, xs[|cs|], c, g) && h[c].info.symbol == symbol && c !in done && g !in done
    ensures ChainMine(Rotated(h, xs[|cs|], c, g), mine + {c, g}, done, symbol, xs + [g], cs + [c])
  {
    var x := xs[|cs|];
    var h', mine', xs', cs' := Rotated(h, x, c, g), mine + {c, g}, xs + [g], cs + [c];
    forall j | 0 <= j < |xs'|
      ensures OnChain(h', mine', symbol, xs'[j]) && xs'[j] !in done
    {
      assert j < |xs| ==> OnChain(h, mine, symbol, xs[j]);
    }
    forall j | 0 <= j < |cs'|
      ensures OnChain(h', mine', symbol, cs'[j])
    {
      assert j < |cs| ==> OnChain(h, mine, symbol, cs[j]);
    }
  }

  lemma ChainMineSummarized(lang: Language, h: Nodes, mine: set<Ref>, done: set<Ref>, symbol: Symbol,
                            xs: seq<Ref>, cs: seq<Ref>, r: Ref, h': Nodes)
    requires ChainMine(h, mine, done, symbol, xs, cs) && Summarized(lang, h, r, h')
    ensures ChainMine(h', mine, done, symbol, xs, cs)
  {
    assert Base(h'[r].info).symbol == h'[r].info.symbol && Base(h[r].info).symbol == h[r].info.symbol;
    forall j | 0 <= j < |xs|
      ensures OnChain(h', mine, symbol, xs[j]) && xs[j] !in done
    {
      assert OnChain(h, mine, symbol, xs[j]);
    }
    forall j | 0 <= j < |cs|
      ensures OnChain(h', mine, symbol, cs[j])
    {
      assert OnChain(h, mine, symbol, cs[j]);
    }
  }

  lemma ScopeRotated(lang: Language, scope: Scope, h: Nodes, x: Ref, c: Ref, g: Ref)
    requires ScopeOk(lang, scope, h) && CanRotate(h, x, c, g) && x in scope.dom
    ensures ScopeOk(lang, scope, Rotated(h, x, c, g))
  {
    RotatedInward(h, scope.dom, x, c, g);
    forall r | r in scope.dom
      ensures RepeatOk(lang, scope.repeats, Rotated(h, x, c, g), r)
    {
      assert RepeatOk(lang, scope.repeats, h, r);
    }
  }

  lemma ScopeSummarized(lang: Language, scope: Scope, h: Nodes, r: Ref, h': Nodes)
    requires ScopeOk(lang, scope, h) && Summarized(lang, h, r, h') && h[r].info.symbol in scope.repeats
    ensures ScopeOk(lang, scope, h')
  {
    assert Base(h'[r].info).symbol == h'[r].info.symbol && Base(h[r].info).symbol == h[r].info.symbol;
    forall other | other in scope.dom
      ensures RepeatOk(lang, scope.repeats, h', other)
    {
      assert RepeatOk(lang, scope.repeats, h, other);
    }
    forall other
      ensures KidsInside(h', scope.dom, other)
    {
      assert KidsInside(h, scope.dom, other);
    }
  }

  /** What a compression promises the walk over the tree, whatever stage it is in. */
  ghost predicate Contained(lang: Language, scope: Scope, h0: Nodes, h: Nodes, roots: Roots, id: TreeId,
                            done: set<Ref>, work: set<Ref>, mine: set<Ref>) {
    && Confined(h0, h, roots, id, mine) && Working(h, roots, id, done, work)
    && ScopeOk(lang, scope, h) && mine <= scope.dom
  }

  lemma ContainedRotated(lang: Language, scope: Scope, h0: Nodes, h: Nodes, roots: Roots, id: TreeId,
                         done: set<Ref>, work: set<Ref>, mine: set<Ref>, x: Ref, c: Ref, g: Ref)
    requires Contained(lang, scope, h0, h, roots, id, done, work, mine) && CanRotate(h, x, c, g)
    requires Counts(h, roots, {}, multiset{}) && x in mine && x !in done && h[x].refCount == 1
    ensures c !in work && g !in work
    ensures Contained(lang, scope, h0, Rotated(h, x, c, g), roots, id, done, work, mine + {c, g})
  {
    ConfinedRotated(h0, h, roots, id, mine, x, c, g);
    RotatedInward(h, scope.dom, x, c, g);
    WorkingRotated(h, roots, id, done, work, x, c, g);
    ScopeRotated(lang, scope, h, x, c, g);
  }

  lemma ContainedSummarized(lang: Language, scope: Scope, h0: Nodes, h: Nodes, roots: Roots, id: TreeId,
                            done: set<Ref>, work: set<Ref>, mine: set<Ref>, r: Ref, h': Nodes)
    requires Contained(lang, scope, h0, h, roots, id, done, work, mine) && Summarized(lang, h, r, h')
    requires r in mine && h[r].refCount == 1 && h[r].info.symbol in scope.repeats
    ensures Contained(lang, scope, h0, h', roots, id, done, work, mine)
  {
    ConfinedSummarized(lang, h0, h, roots, id, mine, r, h');
    WorkingSummarized(lang, h, roots, id, done, work, r, h');
    ScopeSummarized(lang, scope, h, r, h');
  }

  /** What a node has to be for a summary of it to be taken. */
  lemma ReadyToSummarize(lang: Language, dom: set<Ref>, h0: Nodes, h: Nodes, truth: Nodes, roots: Roots, xs: seq<Ref>,
                         cs: seq<Ref>, stale: set<Ref>, r: Ref)
    requires Compressing(lang, dom, h0, h, truth, roots, xs, cs, stale) && r in h
    ensures AreNodes(h, h[r].children) && forall i :: 0 <= i < |h[r].children| ==> h[r].children[i] != Ptr(r)
  {
    var rank :| Ranked(h, rank);
    forall i | 0 <= i < |h[r].children|
      ensures h[r].children[i].Ptr? ==> h[r].children[i].ref in h
      ensures h[r].children[i] != Ptr(r)
    {
      assert NamesNode(h, roots, {}, Child(r, i)) && Descends(h, rank, r, i);
    }
  }

  lemma StaleShrinks(xs: seq<Ref>, cs: seq<Ref>, n: nat)
    requires 0 < n <= |cs| < |xs|
    ensures StaleIn(xs, cs, n) - {cs[n - 1]} - {xs[n]} <= StaleIn(xs, cs, n - 1)
    ensures n == 1 ==> StaleIn(xs, cs, n - 1) == {}
    ensures n > 1 ==> xs[n - 1] in StaleIn(xs, cs, n - 1)
  {
  }

  // ---- The walk over the tree ----

  /** The children that the walk visits next: unshared parents. */
  function UnsharedParents(h: Nodes, ss: seq<Subtree>): (refs: seq<Ref>)
    requires AreNodes(h, ss)
    ensures forall r :: r in refs ==> exists i :: 0 <= i < |ss| && ss[i] == Ptr(r)
    ensures forall r :: r in refs ==> r in h && h[r].children != [] && h[r].refCount == 1
  {
    if ss == [] then []
    else
      var n := |ss| - 1;
      UnsharedParents(h, ss[..n]) +
      (if ss[n].Ptr? && h[ss[n].ref].children != [] && h[ss[n].ref].refCount == 1 then [ss[n].ref] else [])
  }

  /** The unshared parents among the first `i` of `ss` have been pushed onto `below`. */
  ghost predicate PushedUpTo(h: Nodes, below: seq<Ref>, ss: seq<Subtree>, i: nat, stack: seq<Ref>) {
    exists pushed :: ParentsAmong(h, ss, i, pushed) && stack == below + pushed
  }

  ghost predicate ParentsAmong(h: Nodes, ss: seq<Subtree>, i: nat, pushed: seq<Ref>) {
    i <= |ss| && AreNodes(h, ss[..i]) && pushed == UnsharedParents(h, ss[..i])
  }

  lemma PushStarts(h: Nodes, below: seq<Ref>, ss: seq<Subtree>)
    ensures PushedUpTo(h, below, ss, 0, below)
  {
    assert ParentsAmong(h, ss, 0, []) && below == below + [];
  }

  lemma PushStep(h: Nodes, below: seq<Ref>, ss: seq<Subtree>, i: nat, stack: seq<Ref>)
    requires PushedUpTo(h, below, ss, i, stack) && i < |ss| && AreNodes(h, ss)
    ensures PushedUpTo(h, below, ss, i + 1,
                       if ss[i].Ptr? && h[ss[i].ref].children != [] && h[ss[i].ref].refCount == 1
                       then stack + [ss[i].ref] else stack)
  {
    var pushed :| ParentsAmong(h, ss, i, pushed) && stack == below + pushed;
    assert ss[..i + 1][..i] == ss[..i];
    if ss[i].Ptr? && h[ss[i].ref].children != [] && h[ss[i].ref].refCount == 1 {
      assert ParentsAmong(h, ss, i + 1, pushed + [ss[i].ref]);
      assert stack + [ss[i].ref] == below + (pushed + [ss[i].ref]);
    } else {
      assert ParentsAmong(h, ss, i + 1, pushed);
    }
  }

  lemma PushEnds(h: Nodes, below: seq<Ref>, ss: seq<Subtree>, stack: seq<Ref>)
    requires PushedUpTo(h, below, ss, |ss|, stack) && AreNodes(h, ss)
    ensures stack == below + UnsharedParents(h, ss)
  {
    assert ss[..|ss|] == ss;
  }

  ghost predicate Distinct(stack: seq<Ref>) {
    forall i, j :: 0 <= i < j < |stack| ==> stack[i] != stack[j]
  }

  ghost function Elements(stack: seq<Ref>): set<Ref> {
    set r | r in stack
  }

  lemma {:induction false} UnsharedParentsDistinct(h: Nodes, roots: Roots, x: Ref, n: nat)
    requires Counts(h, roots, {}, multiset{}) && x in h && AreNodes(h, h[x].children) && n <= |h[x].children|
    ensures AreNodes(h, h[x].children[..n]) && Distinct(UnsharedParents(h, h[x].children[..n]))
    decreases n
  {
    if n > 0 {
      UnsharedParentsDistinct(h, roots, x, n - 1);
      var ss := h[x].children[..n];
      assert ss[..n - 1] == h[x].children[..n - 1];
      var before := UnsharedParents(h, ss[..n - 1]);
      if ss[n - 1].Ptr? && h[ss[n - 1].ref].refCount == 1 {
        var k := ss[n - 1].ref;
        SoleOwner(h, roots, Child(x, n - 1));
        var init := ss[..n - 1];
        forall i | 0 <= i < |init|
          ensures init[i] != Ptr(k)
        {
          NotAnOwner(h, roots, Child(x, n - 1), k, Child(x, i));
        }
        assert k !in before;
      }
    }
  }

  ghost predicate VisitedAt(h: Nodes, done: set<Ref>, stack: seq<Ref>, x: Ref, k: Ref) {
    x in done && x in h && Ptr(k) in h[x].children && k in h && h[k].refCount == 1 && h[k].children != [] ==>
      k in done || k in stack
  }

  /** The walk misses nothing: every unshared parent below a visited node is visited or waits. */
  ghost predicate Visited(h: Nodes, roots: Roots, id: TreeId, done: set<Ref>, stack: seq<Ref>) {
    && (forall x, k {:trigger VisitedAt(h, done, stack, x, k)} :: VisitedAt(h, done, stack, x, k))
    && (id in roots && roots[id].Ptr? && roots[id].ref in h ==>
          var r := roots[id].ref;
          h[r].refCount == 1 && h[r].children != [] ==> r in done || r in stack)
  }

  lemma VisitedAdvances(h: Nodes, roots: Roots, id: TreeId, done: set<Ref>, stack: seq<Ref>, x: Ref)
    requires Visited(h, roots, id, done, stack + [x]) && x in h && AreNodes(h, h[x].children)
    ensures Visited(h, roots, id, done + {x}, stack + UnsharedParents(h, h[x].children))
  {
    var more := UnsharedParents(h, h[x].children);
    assert forall r :: r in stack + [x] <==> r in stack || r == x;
    forall y, k
      ensures VisitedAt(h, done + {x}, stack + more, y, k)
    {
      assert VisitedAt(h, done, stack + [x], y, k);
      if y == x && Ptr(k) in h[x].children && k in h && h[k].refCount == 1 && h[k].children != [] {
        var i :| 0 <= i < |h[x].children| && h[x].children[i] == Ptr(k);
        UnsharedParentsComplete(h, h[x].children, i);
      }
    }
  }

  lemma {:induction false} UnsharedParentsComplete(h: Nodes, ss: seq<Subtree>, i: nat)
    requires AreNodes(h, ss) && i < |ss| && ss[i].Ptr? && h[ss[i].ref].refCount == 1 && h[ss[i].ref].children != []
    ensures ss[i].ref in UnsharedParents(h, ss)
    decreases |ss|
  {
    if i < |ss| - 1 {
      assert ss[..|ss| - 1][i] == ss[i];
      UnsharedParentsComplete(h, ss[..|ss| - 1], i);
    }
  }

  lemma VisitedKept(h: Nodes, h': Nodes, roots: Roots, id: TreeId, done: set<Ref>, stack: seq<Ref>)
    requires Visited(h, roots, id, done, stack) && SameWidths(h, h', done)
    ensures Visited(h', roots, id, done, stack)
  {
    forall x, k
      ensures VisitedAt(h', done, stack, x, k)
    {
      assert VisitedAt(h, done, stack, x, k) && WidthKept(h, h', done, x) && WidthKept(h, h', done, k);
    }
    assert id in roots && roots[id].Ptr? ==> WidthKept(h, h', done, roots[id].ref);
  }

  /** In the territory every cache is right, and no edge is less fragile than a summary makes it. */
  ghost predicate Settled(lang: Language, dom: set<Ref>, h: Nodes) {
    OkIn(lang, h, dom) && FlagsFixedIn(h, dom)
  }

  ghost predicate RootInside(roots: Roots, id: TreeId, dom: set<Ref>) {
    id in roots && roots[id].Ptr? ==> roots[id].ref in dom
  }

  /** Between two turns of the walk: `done` nodes have been visited, `stack` nodes wait. */
  ghost predicate BalanceWalk(lang: Language, scope: Scope, h0: Nodes, h: Nodes, roots: Roots, id: TreeId,
                          done: set<Ref>, stack: seq<Ref>, mine: set<Ref>) {
    && SubtreeMemory.Valid(h, roots) && Settled(lang, scope.dom, h) && SameTrees(lang, h0, h, roots)
    && Contained(lang, scope, h0, h, roots, id, done, done + Elements(stack), mine) && RootInside(roots, id, scope.dom)
    && done + Elements(stack) <= mine && Distinct(stack) && Visited(h, roots, id, done, stack)
    && forall r :: r in stack ==> r !in done && r in h && h[r].children != []
  }

  /** ... whatever nodes are the walk's own. */
  ghost predicate Walks(lang: Language, scope: Scope, h0: Nodes, h: Nodes, roots: Roots, id: TreeId, done: set<Ref>,
                        stack: seq<Ref>) {
    exists mine :: BalanceWalk(lang, scope, h0, h, roots, id, done, stack, mine)
  }

  lemma StackAdvances(stack: seq<Ref>, x: Ref, more: seq<Ref>, done: set<Ref>)
    requires Distinct(stack + [x]) && Distinct(more) && forall k :: k in more ==> k !in done + Elements(stack + [x])
    ensures Distinct(stack + more) && x !in stack && x !in more
    ensures done + {x} + Elements(stack + more) == done + Elements(stack + [x]) + Elements(more)
  {
    var all := stack + [x];
    assert all[|stack|] == x && forall i :: 0 <= i < |stack| ==> all[i] == stack[i];
    assert forall r :: r in all <==> r in stack || r == x;
    var next := stack + more;
    forall i, j | 0 <= i < j < |next|
      ensures next[i] != next[j]
    {
      assert i < |stack| ==> stack[i] == all[i] && all[i] in Elements(all);
      assert j < |stack| ==> stack[j] == all[j];
      assert j >= |stack| ==> next[j] in more;
    }
  }

  /** The unshared parents below a node at work are not at work yet, but will be. */
  lemma KidsAreHeld(h: Nodes, roots: Roots, id: TreeId, done: set<Ref>, work: set<Ref>, x: Ref)
    requires Working(h, roots, id, done, work) && Counts(h, roots, {}, multiset{}) && x !in done
    requires x in h && AreNodes(h, h[x].children)
    ensures forall k :: k in UnsharedParents(h, h[x].children) ==> k !in work && HeldBy(h, roots, id, done + {x}, k)
  {
    forall k | k in UnsharedParents(h, h[x].children)
      ensures k !in work && HeldBy(h, roots, id, done + {x}, k)
    {
      var i :| 0 <= i < |h[x].children| && h[x].children[i] == Ptr(k);
      ChildNotAtWork(h, roots, id, done, work, x, i, k);
      assert HeldAt(h, roots, id, done + {x}, k, Child(x, i));
    }
  }

  /** The top of the stack has been dealt with and its unshared children take its place. */
  lemma WalkAdvances(lang: Language, scope: Scope, h0: Nodes, h: Nodes, roots: Roots, id: TreeId,
                     done: set<Ref>, stack: seq<Ref>, x: Ref, mine: set<Ref>)
    requires BalanceWalk(lang, scope, h0, h, roots, id, done, stack + [x], mine)
    requires x in h && AreNodes(h, h[x].children)
    ensures var more := UnsharedParents(h, h[x].children);
            BalanceWalk(lang, scope, h0, h, roots, id, done + {x}, stack + more, mine + Elements(more))
  {
    var more, work := UnsharedParents(h, h[x].children), done + Elements(stack + [x]);
    assert (stack + [x])[|stack|] == x;
    assert x in Elements(stack + [x]) && x !in done;
    assert h[x].children[..|h[x].children|] == h[x].children;
    UnsharedParentsDistinct(h, roots, x, |h[x].children|);
    KidsAreHeld(h, roots, id, done, work, x);
    WorkGrows(h, roots, id, done, work, x, more);
    StackAdvances(stack, x, more, done);
    ConfinedGrows(h0, h, roots, id, mine, x, h[x].children);
    assert KidsInside(h, scope.dom, x);
    VisitedAdvances(h, roots, id, done, stack, x);
    assert forall r :: r in stack ==> r in stack + [x];
  }

  lemma WorkGrows(h: Nodes, roots: Roots, id: TreeId, done: set<Ref>, work: set<Ref>, x: Ref, more: seq<Ref>)
    requires Working(h, roots, id, done, work) && x in work
    requires forall k :: k in more ==> HeldBy(h, roots, id, done + {x}, k)
    ensures Working(h, roots, id, done + {x}, work + Elements(more))
  {
    forall y | y in work + Elements(more)
      ensures HeldBy(h, roots, id, done + {x}, y)
    {
      if y in work {
        assert HeldBy(h, roots, id, done, y);
        var slot :| HeldAt(h, roots, id, done, y, slot);
        assert HeldAt(h, roots, id, done + {x}, y, slot);
      }
    }
  }

  lemma {:induction false} ConfinedGrows(h0: Nodes, h: Nodes, roots: Roots, id: TreeId, mine: set<Ref>, x: Ref,
                                         ss: seq<Subtree>)
    requires Confined(h0, h, roots, id, mine) && Counts(h, roots, {}, multiset{}) && x in mine && x in h
    requires ss <= h[x].children && AreNodes(h, ss)
    ensures Confined(h0, h, roots, id, mine + Elements(UnsharedParents(h, ss)))
    decreases |ss|
  {
    if ss == [] {
      assert mine + Elements([]) == mine;
    } else {
      var n := |ss| - 1;
      ConfinedGrows(h0, h, roots, id, mine, x, ss[..n]);
      var before := mine + Elements(UnsharedParents(h, ss[..n]));
      if ss[n].Ptr? && h[ss[n].ref].children != [] && h[ss[n].ref].refCount == 1 {
        FenceGrows(h, roots, id, before, x, n, ss[n].ref);
        assert mine + Elements(UnsharedParents(h, ss)) == before + {ss[n].ref};
        forall r
          ensures UnchangedOutside(h0, h, before + {ss[n].ref}, r)
        {
          assert UnchangedOutside(h0, h, before, r);
        }
      } else {
        assert UnsharedParents(h, ss) == UnsharedParents(h, ss[..n]);
      }
    }
  }

  ghost predicate WidthKept(h0: Nodes, h: Nodes, done: set<Ref>, r: Ref) {
    && (r in h <==> r in h0)
    && (r in h ==>
          && |h[r].children| == |h0[r].children| && h[r].refCount == h0[r].refCount
          && Base(h[r].info) == Base(h0[r].info)
          && (r in done ==> h[r].children == h0[r].children))
  }

  /** Nodes keep their number of children, and those already visited keep their children. */
  ghost predicate SameWidths(h0: Nodes, h: Nodes, done: set<Ref>) {
    forall r {:trigger WidthKept(h0, h, done, r)} :: WidthKept(h0, h, done, r)
  }

  lemma SameWidthsItself(h: Nodes, done: set<Ref>)
    ensures SameWidths(h, h, done)
  {
    forall r
      ensures WidthKept(h, h, done, r)
    {
    }
  }

  lemma WidthsKeepSymbol(h0: Nodes, h: Nodes, done: set<Ref>, r: Ref)
    requires SameWidths(h0, h, done) && r in h0
    ensures r in h && h[r].info.symbol == h0[r].info.symbol
  {
    assert WidthKept(h0, h, done, r);
    assert Base(h[r].info).symbol == h[r].info.symbol && Base(h0[r].info).symbol == h0[r].info.symbol;
  }

  lemma WidthsKeepKeys(h0: Nodes, h: Nodes, done: set<Ref>)
    requires SameWidths(h0, h, done)
    ensures h.Keys == h0.Keys
  {
    forall r
      ensures r in h <==> r in h0
    {
      assert WidthKept(h0, h, done, r);
    }
  }

  lemma SameWidthsRotated(h0: Nodes, h: Nodes, done: set<Ref>, x: Ref, c: Ref, g: Ref)
    requires SameWidths(h0, h, done) && CanRotate(h, x, c, g) && x !in done && c !in done && g !in done
    ensures SameWidths(h0, Rotated(h, x, c, g), done)
  {
    forall r
      ensures WidthKept(h0, Rotated(h, x, c, g), done, r)
    {
      assert WidthKept(h0, h, done, r);
    }
  }

  lemma SameWidthsSummarized(lang: Language, h0: Nodes, h: Nodes, done: set<Ref>, r: Ref, h': Nodes)
    requires SameWidths(h0, h, done) && Summarized(lang, h, r, h')
    ensures SameWidths(h0, h', done)
  {
    forall other
      ensures WidthKept(h0, h', done, other)
    {
      assert WidthKept(h0, h, done, other);
    }
  }

  /** The ghost state of a compression: what it promised (`h0`, `done`, `work`, `mine` belong to
      the walk around it), where it started, the truth, and the chain rotated so far. */
  datatype Compression = Compression(lang: Language, scope: Scope, h0: Nodes, start: Nodes, truth: Nodes,
                                     flags: FlagMap, id: TreeId, done: set<Ref>, work: set<Ref>, mine: set<Ref>,
                                     symbol: Symbol, xs: seq<Ref>, cs: seq<Ref>)
  {
    ghost predicate Holds(h: Nodes, roots: Roots, stale: set<Ref>) {
      && |xs| == |cs| + 1 && symbol in scope.repeats
      && Compressing(lang, scope.dom, start, h, truth, roots, xs, cs, stale)
      && Contained(lang, scope, h0, h, roots, id, done, work, mine)
      && ChainMine(h, mine, done, symbol, xs, cs)
      && SameWidths(start, h, done)
      && FlagsTracked(h, scope.dom, flags, stale) && LeftsKept(h, flags, xs)
    }

    ghost function Stale(): set<Ref>
      requires |xs| == |cs| + 1
    {
      StaleIn(xs, cs, |cs|)
    }

    /** After one more rotation. */
    ghost function Longer(c: Ref, g: Ref, truth': Nodes, flags': FlagMap): Compression {
      this.(truth := truth', flags := flags', mine := mine + {c, g}, xs := xs + [g], cs := cs + [c])
    }

    /** The chain rotated so far is all that may be stale. */
    ghost predicate IsRotating(h: Nodes, roots: Roots) {
      |xs| == |cs| + 1 && exists stale :: Holds(h, roots, stale) && stale == Stale()
    }

    /** The same compression, one rotation later. */
    ghost predicate Grows(k: Compression, g: Ref) {
      this == k.(truth := truth, flags := flags, mine := mine, xs := k.xs + [g], cs := cs) && k.mine <= mine &&
      |cs| == |k.cs| + 1
    }

    /** The same compression, some rotations later. */
    ghost predicate Continues(k: Compression) {
      this == k.(truth := truth, flags := flags, mine := mine, xs := xs, cs := cs) && k.mine <= mine
    }
  }

  lemma ContinuesOn(k0: Compression, k1: Compression, k2: Compression, g: Ref)
    requires k1.Continues(k0) && k2.Grows(k1, g)
    ensures k2.Continues(k0) && k2.xs == k1.xs + [g] && |k2.cs| == |k1.cs| + 1
  {
  }

  ghost predicate LeftKept(h: Nodes, flags: FlagMap, xs: seq<Ref>, j: nat) {
    j < |xs| && xs[j] in h && xs[j] in flags ==> h[xs[j]].info.fragileLeft == flags[xs[j]].fragileLeft
  }

  /** No rotation changes whether the left edge of a chain node is fragile. */
  ghost predicate LeftsKept(h: Nodes, flags: FlagMap, xs: seq<Ref>) {
    forall j: nat {:trigger LeftKept(h, flags, xs, j)} :: LeftKept(h, flags, xs, j)
  }

  lemma LeftsKeptRotated(h: Nodes, flags: FlagMap, xs: seq<Ref>, x: Ref, c: Ref, g: Ref, flags': FlagMap)
    requires LeftsKept(h, flags, xs) && CanRotate(h, x, c, g) && c !in xs && g !in xs && g in flags'
    requires flags'[g].fragileLeft == h[g].info.fragileLeft && flags'.Keys == flags.Keys
    requires forall r :: r != c && r != g && r in flags ==> flags'[r] == flags[r]
    ensures LeftsKept(Rotated(h, x, c, g), flags', xs + [g])
  {
    forall j: nat
      ensures LeftKept(Rotated(h, x, c, g), flags', xs + [g], j)
    {
      assert LeftKept(h, flags, xs, j);
    }
  }

  lemma LeftsKeptSummarized(h: Nodes, flags: FlagMap, xs: seq<Ref>, r: Ref, h': Nodes)
    requires LeftsKept(h, flags, xs) && FlagsSummarized(h, r, h') && r in flags
    requires h[r].info.fragileLeft == flags[r].fragileLeft ==> h'[r].info.fragileLeft == flags[r].fragileLeft
    ensures LeftsKept(h', flags, xs)
  {
    forall j: nat
      ensures LeftKept(h', flags, xs, j)
    {
      assert LeftKept(h, flags, xs, j);
    }
  }

  /** What is about to be rotated is not on the chain yet. */
  lemma NextIsOffChain(h: Nodes, roots: Roots, xs: seq<Ref>, cs: seq<Ref>, c: Ref, g: Ref)
    requires IsChainOf(h, xs, cs) && SubtreeMemory.Valid(h, roots) && CanRotate(h, xs[|cs|], c, g)
    ensures c !in StaleIn(xs, cs, |cs|) && g !in StaleIn(xs, cs, |cs|) && c !in xs && g !in xs
  {
    forall j: nat | j < |xs|
      ensures xs[j] != c && xs[j] != g
    {
      BelowChain(h, roots, xs, cs, c, g, j);
    }
    forall j: nat | j < |cs|
      ensures cs[j] != c && cs[j] != g
    {
      assert SpineLink(h, xs, cs, j);
      StaleOwner(h, roots, xs, cs, j, Child(xs[|cs|], 0));
      StaleOwner(h, roots, xs, cs, j, Child(c, 0));
    }
  }

  lemma CompressionRotates(k: Compression, h: Nodes, roots: Roots, c: Ref, g: Ref)
    returns (truth': Nodes, flags': FlagMap)
    requires |k.xs| == |k.cs| + 1 && k.Holds(h, roots, k.Stale()) && Rotatable(h, k.xs[|k.cs|], c, g, k.symbol)
    ensures CanRotate(h, k.xs[|k.cs|], c, g)
    ensures k.Longer(c, g, truth', flags').Holds(Rotated(h, k.xs[|k.cs|], c, g), roots,
                                                 k.Longer(c, g, truth', flags').Stale())
  {
    var x := k.xs[|k.cs|];
    assert OnChain(h, k.mine, k.symbol, x);
    RotatableCanRotate(h, roots, x, c, g, k.symbol);
    ContainedRotated(k.lang, k.scope, k.h0, h, roots, k.id, k.done, k.work, k.mine, x, c, g);
    ChainMineGrows(h, k.mine, k.done, k.symbol, k.xs, k.cs, c, g);
    SameWidthsRotated(k.start, h, k.done, x, c, g);
    truth' := CompressingRotates(k.lang, k.scope, k.start, h, k.truth, roots, k.xs, k.cs, c, g);
    flags' := FlagsRotate(k, h, roots, x, c, g);
    StaleGrows(k.xs, k.cs, c, g);
  }

  lemma FlagsRotate(k: Compression, h: Nodes, roots: Roots, x: Ref, c: Ref, g: Ref) returns (flags': FlagMap)
    requires |k.xs| == |k.cs| + 1 && k.Holds(h, roots, k.Stale()) && x == k.xs[|k.cs|] && CanRotate(h, x, c, g)
    requires h[x].info.symbol in k.scope.repeats && x in k.scope.dom
    ensures FlagsTracked(Rotated(h, x, c, g), k.scope.dom, flags', k.Stale() + {c, g})
    ensures LeftsKept(Rotated(h, x, c, g), flags', k.xs + [g])
  {
    NextIsOffChain(h, roots, k.xs, k.cs, c, g);
    assert RepeatOk(k.lang, k.scope.repeats, h, x) && LeftKept(h, k.flags, k.xs, |k.cs|);
    assert Base(h[x].info).symbol == h[x].info.symbol;
    RotationTracksFlags(h, roots, k.scope.dom, k.flags, k.Stale(), x, c, g);
    flags' := RotatedFlags(h, k.flags, x, c, g);
    LeftsKeptRotated(h, k.flags, k.xs, x, c, g, flags');
  }

  lemma CompressionSummarizes(k: Compression, h: Nodes, roots: Roots, stale: set<Ref>, r: Ref, h': Nodes,
                              stale': set<Ref>)
    requires k.Holds(h, roots, stale) && Summarized(k.lang, h, r, h') && OnChain(h, k.mine, k.symbol, r)
    requires (KidsFresh(h, r, stale) && stale' == stale - {r}) || (r in stale && stale' == stale)
    ensures k.Holds(h', roots, stale') && SameLinks(h, h')
  {
    assert LocalOk(k.lang, k.truth, r);
    if KidsFresh(h, r, stale) && stale' == stale - {r} {
      SummarizeFresh(k.lang, h, k.truth, stale, r, h');
    } else {
      SummarizeStale(k.lang, h, k.truth, stale, r, h');
    }
    CompressingSummarizes(k.lang, k.scope.dom, k.start, h, k.truth, roots, k.xs, k.cs, stale, r, h', stale');
    ContainedSummarized(k.lang, k.scope, k.h0, h, roots, k.id, k.done, k.work, k.mine, r, h');
    SameWidthsSummarized(k.lang, k.start, h, k.done, r, h');
    ChainMineSummarized(k.lang, h, k.mine, k.done, k.symbol, k.xs, k.cs, r, h');
    SummarizedLinks(k.lang, h, r, h');
    FlagsSummarize(k.lang, k.scope.dom, k.flags, h, k.xs, stale, r, h', stale');
  }

  lemma FlagsSummarize(lang: Language, dom: set<Ref>, flags: FlagMap, h: Nodes, xs: seq<Ref>, stale: set<Ref>,
                       r: Ref, h': Nodes, stale': set<Ref>)
    requires FlagsTracked(h, dom, flags, stale) && r in dom && Inward(h, dom) && LeftsKept(h, flags, xs) &&
             Summarized(lang, h, r, h')
    requires (KidsFresh(h, r, stale) && stale' == stale - {r}) || (r in stale && stale' == stale)
    ensures FlagsTracked(h', dom, flags, stale') && LeftsKept(h', flags, xs)
  {
    assert Base(h'[r].info).symbol == h'[r].info.symbol && Base(h[r].info).symbol == h[r].info.symbol;
    assert FlagsSummarized(h, r, h');
    SummaryTracksFlags(h, dom, flags, stale, r, h', stale');
    LeftsKeptSummarized(h, flags, xs, r, h');
  }

  lemma TopOfChain(k: Compression, h: Nodes, roots: Roots, stale: set<Ref>)
    requires k.Holds(h, roots, stale)
    ensures |k.xs| == |k.cs| + 1 && SubtreeMemory.Valid(h, roots) && k.xs[|k.cs|] in h
  {
    assert OnChain(h, k.mine, k.symbol, k.xs[|k.cs|]);
  }

  /** The `n`th link of the chain, where it is now. */
  lemma LinkAt(k: Compression, h: Nodes, roots: Roots, stale: set<Ref>, n: nat)
    requires k.Holds(h, roots, stale) && 0 < n <= |k.cs|
    ensures SpineLink(h, k.xs, k.cs, n - 1)
    ensures OnChain(h, k.mine, k.symbol, k.cs[n - 1]) && OnChain(h, k.mine, k.symbol, k.xs[n])
    ensures OnChain(h, k.mine, k.symbol, k.xs[n - 1])
  {
  }

  /** The top of a link is summarized while its first child is stale no longer: at the top of
      the chain for good, below it once more when its turn comes. */
  lemma TopMayBeSummarized(h: Nodes, k: Compression, n: nat)
    requires 0 < n <= |k.cs| < |k.xs|
    ensures var stale, r := StaleIn(k.xs, k.cs, n - 1), k.xs[n - 1];
            (KidsFresh(h, r, stale) && stale == stale - {r}) || (r in stale && stale == stale)
  {
    StaleShrinks(k.xs, k.cs, n);
  }

  /** Calling more nodes stale is always safe. */
  lemma CompressionStaler(k: Compression, h: Nodes, roots: Roots, stale: set<Ref>, more: set<Ref>)
    requires k.Holds(h, roots, stale) && stale <= more
    ensures k.Holds(h, roots, more)
  {
    TracksMore(h, k.truth, stale, more);
    forall r
      ensures FlagsAt(h, k.scope.dom, k.flags, more, r)
    {
      assert FlagsAt(h, k.scope.dom, k.flags, stale, r);
    }
  }

  /** Nothing is wrong any more. */
  lemma CompressionDone(k: Compression, h: Nodes, roots: Roots)
    requires k.Holds(h, roots, {})
    ensures SubtreeMemory.Valid(h, roots) && Settled(k.lang, k.scope.dom, h) && SameTrees(k.lang, k.start, h, roots)
    ensures Contained(k.lang, k.scope, k.h0, h, roots, k.id, k.done, k.work, k.mine) && SameWidths(k.start, h, k.done)
  {
    CompressingDone(k.lang, k.scope.dom, k.start, h, k.truth, roots, k.xs, k.cs);
    ClosedWithoutRoots(h, roots);
    FlagsDone(h, k.scope.dom, k.flags);
  }

  lemma CompressionStarts(k: Compression, h: Nodes, roots: Roots, x: Ref)
    requires SubtreeMemory.Valid(h, roots) && Settled(k.lang, k.scope.dom, h) && x !in k.done
    requires OnChain(h, k.mine, k.symbol, x) && k.flags == FlagsOfAll(h)
    requires Contained(k.lang, k.scope, k.h0, h, roots, k.id, k.done, k.work, k.mine) && k.symbol in k.scope.repeats
    requires k.start == k.truth == h && k.xs == [x] && k.cs == []
    ensures k.Holds(h, roots, k.Stale())
  {
    CompressingStart(k.lang, k.scope.dom, h, roots, x);
    SameWidthsItself(h, k.done);
    ClosedWithoutRoots(h, roots);
    FlagsStart(h, k.scope.dom);
    forall j: nat
      ensures LeftKept(h, k.flags, [x], j)
    {
    }
  }

  lemma WalkStart(lang: Language, scope: Scope, h: Nodes, roots: Roots, id: TreeId, stack: seq<Ref>)
    requires SubtreeMemory.Valid(h, roots) && Settled(lang, scope.dom, h) && ScopeOk(lang, scope, h) && id in roots
    requires RootInside(roots, id, scope.dom)
    requires AreNodes(h, [roots[id]]) && stack == UnsharedParents(h, [roots[id]])
    ensures BalanceWalk(lang, scope, h, h, roots, id, {}, stack, Elements(stack))
  {
    forall k, t | k in roots && Denotes(h, roots[k], t)
      ensures StillShows(lang, h, roots[k], t)
    {
      assert Same(lang, t, t);
    }
    forall r
      ensures UnchangedOutside(h, h, Elements(stack), r)
    {
    }
    assert NamesNode(h, roots, {}, Root(id));
    assert [roots[id]][..0] == [];
    forall r | r in stack
      ensures roots[id] == Ptr(r) && HeldBy(h, roots, id, {}, r)
    {
      assert HeldAt(h, roots, id, {}, r, Root(id));
    }
    RootFence(h, roots, id, stack);
    assert {} + Elements(stack) == Elements(stack);
    assert AreNodes(h, [roots[id]]);
    if roots[id].Ptr? && h[roots[id].ref].refCount == 1 && h[roots[id].ref].children != [] {
      UnsharedParentsComplete(h, [roots[id]], 0);
    }
  }

  lemma RootFence(h: Nodes, roots: Roots, id: TreeId, stack: seq<Ref>)
    requires Counts(h, roots, {}, multiset{}) && id in roots
    requires forall r :: r in stack ==> r in h && h[r].refCount == 1 && roots[id] == Ptr(r)
    ensures Fenced(h, roots, id, Elements(stack))
  {
    forall p, j | p in h && p !in Elements(stack) && 0 <= j < |h[p].children| && h[p].children[j].Ptr?
      ensures h[p].children[j].ref !in Elements(stack)
    {
      if h[p].children[j].ref in stack {
        SoleOwner(h, roots, Root(id));
        NotAnOwner(h, roots, Root(id), h[p].children[j].ref, Child(p, j));
      }
    }
    forall k | k in roots && k != id && roots[k].Ptr?
      ensures roots[k].ref !in Elements(stack)
    {
      if roots[k].ref in stack {
        SoleOwner(h, roots, Root(id));
        NotAnOwner(h, roots, Root(id), roots[k].ref, Root(k));
      }
    }
  }

  /** The top of the stack may be compressed. */
  lemma TopIsReady(lang: Language, scope: Scope, h0: Nodes, h: Nodes, roots: Roots, id: TreeId,
                   done: set<Ref>, stack: seq<Ref>, mine: set<Ref>)
    requires BalanceWalk(lang, scope, h0, h, roots, id, done, stack, mine) && stack != []
    ensures var x := stack[|stack| - 1];
            && x in h && h[x].children != [] && x !in done && OnChain(h, mine, h[x].info.symbol, x)
            && AreNodes(h, h[x].children)
            && (h[x].info.repeatDepth > 0 ==> h[x].info.symbol in scope.repeats)
  {
    var x := stack[|stack| - 1];
    assert x in stack && x in Elements(stack);
    assert HeldBy(h, roots, id, done, x) && RepeatOk(lang, scope.repeats, h, x);
    forall i | 0 <= i < |h[x].children| && h[x].children[i].Ptr?
      ensures h[x].children[i].ref in h
    {
      assert NamesNode(h, roots, {}, Child(x, i));
    }
  }

  lemma WalkAfterCompression(lang: Language, scope: Scope, h0: Nodes, h: Nodes, h': Nodes, roots: Roots, id: TreeId,
                             done: set<Ref>, stack: seq<Ref>, mine: set<Ref>, mine': set<Ref>)
    requires BalanceWalk(lang, scope, h0, h, roots, id, done, stack, mine) && mine <= mine'
    requires SubtreeMemory.Valid(h', roots) && Settled(lang, scope.dom, h') && SameTrees(lang, h, h', roots)
    requires Contained(lang, scope, h0, h', roots, id, done, done + Elements(stack), mine')
    requires SameWidths(h, h', done)
    ensures BalanceWalk(lang, scope, h0, h', roots, id, done, stack, mine')
  {
    SameTreesTransitive(lang, h0, h, h', roots);
    VisitedKept(h, h', roots, id, done, stack);
    forall r | r in stack
      ensures r !in done && r in h' && h'[r].children != []
    {
      assert WidthKept(h, h', done, r);
    }
  }

  /** A finished walk has visited every unshared parent that its handle reaches through
      unshared parents. */
  lemma {:induction false} WalkVisitsAll(lang: Language, scope: Scope, h0: Nodes, h: Nodes, roots: Roots,
                                         id: TreeId, done: set<Ref>, mine: set<Ref>, chain: seq<Ref>)
    requires BalanceWalk(lang, scope, h0, h, roots, id, done, [], mine)
    requires chain != [] && id in roots && roots[id] == Ptr(chain[0])
    requires forall j :: 0 < j < |chain| ==> IsChild(h, chain[j - 1], chain[j])
    requires forall r :: r in chain ==> r in h && h[r].refCount == 1 && h[r].children != []
    ensures forall r :: r in chain ==> r in done
    decreases |chain|
  {
    if |chain| > 1 {
      var n := |chain| - 1;
      forall j | 0 < j < n
        ensures IsChild(h, chain[..n][j - 1], chain[..n][j])
      {
        assert IsChild(h, chain[j - 1], chain[j]);
      }
      WalkVisitsAll(lang, scope, h0, h, roots, id, done, mine, chain[..n]);
      assert IsChild(h, chain[n - 1], chain[n]);
      assert chain[n - 1] in chain[..n] && chain[n] in chain;
      assert VisitedAt(h, done, [], chain[n - 1], chain[n]);
      assert forall r :: r in chain ==> r in chain[..n] || r == chain[n];
    } else {
      assert chain == [chain[0]] && chain[0] in chain;
    }
  }

  /** No client can tell that memory has changed from `h0` to `h` by balancing the tree of `id`:
      what the handle reaches has right caches, every right cache anywhere is still right, the
      handle's tree shows the same, all other handles have the very trees they had, neither a
      shared node nor one that another handle reaches has been touched, and parse states are kept
      or taken away. */
  ghost predicate OnlyRebalanced(lang: Language, h0: Nodes, h: Nodes, roots: Roots, id: TreeId) {
    && Settled(lang, ReachedBy(h, roots, id), h)
    && (forall r {:trigger LocalOk(lang, h, r)} :: LocalOk(lang, h0, r) ==> LocalOk(lang, h, r))
    && SameTrees(lang, h0, h, roots)
    && (forall k, t :: k in roots && k != id && Denotes(h0, roots[k], t) ==> Denotes(h, roots[k], t))
    && (forall r :: r in h0 && h0[r].refCount != 1 ==> r in h && h[r] == h0[r])
    && (forall r :: Reachable(h0, roots - {id}, r) && r in h0 ==> r in h && h[r] == h0[r])
    && (forall r :: r in h0 && r in h ==>
          h[r].info.parseState == h0[r].info.parseState || h[r].info.parseState == NO_PARSE_STATE)
  }

  lemma WasFenced(h0: Nodes, h: Nodes, roots: Roots, id: TreeId, mine: set<Ref>)
    requires Confined(h0, h, roots, id, mine)
    ensures Fenced(h0, roots, id, mine)
    ensures forall r :: r in h0 && r !in mine ==> r in h && h[r] == h0[r]
  {
    forall p | p in h0 && p !in mine
      ensures p in h && h[p] == h0[p]
    {
      assert UnchangedOutside(h0, h, mine, p);
    }
  }

  /** Outside the fence a cache reads nothing that has changed. */
  lemma OutsideKeepsOk(lang: Language, h0: Nodes, h: Nodes, roots: Roots, id: TreeId, mine: set<Ref>, r: Ref)
    requires Confined(h0, h, roots, id, mine) && r !in mine && LocalOk(lang, h0, r)
    ensures LocalOk(lang, h, r)
  {
    WasFenced(h0, h, roots, id, mine);
    assert UnchangedOutside(h0, h, mine, r);
    if r in h0 && h0[r].children != [] {
      forall i | 0 <= i < |h0[r].children|
        ensures h0[r].children[i].Ptr? ==> h0[r].children[i].ref in h
        ensures KidOf(h, h0[r].children[i]) == KidOf(h0, h0[r].children[i])
      {
      }
      LocalOkFrame(lang, h0, h, r);
    }
  }

  /** What a walk, finished or not, guarantees. */
  lemma WalkOnlyRebalances(lang: Language, scope: Scope, h0: Nodes, h: Nodes, roots: Roots, id: TreeId,
                           done: set<Ref>, stack: seq<Ref>, mine: set<Ref>)
    requires BalanceWalk(lang, scope, h0, h, roots, id, done, stack, mine)
    ensures OnlyRebalanced(lang, h0, h, roots, id)
  {
    WalkKeepsCaches(lang, scope, h0, h, roots, id, done, stack, mine);
    WasFenced(h0, h, roots, id, mine);
    forall r | r in h0
      ensures h0[r].refCount != 1 ==> r in h && h[r] == h0[r]
      ensures r in h ==> h[r].info.parseState == h0[r].info.parseState || h[r].info.parseState == NO_PARSE_STATE
    {
      assert UnchangedOutside(h0, h, mine, r);
    }
    forall k, t | k in roots && k != id && Denotes(h0, roots[k], t)
      ensures Denotes(h, roots[k], t)
    {
      FencedFrame(h0, h, roots, id, mine, roots[k], t);
    }
    forall r | Reachable(h0, roots - {id}, r) && r in h0
      ensures r in h && h[r] == h0[r]
    {
      var chain :| IsChain(h0, roots - {id}, chain) && chain[|chain| - 1] == r;
      FencedChain(h0, roots, id, mine, chain);
    }
  }

  lemma WalkKeepsCaches(lang: Language, scope: Scope, h0: Nodes, h: Nodes, roots: Roots, id: TreeId,
                        done: set<Ref>, stack: seq<Ref>, mine: set<Ref>)
    requires BalanceWalk(lang, scope, h0, h, roots, id, done, stack, mine)
    ensures Settled(lang, ReachedBy(h, roots, id), h)
    ensures forall r {:trigger LocalOk(lang, h, r)} :: LocalOk(lang, h0, r) ==> LocalOk(lang, h, r)
  {
    forall r | r in ReachedBy(h, roots, id)
      ensures LocalOk(lang, h, r) && FlagsFixed(h, r)
    {
      var chain :| IsChain(h, map[id := roots[id]], chain) && chain[|chain| - 1] == r;
      ReachedInside(h, roots, id, scope.dom, chain);
    }
    forall r | LocalOk(lang, h0, r)
      ensures LocalOk(lang, h, r)
    {
      if r !in mine {
        OutsideKeepsOk(lang, h0, h, roots, id, mine, r);
      }
    }
  }
}
