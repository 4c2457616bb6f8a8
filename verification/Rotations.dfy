/** One rotation of an unshared repeat chain, in memory. Models the body of the first loop of
    ts_subtree_compress (subtree.c:302-326). */
module Rotations {
  import opened SyntaxTrees
  import opened Summaries
  import opened VisibleTrees
  import opened SubtreeMemory

  /** `x`'s first child is `c`, whose first child is `g`; the lower two belong to nobody else. */
  ghost predicate CanRotate(h: Nodes, x: Ref, c: Ref, g: Ref) {
    && x in h && c in h && g in h
    && h[c].refCount == 1 && h[g].refCount == 1
    && |h[x].children| >= 2 && |h[c].children| >= 2 && |h[g].children| >= 2
    && h[x].children[0] == Ptr(c) && h[c].children[0] == Ptr(g)
    && h[x].info.symbol == h[c].info.symbol == h[g].info.symbol
    && x != c && c != g && x != g
  }

  function LastSlot(h: Nodes, g: Ref): Slot
    requires g in h && h[g].children != []
  {
    Child(g, |h[g].children| - 1)
  }

  function Rotated(h: Nodes, x: Ref, c: Ref, g: Ref): Nodes
    requires x in h && c in h && g in h
    requires h[x].children != [] && h[c].children != [] && h[g].children != []
  {
    var h1 := StoredNodes(h, Child(x, 0), Ptr(g));
    var h2 := StoredNodes(h1, Child(c, 0), h[g].children[|h[g].children| - 1]);
    StoredNodes(h2, LastSlot(h, g), Ptr(c))
  }

  lemma RotationOwners(h: Nodes, roots: Roots, x: Ref, c: Ref, g: Ref)
    requires CanRotate(h, x, c, g) && Counts(h, roots, {}, multiset{})
    ensures Owners(h, roots, {}, c) == {Child(x, 0)} && Owners(h, roots, {}, g) == {Child(c, 0)}
  {
    SoleOwner(h, roots, Child(x, 0));
    SoleOwner(h, roots, Child(c, 0));
  }

  /** Neither lower node is held anywhere but in its place on the spine. */
  lemma OffSpine(h: Nodes, roots: Roots, x: Ref, c: Ref, g: Ref, slot: Slot)
    requires CanRotate(h, x, c, g) && Counts(h, roots, {}, multiset{}) && HasSlot(h, roots, slot)
    ensures slot != Child(x, 0) ==> At(h, roots, slot) != Ptr(c)
    ensures slot != Child(c, 0) ==> At(h, roots, slot) != Ptr(g)
  {
    RotationOwners(h, roots, x, c, g);
    if slot != Child(x, 0) {
      NotAnOwner(h, roots, Child(x, 0), c, slot);
    }
    if slot != Child(c, 0) {
      NotAnOwner(h, roots, Child(c, 0), g, slot);
    }
  }

  lemma RotatedCounts(h: Nodes, roots: Roots, x: Ref, c: Ref, g: Ref)
    requires CanRotate(h, x, c, g) && Counts(h, roots, {}, multiset{})
    ensures Counts(Rotated(h, x, c, g), roots, {}, multiset{})
  {
    var sx, sc, sg := Child(x, 0), Child(c, 0), LastSlot(h, g);
    var b := At(h, roots, sg);
    var h1 := StoredNodes(h, sx, Ptr(g));
    var h2 := StoredNodes(h1, sc, b);
    GiveUp(h, roots, {}, multiset{}, sx);
    GiveUp(h, roots, {} + {sx}, multiset{} + HeldFrom(Ptr(c)), sc);
    GiveUp(h, roots, {} + {sx} + {sc}, multiset{} + HeldFrom(Ptr(c)) + HeldFrom(Ptr(g)), sg);
    var dead := {} + {sx} + {sc} + {sg};
    assert multiset{} + HeldFrom(Ptr(c)) + HeldFrom(Ptr(g)) + HeldFrom(b) ==
      multiset{} + HeldFrom(Ptr(c)) + HeldFrom(b) + HeldFrom(Ptr(g));
    TakeOver(h, roots, dead, multiset{} + HeldFrom(Ptr(c)) + HeldFrom(b), sx, Ptr(g));
    TakeOver(h1, roots, dead - {sx}, multiset{} + HeldFrom(Ptr(c)), sc, b);
    TakeOver(h2, roots, dead - {sx} - {sc}, multiset{}, sg, Ptr(c));
    assert dead - {sx} - {sc} - {sg} == {};
  }

  /** What each slot holds after a rotation. */
  lemma RotatedSlots(h: Nodes, roots: Roots, x: Ref, c: Ref, g: Ref, slot: Slot)
    requires CanRotate(h, x, c, g)
    ensures var h' := Rotated(h, x, c, g);
            && (HasSlot(h', roots, slot) <==> HasSlot(h, roots, slot))
            && (HasSlot(h, roots, slot) ==>
                  At(h', roots, slot) ==
                  if slot == Child(x, 0) then Ptr(g)
                  else if slot == Child(c, 0) then At(h, roots, LastSlot(h, g))
                  else if slot == LastSlot(h, g) then Ptr(c)
                  else At(h, roots, slot))
  {
    var h1 := StoredNodes(h, Child(x, 0), Ptr(g));
    var h2 := StoredNodes(h1, Child(c, 0), At(h, roots, LastSlot(h, g)));
    StoredSlots(h, roots, Child(x, 0), Ptr(g), slot);
    StoredSlots(h1, roots, Child(c, 0), At(h, roots, LastSlot(h, g)), slot);
    StoredSlots(h2, roots, LastSlot(h, g), Ptr(c), slot);
  }

  /** Ranks after a rotation: the new parent goes between the old one and `c`. */
  ghost function RotatedRank(rank: map<Ref, nat>, c: Ref, g: Ref): map<Ref, nat> {
    map r | r in rank :: if r == g && c in rank then 2 * rank[c] + 1 else 2 * rank[r]
  }

  lemma RotatedDescends(h: Nodes, rank: map<Ref, nat>, x: Ref, c: Ref, g: Ref, p: Ref, i: nat)
    requires CanRotate(h, x, c, g) && Ranked(h, rank) && Closed(h, map[], {})
    requires forall q, j: nat :: q in h && j < |h[q].children| && Child(q, j) != Child(c, 0) ==>
               h[q].children[j] != Ptr(g)
    ensures Descends(Rotated(h, x, c, g), RotatedRank(rank, c, g), p, i)
  {
    RotatedSlots(h, map[], x, c, g, Child(p, i));
    assert Descends(h, rank, x, 0) && Descends(h, rank, c, 0) && Descends(h, rank, p, i);
    assert Descends(h, rank, g, |h[g].children| - 1);
    assert NamesNode(h, map[], {}, Child(p, i)) && NamesNode(h, map[], {}, LastSlot(h, g));
  }

  lemma RotatedRanked(h: Nodes, roots: Roots, rank: map<Ref, nat>, x: Ref, c: Ref, g: Ref)
    requires CanRotate(h, x, c, g) && Counts(h, roots, {}, multiset{}) && Closed(h, roots, {}) && Ranked(h, rank)
    ensures Ranked(Rotated(h, x, c, g), RotatedRank(rank, c, g))
  {
    forall slot
      ensures NamesNode(h, map[], {}, slot)
    {
      assert NamesNode(h, roots, {}, slot);
    }
    forall q, j: nat | q in h && j < |h[q].children| && Child(q, j) != Child(c, 0)
      ensures h[q].children[j] != Ptr(g)
    {
      OffSpine(h, roots, x, c, g, Child(q, j));
    }
    forall p, i: nat
      ensures Descends(Rotated(h, x, c, g), RotatedRank(rank, c, g), p, i)
    {
      RotatedDescends(h, rank, x, c, g, p, i);
    }
  }

  lemma RotatedValid(h: Nodes, roots: Roots, x: Ref, c: Ref, g: Ref)
    requires CanRotate(h, x, c, g) && SubtreeMemory.Valid(h, roots)
    ensures SubtreeMemory.Valid(Rotated(h, x, c, g), roots)
  {
    var h' := Rotated(h, x, c, g);
    RotatedCounts(h, roots, x, c, g);
    forall slot
      ensures NamesNode(h', roots, {}, slot) && LeafFits(h', roots, slot)
    {
      RotatedSlots(h, roots, x, c, g, slot);
      assert NamesNode(h, roots, {}, slot) && NamesNode(h, roots, {}, LastSlot(h, g));
      assert LeafFits(h, roots, slot) && LeafFits(h, roots, LastSlot(h, g));
    }
    var rank :| Ranked(h, rank);
    RotatedRanked(h, roots, rank, x, c, g);
  }

  // ---- Cached summaries in memory ----

  ghost predicate AreNodes(h: Nodes, ss: seq<Subtree>) {
    forall i :: 0 <= i < |ss| && ss[i].Ptr? ==> ss[i].ref in h
  }

  function KidOf(h: Nodes, s: Subtree): Kid
    requires s.Ptr? ==> s.ref in h
  {
    var info, isParent := InfoOf(h, s), ChildrenOf(h, s) != [];
    Kid(Outer(info), isParent, if isParent then info.firstLeafState else info.parseState)
  }

  function KidsOf(h: Nodes, ss: seq<Subtree>): (kids: seq<Kid>)
    requires AreNodes(h, ss)
    ensures |kids| == |ss|
  {
    seq(|ss|, i requires 0 <= i < |ss| => KidOf(h, ss[i]))
  }

  function InfosOf(h: Nodes, ss: seq<Subtree>): (infos: seq<Info>)
    requires AreNodes(h, ss)
    ensures |infos| == |ss|
  {
    seq(|ss|, i requires 0 <= i < |ss| => InfoOf(h, ss[i]))
  }

  lemma ReadAt(h: Nodes, ss: seq<Subtree>, i: nat)
    requires AreNodes(h, ss) && i < |ss|
    ensures KidsOf(h, ss)[i] == KidOf(h, ss[i]) && InfosOf(h, ss)[i] == InfoOf(h, ss[i])
  {
  }

  /** The node at `r` caches the right summary of its children. */
  ghost predicate LocalOk(lang: Language, h: Nodes, r: Ref) {
    r in h && h[r].children != [] ==>
      && AreNodes(h, h[r].children)
      && Outer(h[r].info) == Summary(lang, Base(h[r].info), KidsOf(h, h[r].children))
  }

  ghost predicate OkIn(lang: Language, h: Nodes, dom: set<Ref>) {
    forall r {:trigger LocalOk(lang, h, r)} :: r in dom ==> LocalOk(lang, h, r)
  }

  /** `info` with its summary replaced by `outer`. */
  function WithOuter(info: Info, outer: Info): Info {
    outer.(parseState := info.parseState, fragileLeft := info.fragileLeft, fragileRight := info.fragileRight,
           dependsOnColumn := info.dependsOnColumn, repeatDepth := info.repeatDepth)
  }

  /** The node at `r` after a rotation: only the caches of `c` and `g` may have changed. */
  ghost predicate NodeRotated(h: Nodes, x: Ref, c: Ref, g: Ref, h': Nodes, r: Ref)
    requires CanRotate(h, x, c, g)
  {
    && (r in h' <==> r in h)
    && (r in h ==>
          && h'[r].children == Rotated(h, x, c, g)[r].children && h'[r].refCount == h[r].refCount
          && Base(h'[r].info) == Base(h[r].info)
          && (r != c && r != g ==> h'[r].info == h[r].info))
  }

  ghost predicate IsRotation(h: Nodes, x: Ref, c: Ref, g: Ref, h': Nodes) {
    && CanRotate(h, x, c, g)
    && forall r {:trigger NodeRotated(h, x, c, g, h', r)} :: NodeRotated(h, x, c, g, h', r)
  }

  lemma RotatedChildrenAreNodes(h: Nodes, x: Ref, c: Ref, g: Ref)
    requires CanRotate(h, x, c, g) && Closed(h, map[], {})
    ensures var h' := Rotated(h, x, c, g);
            AreNodes(h', h'[c].children) && AreNodes(h', h'[g].children) && AreNodes(h', h'[x].children)
    ensures var h' := Rotated(h, x, c, g);
            AreNodes(h, h[c].children) && AreNodes(h, h[g].children) && AreNodes(h, h[x].children)
  {
    forall r, i: nat | r in h && i < |h[r].children| && h[r].children[i].Ptr?
      ensures h[r].children[i].ref in h
    {
      assert NamesNode(h, map[], {}, Child(r, i));
    }
  }

  lemma OuterOfSummary(lang: Language, info: Info, kids: seq<Kid>)
    requires kids != []
    ensures var outer := Summary(lang, Base(info), kids);
            Outer(WithOuter(info, outer)) == outer && Base(WithOuter(info, outer)) == Base(info)
  {
  }

  /** The node at `r` with its cache put right. */
  function Refreshed(lang: Language, h: Nodes, r: Ref): Nodes
    requires r in h && h[r].children != [] && AreNodes(h, h[r].children)
  {
    h[r := h[r].(info := WithOuter(h[r].info, Summary(lang, Base(h[r].info), KidsOf(h, h[r].children))))]
  }

  lemma RefreshIsOk(lang: Language, h: Nodes, r: Ref)
    requires r in h && h[r].children != [] && AreNodes(h, h[r].children)
    requires forall i :: 0 <= i < |h[r].children| ==> h[r].children[i] != Ptr(r)
    ensures var h' := Refreshed(lang, h, r);
            LocalOk(lang, h', r) && Base(h'[r].info) == Base(h[r].info)
  {
    var h' := Refreshed(lang, h, r);
    OuterOfSummary(lang, h[r].info, KidsOf(h, h[r].children));
    assert KidsOf(h', h'[r].children) == KidsOf(h, h[r].children);
  }

  /** A summary reads nothing but the children. */
  lemma LocalOkFrame(lang: Language, h: Nodes, h': Nodes, r: Ref)
    requires LocalOk(lang, h, r) && r in h && r in h' && h'[r].children == h[r].children
    requires Outer(h'[r].info) == Outer(h[r].info) && Base(h'[r].info) == Base(h[r].info)
    requires AreNodes(h, h[r].children) && AreNodes(h', h[r].children)
    requires forall i :: 0 <= i < |h[r].children| ==> KidOf(h', h[r].children[i]) == KidOf(h, h[r].children[i])
    ensures LocalOk(lang, h', r)
  {
    if h[r].children != [] {
      assert KidsOf(h', h'[r].children) == KidsOf(h, h[r].children);
    }
  }

  /** Only the cache of the node at `r` differs. */
  ghost predicate OnlyCache(h: Nodes, h': Nodes, r: Ref) {
    && h'.Keys == h.Keys && r in h
    && (forall other :: other in h && other != r ==> h'[other] == h[other])
    && h'[r].children == h[r].children && h'[r].refCount == h[r].refCount && Base(h'[r].info) == Base(h[r].info)
  }

  lemma RefreshTwo(lang: Language, h: Nodes, c: Ref, g: Ref) returns (h1: Nodes, h2: Nodes)
    requires c in h && g in h && c != g && h[c].children != [] && h[g].children != []
    requires AreNodes(h, h[c].children) && AreNodes(h, h[g].children)
    requires forall i :: 0 <= i < |h[c].children| ==> h[c].children[i] != Ptr(c) && h[c].children[i] != Ptr(g)
    requires forall i :: 0 <= i < |h[g].children| ==> h[g].children[i] != Ptr(g)
    ensures LocalOk(lang, h2, c) && LocalOk(lang, h2, g)
    ensures OnlyCache(h, h1, c) && OnlyCache(h1, h2, g)
  {
    RefreshIsOk(lang, h, c);
    h1 := Refreshed(lang, h, c);
    RefreshIsOk(lang, h1, g);
    h2 := Refreshed(lang, h1, g);
    RefreshKeeps(lang, h1, g, c);
  }

  /** A rotation of the caches that should be: every rotation of children has one. */
  lemma RotateTruth(lang: Language, h: Nodes, roots: Roots, x: Ref, c: Ref, g: Ref) returns (h': Nodes)
    requires CanRotate(h, x, c, g) && Counts(h, roots, {}, multiset{}) && Closed(h, roots, {})
    ensures IsRotation(h, x, c, g, h') && LocalOk(lang, h', c) && LocalOk(lang, h', g)
  {
    var h0 := Rotated(h, x, c, g);
    ClosedWithoutRoots(h, roots);
    RotatedChildrenAreNodes(h, x, c, g);
    RestsAreOffSpine(h, roots, x, c, g);
    RotationLists(h, x, c, g);
    var h1;
    h1, h' := RefreshTwo(lang, h0, c, g);
    OnlyCachesRotated(h, x, c, g, h1, h');
  }

  lemma OnlyCachesRotated(h: Nodes, x: Ref, c: Ref, g: Ref, h1: Nodes, h': Nodes)
    requires CanRotate(h, x, c, g) && OnlyCache(Rotated(h, x, c, g), h1, c) && OnlyCache(h1, h', g)
    ensures IsRotation(h, x, c, g, h')
  {
    forall r
      ensures NodeRotated(h, x, c, g, h', r)
    {
      assert r in h ==> Rotated(h, x, c, g)[r].info == h[r].info && Rotated(h, x, c, g)[r].refCount == h[r].refCount;
    }
  }

  lemma RefreshKeeps(lang: Language, h: Nodes, r: Ref, other: Ref)
    requires r in h && h[r].children != [] && AreNodes(h, h[r].children)
    requires other != r && LocalOk(lang, h, other)
    requires other in h ==>
               AreNodes(h, h[other].children) &&
               forall i :: 0 <= i < |h[other].children| ==> h[other].children[i] != Ptr(r)
    ensures LocalOk(lang, Refreshed(lang, h, r), other)
  {
    if other in h {
      LocalOkFrame(lang, h, Refreshed(lang, h, r), other);
    }
  }

  lemma ClosedWithoutRoots(h: Nodes, roots: Roots)
    requires Closed(h, roots, {})
    ensures Closed(h, map[], {})
  {
    forall slot
      ensures NamesNode(h, map[], {}, slot)
    {
      assert NamesNode(h, roots, {}, slot);
    }
  }

  /** What the other nodes see of `s` does not change. */
  lemma KidUnchanged(h: Nodes, x: Ref, c: Ref, g: Ref, h': Nodes, s: Subtree)
    requires IsRotation(h, x, c, g, h') && (s.Ptr? ==> s.ref in h)
    requires s != Ptr(c) && s != Ptr(g)
    ensures (s.Ptr? ==> s.ref in h') && KidOf(h', s) == KidOf(h, s)
  {
    if s.Ptr? {
      assert NodeRotated(h, x, c, g, h', s.ref);
    }
  }

  /** The parts of a rotation as lists of children. */
  lemma RotationLists(h: Nodes, x: Ref, c: Ref, g: Ref)
    requires CanRotate(h, x, c, g)
    ensures var h', last := Rotated(h, x, c, g), |h[g].children| - 1;
            var b := h[g].children[last];
            && h[x].children == [Ptr(c)] + h[x].children[1..] && h'[x].children == [Ptr(g)] + h[x].children[1..]
            && h[c].children == [Ptr(g)] + h[c].children[1..] && h'[c].children == [b] + h[c].children[1..]
            && h[g].children == h[g].children[..last] + [b] && h'[g].children == h[g].children[..last] + [Ptr(c)]
            && h'[x].info == h[x].info && h'[c].info == h[c].info && h'[g].info == h[g].info
  {
  }

  lemma KidsOfAppend(h: Nodes, a: seq<Subtree>, b: seq<Subtree>)
    requires AreNodes(h, a + b)
    ensures AreNodes(h, a) && AreNodes(h, b) && KidsOf(h, a + b) == KidsOf(h, a) + KidsOf(h, b)
  {
    assert forall i :: 0 <= i < |a| ==> (a + b)[i] == a[i];
    assert forall i :: 0 <= i < |b| ==> (a + b)[|a| + i] == b[i];
  }

  /** A node whose cache is right looks to its parent as a summary of its children. */
  lemma OkIsSummaryKid(lang: Language, h: Nodes, r: Ref)
    requires r in h && h[r].children != [] && LocalOk(lang, h, r)
    ensures KidOf(h, Ptr(r)) == SummaryKid(lang, Base(h[r].info), KidsOf(h, h[r].children))
  {
    assert Outer(h[r].info).firstLeafState == h[r].info.firstLeafState;
  }

  lemma KidsUnchanged(h: Nodes, x: Ref, c: Ref, g: Ref, h': Nodes, ss: seq<Subtree>)
    requires IsRotation(h, x, c, g, h') && AreNodes(h, ss)
    requires forall i :: 0 <= i < |ss| ==> ss[i] != Ptr(c) && ss[i] != Ptr(g)
    ensures AreNodes(h', ss) && KidsOf(h', ss) == KidsOf(h, ss)
  {
    forall i | 0 <= i < |ss|
      ensures ss[i].Ptr? ==> ss[i].ref in h && ss[i].ref in h'
      ensures KidOf(h', ss[i]) == KidOf(h, ss[i])
    {
      KidUnchanged(h, x, c, g, h', ss[i]);
    }
  }

  /** The lists of children around a rotation, none of which holds `c` or `g`. */
  lemma RestsAreOffSpine(h: Nodes, roots: Roots, x: Ref, c: Ref, g: Ref)
    requires CanRotate(h, x, c, g) && Counts(h, roots, {}, multiset{})
    ensures forall i :: 1 <= i < |h[x].children| ==> h[x].children[i] != Ptr(c) && h[x].children[i] != Ptr(g)
    ensures forall i :: 1 <= i < |h[c].children| ==> h[c].children[i] != Ptr(c) && h[c].children[i] != Ptr(g)
    ensures forall i :: 0 <= i < |h[g].children| ==> h[g].children[i] != Ptr(c) && h[g].children[i] != Ptr(g)
  {
    forall r, i: nat | r in h && i < |h[r].children|
      ensures h[r].children[i] == Ptr(c) ==> r == x && i == 0
      ensures h[r].children[i] == Ptr(g) ==> r == c && i == 0
    {
      OffSpine(h, roots, x, c, g, Child(r, i));
    }
  }

  /** A right cache, with the children split in two lists. */
  lemma OkSplit(lang: Language, h: Nodes, r: Ref, a: seq<Subtree>, b: seq<Subtree>)
    requires r in h && LocalOk(lang, h, r) && h[r].children == a + b && a + b != []
    ensures AreNodes(h, a) && AreNodes(h, b)
    ensures KidOf(h, Ptr(r)) == SummaryKid(lang, Base(h[r].info), KidsOf(h, a) + KidsOf(h, b))
    ensures Outer(h[r].info) == Summary(lang, Base(h[r].info), KidsOf(h, a) + KidsOf(h, b))
  {
    KidsOfAppend(h, a, b);
    OkIsSummaryKid(lang, h, r);
  }

  lemma OneKid(h: Nodes, s: Subtree)
    requires s.Ptr? ==> s.ref in h
    ensures AreNodes(h, [s]) && KidsOf(h, [s]) == [KidOf(h, s)]
  {
  }

  /** The children lists of a rotation, before and after. */
  ghost predicate Lists(h: Nodes, h': Nodes, x: Ref, c: Ref, g: Ref, gInit: seq<Subtree>, b: Subtree,
                        cRest: seq<Subtree>, xRest: seq<Subtree>) {
    && x in h && c in h && g in h && x in h' && c in h' && g in h'
    && gInit != [] && cRest != [] && xRest != []
    && h[x].children == [Ptr(c)] + xRest && h'[x].children == [Ptr(g)] + xRest
    && h[c].children == [Ptr(g)] + cRest && h'[c].children == [b] + cRest
    && h[g].children == gInit + [b] && h'[g].children == gInit + [Ptr(c)]
    && (b.Ptr? ==> b.ref in h && b.ref in h')
  }

  lemma XBefore(lang: Language, h: Nodes, h': Nodes, x: Ref, c: Ref, g: Ref, gInit: seq<Subtree>, b: Subtree,
                cRest: seq<Subtree>, xRest: seq<Subtree>)
    requires Lists(h, h', x, c, g, gInit, b, cRest, xRest)
    requires LocalOk(lang, h, x) && LocalOk(lang, h, c) && LocalOk(lang, h, g)
    ensures AreNodes(h, gInit) && AreNodes(h, cRest) && AreNodes(h, xRest)
    ensures var gKid := SummaryKid(lang, Base(h[g].info), KidsOf(h, gInit) + [KidOf(h, b)]);
            var cKid := SummaryKid(lang, Base(h[c].info), [gKid] + KidsOf(h, cRest));
            Outer(h[x].info) == Summary(lang, Base(h[x].info), [cKid] + KidsOf(h, xRest))
  {
    OkSplit(lang, h, g, gInit, [b]);
    OkSplit(lang, h, c, [Ptr(g)], cRest);
    OkSplit(lang, h, x, [Ptr(c)], xRest);
    OneKid(h, b);
    OneKid(h, Ptr(g));
    OneKid(h, Ptr(c));
  }

  lemma XAfter(lang: Language, h: Nodes, h': Nodes, x: Ref, c: Ref, g: Ref, gInit: seq<Subtree>, b: Subtree,
               cRest: seq<Subtree>, xRest: seq<Subtree>)
    requires Lists(h, h', x, c, g, gInit, b, cRest, xRest)
    requires LocalOk(lang, h', c) && LocalOk(lang, h', g) && AreNodes(h', xRest)
    ensures AreNodes(h', gInit) && AreNodes(h', cRest) && AreNodes(h', h'[x].children)
    ensures var cKid := SummaryKid(lang, Base(h'[c].info), [KidOf(h', b)] + KidsOf(h', cRest));
            var gKid := SummaryKid(lang, Base(h'[g].info), KidsOf(h', gInit) + [cKid]);
            KidsOf(h', h'[x].children) == [gKid] + KidsOf(h', xRest)
  {
    OkSplit(lang, h', c, [b], cRest);
    OkSplit(lang, h', g, gInit, [Ptr(c)]);
    OneKid(h', b);
    OneKid(h', Ptr(c));
    OneKid(h', Ptr(g));
    KidsOfAppend(h', [Ptr(g)], xRest);
  }

  /** After a rotation every cache is right again, the one of `x` included. */
  lemma RotationKeepsX(lang: Language, h: Nodes, roots: Roots, x: Ref, c: Ref, g: Ref, h': Nodes)
    requires IsRotation(h, x, c, g, h') && SubtreeMemory.Valid(h, roots)
    requires LocalOk(lang, h, x) && LocalOk(lang, h, c) && LocalOk(lang, h, g)
    requires LocalOk(lang, h', c) && LocalOk(lang, h', g)
    requires IsSpine(lang, Base(h[x].info), Base(h[c].info), Base(h[g].info))
    ensures LocalOk(lang, h', x)
  {
    var last := |h[g].children| - 1;
    var gInit, b, cRest, xRest := h[g].children[..last], h[g].children[last], h[c].children[1..], h[x].children[1..];
    RotationIsLists(h, roots, x, c, g, h');
    RestsUnchanged(h, roots, x, c, g, h');
    XBefore(lang, h, h', x, c, g, gInit, b, cRest, xRest);
    XAfter(lang, h, h', x, c, g, gInit, b, cRest, xRest);
    RotationKeepsSummary(lang, Base(h[x].info), Base(h[c].info), Base(h[g].info),
                         KidsOf(h, gInit), KidOf(h, b), KidsOf(h, cRest), KidsOf(h, xRest));
  }

  lemma RotationIsLists(h: Nodes, roots: Roots, x: Ref, c: Ref, g: Ref, h': Nodes)
    requires IsRotation(h, x, c, g, h') && Closed(h, roots, {})
    ensures Lists(h, h', x, c, g, h[g].children[..|h[g].children| - 1], h[g].children[|h[g].children| - 1],
                  h[c].children[1..], h[x].children[1..])
    ensures h'[x].info == h[x].info && Base(h'[c].info) == Base(h[c].info) && Base(h'[g].info) == Base(h[g].info)
  {
    RotationLists(h, x, c, g);
    assert NodeRotated(h, x, c, g, h', x) && NodeRotated(h, x, c, g, h', c) && NodeRotated(h, x, c, g, h', g);
    var last := |h[g].children| - 1;
    assert NamesNode(h, roots, {}, Child(g, last));
    assert h[g].children[last].Ptr? ==> NodeRotated(h, x, c, g, h', h[g].children[last].ref);
  }

  lemma RestsUnchanged(h: Nodes, roots: Roots, x: Ref, c: Ref, g: Ref, h': Nodes)
    requires IsRotation(h, x, c, g, h') && Closed(h, roots, {}) && Counts(h, roots, {}, multiset{})
    ensures var last := |h[g].children| - 1;
            var gInit, b, cRest, xRest := h[g].children[..last], h[g].children[last], h[c].children[1..],
                h[x].children[1..];
            && AreNodes(h, gInit) && AreNodes(h, cRest) && AreNodes(h, xRest) && (b.Ptr? ==> b.ref in h && b.ref in h')
            && AreNodes(h', gInit) && AreNodes(h', cRest) && AreNodes(h', xRest)
            && KidsOf(h', gInit) == KidsOf(h, gInit) && KidsOf(h', cRest) == KidsOf(h, cRest)
            && KidsOf(h', xRest) == KidsOf(h, xRest) && KidOf(h', b) == KidOf(h, b)
  {
    ClosedWithoutRoots(h, roots);
    RotatedChildrenAreNodes(h, x, c, g);
    RestsAreOffSpine(h, roots, x, c, g);
    var last := |h[g].children| - 1;
    KidsUnchanged(h, x, c, g, h', h[x].children[1..]);
    KidsUnchanged(h, x, c, g, h', h[c].children[1..]);
    KidsUnchanged(h, x, c, g, h', h[g].children[..last]);
    KidUnchanged(h, x, c, g, h', h[g].children[last]);
  }

  lemma RotationKeepsOthers(lang: Language, h: Nodes, roots: Roots, x: Ref, c: Ref, g: Ref, h': Nodes, r: Ref)
    requires IsRotation(h, x, c, g, h') && Counts(h, roots, {}, multiset{}) && Closed(h, roots, {})
    requires LocalOk(lang, h, r) && r != x && r != c && r != g
    ensures LocalOk(lang, h', r)
  {
    assert NodeRotated(h, x, c, g, h', r);
    if r in h {
      RotatedSlots(h, roots, x, c, g, Child(r, 0));
      forall i | 0 <= i < |h[r].children|
        ensures h[r].children[i].Ptr? ==> h[r].children[i].ref in h && h[r].children[i].ref in h'
        ensures KidOf(h', h[r].children[i]) == KidOf(h, h[r].children[i])
      {
        OffSpine(h, roots, x, c, g, Child(r, i));
        assert NamesNode(h, roots, {}, Child(r, i));
        KidUnchanged(h, x, c, g, h', h[r].children[i]);
      }
      LocalOkFrame(lang, h, h', r);
    }
  }

  /** A rotation over right caches keeps every right cache in memory right, wherever it is. */
  lemma RotationKeepsOk(lang: Language, h: Nodes, roots: Roots, x: Ref, c: Ref, g: Ref, h': Nodes, r: Ref)
    requires IsRotation(h, x, c, g, h') && SubtreeMemory.Valid(h, roots)
    requires LocalOk(lang, h, x) && LocalOk(lang, h, c) && LocalOk(lang, h, g)
    requires LocalOk(lang, h', c) && LocalOk(lang, h', g)
    requires IsSpine(lang, Base(h[x].info), Base(h[c].info), Base(h[g].info))
    ensures LocalOk(lang, h, r) ==> LocalOk(lang, h', r)
  {
    if r == x {
      RotationKeepsX(lang, h, roots, x, c, g, h');
    } else if r != c && r != g && LocalOk(lang, h, r) {
      RotationKeepsOthers(lang, h, roots, x, c, g, h', r);
    }
  }

  lemma RotatedInward(h: Nodes, dom: set<Ref>, x: Ref, c: Ref, g: Ref)
    requires CanRotate(h, x, c, g) && Inward(h, dom) && x in dom
    ensures c in dom && g in dom && Inward(Rotated(h, x, c, g), dom)
  {
    assert KidsInside(h, dom, x) && KidsInside(h, dom, c) && KidsInside(h, dom, g);
    forall r
      ensures KidsInside(Rotated(h, x, c, g), dom, r)
    {
      assert KidsInside(h, dom, r);
    }
  }

  // ---- What handles denote ----

  /** The three parents of a rotation are hidden and give their children no aliases. */
  ghost predicate IsHiddenSpine(lang: Language, h: Nodes, x: Ref, c: Ref, g: Ref) {
    && x in h && c in h && g in h
    && IsSpine(lang, Base(h[x].info), Base(h[c].info), Base(h[g].info))
  }

  lemma SameParent(lang: Language, info: Info, ts: seq<Tree>, us: seq<Tree>)
    requires AllSame(lang, ts, us)
    ensures Same(lang, Tree(info, ts), Tree(info, us))
  {
    SameVisible(lang, info.productionId, ts, us, 0);
    SameLeaves(lang, ts, us);
    if ts != [] {
      HiddenLeaves(Tree(info, ts));
      HiddenLeaves(Tree(info, us));
    }
  }

  ghost predicate DenotesAll(h: Nodes, ss: seq<Subtree>, ts: seq<Tree>) {
    |ss| == |ts| && forall i {:trigger Denotes(h, ss[i], ts[i])} :: 0 <= i < |ss| ==> Denotes(h, ss[i], ts[i])
  }

  ghost predicate AvoidsSpine(ss: seq<Subtree>, c: Ref, g: Ref) {
    forall i :: 0 <= i < |ss| ==> ss[i] != Ptr(c) && ss[i] != Ptr(g)
  }

  ghost predicate Rotating(lang: Language, h: Nodes, roots: Roots, x: Ref, c: Ref, g: Ref, h': Nodes) {
    && IsRotation(h, x, c, g, h') && Counts(h, roots, {}, multiset{}) && Closed(h, roots, {})
    && IsHiddenSpine(lang, h, x, c, g)
  }

  lemma DenotesKids(h: Nodes, r: Ref, t: Tree)
    requires Denotes(h, Ptr(r), t)
    ensures r in h && DenotesAll(h, h[r].children, t.kids) && t.info == h[r].info
  {
  }

  lemma DenotesSlice(h: Nodes, ss: seq<Subtree>, ts: seq<Tree>, i: nat, j: nat)
    requires DenotesAll(h, ss, ts) && i <= j <= |ss|
    ensures DenotesAll(h, ss[i..j], ts[i..j])
  {
    forall k | 0 <= k < j - i
      ensures Denotes(h, ss[i..j][k], ts[i..j][k])
    {
      assert Denotes(h, ss[i + k], ts[i + k]);
    }
  }

  lemma DenotesAppend(h: Nodes, ss: seq<Subtree>, ts: seq<Tree>, ss': seq<Subtree>, ts': seq<Tree>)
    requires DenotesAll(h, ss, ts) && DenotesAll(h, ss', ts')
    ensures DenotesAll(h, ss + ss', ts + ts')
  {
    forall k | 0 <= k < |ss + ss'|
      ensures Denotes(h, (ss + ss')[k], (ts + ts')[k])
    {
      if k < |ss| {
        assert Denotes(h, ss[k], ts[k]);
      } else {
        assert Denotes(h, ss'[k - |ss|], ts'[k - |ss|]);
      }
    }
  }

  lemma DenotesNode(h: Nodes, r: Ref, kids: seq<Tree>) returns (t: Tree)
    requires r in h && DenotesAll(h, h[r].children, kids)
    ensures t == Tree(h[r].info, kids) && Denotes(h, Ptr(r), t) && DenotesAll(h, [Ptr(r)], [t])
  {
    t := Tree(h[r].info, kids);
    assert forall i :: 0 <= i < |kids| ==> Denotes(h, h[r].children[i], kids[i]);
  }

  /** A rotation at `x` changes no tree a client can see, except at the lower nodes themselves. */
  lemma {:induction false} RotationKeepsTree(lang: Language, h: Nodes, roots: Roots, x: Ref, c: Ref, g: Ref, h': Nodes,
                                             s: Subtree, t: Tree) returns (t': Tree)
    requires Rotating(lang, h, roots, x, c, g, h')
    requires s != Ptr(c) && s != Ptr(g) && Denotes(h, s, t)
    ensures Denotes(h', s, t') && Same(lang, t, t')
    decreases t
  {
    if s.Inline? {
      t' := t;
      SameParent(lang, t.info, [], []);
    } else if s.ref == x {
      t' := RotationAtX(lang, h, roots, x, c, g, h', t);
    } else {
      var r := s.ref;
      ElsewhereUnchanged(h, roots, x, c, g, h', r);
      DenotesKids(h, r, t);
      var kids := RotationKeepsForest(lang, h, roots, x, c, g, h', h[r].children, t.kids);
      t' := DenotesNode(h', r, kids);
      SameParent(lang, t.info, t.kids, kids);
    }
  }

  lemma ElsewhereUnchanged(h: Nodes, roots: Roots, x: Ref, c: Ref, g: Ref, h': Nodes, r: Ref)
    requires IsRotation(h, x, c, g, h') && Counts(h, roots, {}, multiset{})
    requires r in h && r != x && r != c && r != g
    ensures r in h' && h'[r].children == h[r].children && h'[r].info == h[r].info && AvoidsSpine(h[r].children, c, g)
  {
    assert NodeRotated(h, x, c, g, h', r);
    forall i | 0 <= i < |h[r].children|
      ensures h[r].children[i] != Ptr(c) && h[r].children[i] != Ptr(g)
    {
      OffSpine(h, roots, x, c, g, Child(r, i));
    }
  }

  lemma {:induction false} RotationKeepsForest(lang: Language, h: Nodes, roots: Roots, x: Ref, c: Ref, g: Ref,
                                               h': Nodes, ss: seq<Subtree>, ts: seq<Tree>)
    returns (us: seq<Tree>)
    requires Rotating(lang, h, roots, x, c, g, h')
    requires DenotesAll(h, ss, ts) && AvoidsSpine(ss, c, g)
    ensures AllSame(lang, ts, us) && DenotesAll(h', ss, us)
    decreases ts
  {
    if ts == [] {
      us := [];
    } else {
      assert Denotes(h, ss[0], ts[0]);
      DenotesSlice(h, ss, ts, 1, |ss|);
      var first := RotationKeepsTree(lang, h, roots, x, c, g, h', ss[0], ts[0]);
      var rest := RotationKeepsForest(lang, h, roots, x, c, g, h', ss[1..], ts[1..]);
      us := [first] + rest;
      AllSameOne(lang, ts[0], first);
      AllSameAppend(lang, [ts[0]], [first], ts[1..], rest);
      assert DenotesAll(h', [ss[0]], [first]);
      DenotesAppend(h', [ss[0]], [first], ss[1..], rest);
      assert [ts[0]] + ts[1..] == ts && [ss[0]] + ss[1..] == ss;
    }
  }

  /** The trees around a rotation. */
  lemma SplitAtX(h: Nodes, roots: Roots, x: Ref, c: Ref, g: Ref, h': Nodes, t: Tree, gInit: seq<Subtree>, b: Subtree,
                 cRest: seq<Subtree>, xRest: seq<Subtree>)
    requires Lists(h, h', x, c, g, gInit, b, cRest, xRest) && Denotes(h, Ptr(x), t)
    ensures t.kids != [] && t.kids[0].kids != [] && |t.kids[0].kids[0].kids| == |gInit| + 1
    ensures var tc, tg := t.kids[0], t.kids[0].kids[0];
            && t.info == h[x].info && tc.info == h[c].info && tg.info == h[g].info
            && DenotesAll(h, xRest, t.kids[1..]) && DenotesAll(h, cRest, tc.kids[1..])
            && DenotesAll(h, gInit, tg.kids[..|gInit|]) && DenotesAll(h, [b], [tg.kids[|gInit|]])
            && Denotes(h, b, tg.kids[|gInit|])
  {
    DenotesKids(h, x, t);
    assert Denotes(h, h[x].children[0], t.kids[0]);
    DenotesKids(h, c, t.kids[0]);
    assert Denotes(h, h[c].children[0], t.kids[0].kids[0]);
    var tg := t.kids[0].kids[0];
    DenotesKids(h, g, tg);
    DenotesSlice(h, h[x].children, t.kids, 1, |t.kids|);
    DenotesSlice(h, h[c].children, t.kids[0].kids, 1, |t.kids[0].kids|);
    DenotesSlice(h, h[g].children, tg.kids, 0, |gInit|);
    assert Denotes(h, h[g].children[|gInit|], tg.kids[|gInit|]);
    assert h[x].children[1..] == xRest && h[c].children[1..] == cRest && h[g].children[..|gInit|] == gInit;
  }

  lemma {:induction false} RotationAtX(lang: Language, h: Nodes, roots: Roots, x: Ref, c: Ref, g: Ref, h': Nodes,
                                       t: Tree) returns (t': Tree)
    requires Rotating(lang, h, roots, x, c, g, h') && Denotes(h, Ptr(x), t)
    ensures Denotes(h', Ptr(x), t') && Same(lang, t, t')
    decreases t, 0
  {
    var last := |h[g].children| - 1;
    var gInit, b, cRest, xRest := h[g].children[..last], h[g].children[last], h[c].children[1..], h[x].children[1..];
    RotationIsLists(h, roots, x, c, g, h');
    RestsAreOffSpine(h, roots, x, c, g);
    SplitAtX(h, roots, x, c, g, h', t, gInit, b, cRest, xRest);
    var tc, tg := t.kids[0], t.kids[0].kids[0];
    var uXRest := RotationKeepsForest(lang, h, roots, x, c, g, h', xRest, t.kids[1..]);
    var uCRest := RotationKeepsForest(lang, h, roots, x, c, g, h', cRest, tc.kids[1..]);
    var uGInit := RotationKeepsForest(lang, h, roots, x, c, g, h', gInit, tg.kids[..last]);
    var ub := RotationKeepsTree(lang, h, roots, x, c, g, h', b, tg.kids[last]);
    t' := BuildAtX(lang, h, h', x, c, g, gInit, b, cRest, xRest, t, uGInit, ub, uCRest, uXRest);
  }

  /** Puts the rotated tree together from its pieces. */
  lemma BuildAtX(lang: Language, h: Nodes, h': Nodes, x: Ref, c: Ref, g: Ref, gInit: seq<Subtree>, b: Subtree,
                 cRest: seq<Subtree>, xRest: seq<Subtree>, t: Tree,
                 uGInit: seq<Tree>, ub: Tree, uCRest: seq<Tree>, uXRest: seq<Tree>) returns (t': Tree)
    requires Lists(h, h', x, c, g, gInit, b, cRest, xRest) && Denotes(h, Ptr(x), t) && IsHiddenSpine(lang, h, x, c, g)
    requires h'[x].info == h[x].info && Base(h'[c].info) == Base(h[c].info) && Base(h'[g].info) == Base(h[g].info)
    requires t.kids != [] && t.kids[0].kids != [] && |t.kids[0].kids[0].kids| == |gInit| + 1
    requires t.info == h[x].info && t.kids[0].info == h[c].info && t.kids[0].kids[0].info == h[g].info
    requires |t.kids[0].kids| >= 2
    requires DenotesAll(h', gInit, uGInit) && Denotes(h', b, ub) && DenotesAll(h', cRest, uCRest) &&
             DenotesAll(h', xRest, uXRest)
    requires AllSame(lang, t.kids[1..], uXRest) && AllSame(lang, t.kids[0].kids[1..], uCRest)
    requires AllSame(lang, t.kids[0].kids[0].kids[..|gInit|], uGInit) && Same(lang, t.kids[0].kids[0].kids[|gInit|], ub)
    ensures Denotes(h', Ptr(x), t') && Same(lang, t, t')
  {
    var tc, tg := t.kids[0], t.kids[0].kids[0];
    var last := |gInit|;
    assert DenotesAll(h', [b], [ub]);
    DenotesAppend(h', [b], [ub], cRest, uCRest);
    var newC := DenotesNode(h', c, [ub] + uCRest);
    DenotesAppend(h', gInit, uGInit, [Ptr(c)], [newC]);
    var newG := DenotesNode(h', g, uGInit + [newC]);
    DenotesAppend(h', [Ptr(g)], [newG], xRest, uXRest);
    t' := DenotesNode(h', x, [newG] + uXRest);
    var midC := Tree(h'[c].info, [tg.kids[last]] + tc.kids[1..]);
    var midG := Tree(h'[g].info, tg.kids[..last] + [midC]);
    RotatedTreesSame(lang, h[x].info, t, tc, tg, midC, midG);
    AllSameOne(lang, tg.kids[last], ub);
    AllSameAppend(lang, [tg.kids[last]], [ub], tc.kids[1..], uCRest);
    SameParent(lang, h'[c].info, midC.kids, newC.kids);
    AllSameOne(lang, midC, newC);
    AllSameAppend(lang, tg.kids[..last], uGInit, [midC], [newC]);
    SameParent(lang, h'[g].info, midG.kids, newG.kids);
    AllSameOne(lang, midG, newG);
    AllSameAppend(lang, [midG], [newG], t.kids[1..], uXRest);
    SameParent(lang, h[x].info, [midG] + t.kids[1..], t'.kids);
  }

  lemma RotatedTreesSame(lang: Language, x: Info, t: Tree, tc: Tree, tg: Tree, midC: Tree, midG: Tree)
    requires t.info == x && t.kids != [] && t.kids[0] == tc && tc.kids != [] && tc.kids[0] == tg && |tg.kids| >= 2
    requires |tc.kids| >= 2
    requires midC.kids == [tg.kids[|tg.kids| - 1]] + tc.kids[1..] && midG.kids == tg.kids[..|tg.kids| - 1] + [midC]
    requires IsSpine(lang, Base(x), Base(tc.info), Base(tg.info))
    requires Base(midC.info) == Base(tc.info) && Base(midG.info) == Base(tg.info)
    ensures Same(lang, t, Tree(x, [midG] + t.kids[1..]))
  {
    var rest, u := t.kids[1..], Tree(x, [midG] + t.kids[1..]);
    var last := |tg.kids| - 1;
    assert t.kids == [tc] + rest && tc.kids == [tg] + tc.kids[1..] && tg.kids == tg.kids[..last] + [tg.kids[last]];
    HiddenByBase(lang, tc.info, tc);
    HiddenByBase(lang, tg.info, tg);
    HiddenByBase(lang, tc.info, midC);
    HiddenByBase(lang, tg.info, midG);
    RotationKeepsVisible(lang, tg, midC, tc, midG, tg.kids[..last], tg.kids[last], tc.kids[1..], rest);
    RotationKeepsLeaves(tg, midC, tc, midG, tg.kids[..last], tg.kids[last], tc.kids[1..], rest);
    assert Base(x).productionId == x.productionId;
    AliasFreeIsPlain(lang, x.productionId, t.kids, 0);
    AliasFreeIsPlain(lang, x.productionId, u.kids, 0);
    HiddenLeaves(t);
    HiddenLeaves(u);
  }

  lemma HiddenByBase(lang: Language, info: Info, t: Tree)
    requires IsRepeat(lang, Base(info)) && Base(t.info) == Base(info) && t.kids != []
    ensures IsHidden(lang, t)
  {
    assert Base(t.info).visible == t.info.visible && Base(t.info).productionId == t.info.productionId;
  }

  ghost predicate StillShows(lang: Language, h: Nodes, s: Subtree, t: Tree) {
    exists u :: Denotes(h, s, u) && Same(lang, t, u)
  }

  /** Every handle's tree has stayed the same for its clients. */
  ghost predicate SameTrees(lang: Language, h: Nodes, h': Nodes, roots: Roots) {
    forall k, t {:trigger StillShows(lang, h', roots[k], t)} ::
      k in roots && Denotes(h, roots[k], t) ==> StillShows(lang, h', roots[k], t)
  }

  lemma RotationKeepsTrees(lang: Language, h: Nodes, roots: Roots, x: Ref, c: Ref, g: Ref, h': Nodes)
    requires Rotating(lang, h, roots, x, c, g, h')
    ensures SameTrees(lang, h, h', roots)
  {
    forall k, t | k in roots && Denotes(h, roots[k], t)
      ensures StillShows(lang, h', roots[k], t)
    {
      OffSpine(h, roots, x, c, g, Root(k));
      var u := RotationKeepsTree(lang, h, roots, x, c, g, h', roots[k], t);
    }
  }

  lemma SameTransitive(lang: Language, t: Tree, u: Tree, v: Tree)
    requires Same(lang, t, u) && Same(lang, u, v)
    ensures Same(lang, t, v)
  {
  }

  lemma SameTreesTransitive(lang: Language, h: Nodes, h': Nodes, h'': Nodes, roots: Roots)
    requires SameTrees(lang, h, h', roots) && SameTrees(lang, h', h'', roots)
    ensures SameTrees(lang, h, h'', roots)
  {
    forall k, t | k in roots && Denotes(h, roots[k], t)
      ensures StillShows(lang, h'', roots[k], t)
    {
      assert StillShows(lang, h', roots[k], t);
      var u :| Denotes(h', roots[k], u) && Same(lang, t, u);
      assert StillShows(lang, h'', roots[k], u);
      var v :| Denotes(h'', roots[k], v) && Same(lang, u, v);
      SameTransitive(lang, t, u, v);
    }
  }
}
