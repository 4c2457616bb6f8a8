/** Fragile edges: a flag that only grows. A parent's flags cover those of its first and last child
    and of errors, and compressing a chain keeps it so. For subtree.c:433-437, 458-463. */
module Fragility {
  import opened SyntaxTrees
  import opened Summaries
  import opened SubtreeMemory
  import opened Rotations

  /** The flags each node should have. */
  type FlagMap = map<Ref, FlagSet>

  function FlagsIn(flags: FlagMap, s: Subtree): FlagSet {
    match s
    case Inline(leaf) => Flags(leaf)
    case Ptr(r) => if r in flags then flags[r] else FlagSet(false, false)
  }

  predicate IsError(h: Nodes, s: Subtree) {
    match s
    case Inline(leaf) => leaf.symbol == SYM_ERROR
    case Ptr(r) => r in h && h[r].info.symbol == SYM_ERROR
  }

  predicate HasErrorKid(h: Nodes, ss: seq<Subtree>) {
    exists i :: 0 <= i < |ss| && IsError(h, ss[i])
  }

  /** What a summary makes of a node's flags, given those of its children. */
  function Grown(h: Nodes, flags: FlagMap, own: FlagSet, ss: seq<Subtree>): FlagSet
    requires ss != []
  {
    var error := HasErrorKid(h, ss);
    FlagSet(own.fragileLeft || error || FlagsIn(flags, ss[0]).fragileLeft,
            own.fragileRight || error || FlagsIn(flags, ss[|ss| - 1]).fragileRight)
  }

  lemma {:induction false} ErrorBelowIff(kids: seq<Info>, n: nat)
    requires n <= |kids|
    ensures ErrorBelow(kids, n) <==> exists i :: 0 <= i < n && kids[i].symbol == SYM_ERROR
    decreases n
  {
    if n > 0 {
      ErrorBelowIff(kids, n - 1);
    }
  }

  /** Over right children, a summary is this. */
  lemma GrownIsFlagsAfter(h: Nodes, flags: FlagMap, own: FlagSet, ss: seq<Subtree>)
    requires ss != [] && AreNodes(h, ss)
    requires FlagsIn(flags, ss[0]) == Flags(InfoOf(h, ss[0])) &&
             FlagsIn(flags, ss[|ss| - 1]) == Flags(InfoOf(h, ss[|ss| - 1]))
    ensures Grown(h, flags, own, ss) == FlagsAfter(own, InfosOf(h, ss))
  {
    var infos := InfosOf(h, ss);
    ErrorBelowIff(infos, |infos|);
    assert forall i :: 0 <= i < |ss| ==> (infos[i].symbol == SYM_ERROR <==> IsError(h, ss[i]));
  }

  /** The real flags of `r` against the right ones: equal, unless the node is stale, and then the
      summary still to come will make them right. */
  ghost predicate FlagsAt(h: Nodes, dom: set<Ref>, flags: FlagMap, stale: set<Ref>, r: Ref) {
    r in h && r in dom ==>
      && r in flags
      && (r !in stale || h[r].children == [] ==> Flags(h[r].info) == flags[r])
      && (h[r].children != [] ==> Grown(h, flags, Flags(h[r].info), h[r].children) == flags[r])
  }

  ghost predicate FlagsTracked(h: Nodes, dom: set<Ref>, flags: FlagMap, stale: set<Ref>) {
    forall r {:trigger FlagsAt(h, dom, flags, stale, r)} :: FlagsAt(h, dom, flags, stale, r)
  }

  /** Every node's flags are what its summary would make them. */
  ghost predicate FlagsFixed(h: Nodes, r: Ref) {
    r in h && h[r].children != [] && AreNodes(h, h[r].children) ==>
      FlagsAfter(Flags(h[r].info), InfosOf(h, h[r].children)) == Flags(h[r].info)
  }

  ghost predicate FlagsFixedIn(h: Nodes, dom: set<Ref>) {
    forall r {:trigger FlagsFixed(h, r)} :: r in dom ==> FlagsFixed(h, r)
  }

  function FlagsOfAll(h: Nodes): FlagMap {
    map r | r in h :: Flags(h[r].info)
  }

  lemma FlagsOfAllAgree(h: Nodes, r: Ref)
    requires Closed(h, map[], {}) && r in h && h[r].children != []
    ensures AreNodes(h, h[r].children)
    ensures Grown(h, FlagsOfAll(h), Flags(h[r].info), h[r].children) ==
            FlagsAfter(Flags(h[r].info), InfosOf(h, h[r].children))
  {
    var ss := h[r].children;
    forall i | 0 <= i < |ss|
      ensures ss[i].Ptr? ==> ss[i].ref in h
    {
      assert NamesNode(h, map[], {}, Child(r, i));
    }
    GrownIsFlagsAfter(h, FlagsOfAll(h), Flags(h[r].info), ss);
  }

  lemma FlagsStart(h: Nodes, dom: set<Ref>)
    requires FlagsFixedIn(h, dom) && Closed(h, map[], {})
    ensures FlagsTracked(h, dom, FlagsOfAll(h), {})
  {
    forall r
      ensures FlagsAt(h, dom, FlagsOfAll(h), {}, r)
    {
      if r in h && r in dom && h[r].children != [] {
        assert FlagsFixed(h, r);
        FlagsOfAllAgree(h, r);
      }
    }
  }

  lemma FlagsDone(h: Nodes, dom: set<Ref>, flags: FlagMap)
    requires FlagsTracked(h, dom, flags, {}) && Closed(h, map[], {}) && Inward(h, dom)
    ensures FlagsFixedIn(h, dom)
  {
    forall r | r in dom
      ensures FlagsFixed(h, r)
    {
      if r in h && h[r].children != [] {
        var ss := h[r].children;
        assert FlagsAt(h, dom, flags, {}, r) && KidsInside(h, dom, r);
        assert NamesNode(h, map[], {}, Child(r, 0)) && NamesNode(h, map[], {}, Child(r, |ss| - 1));
        assert ss[0].Ptr? ==> FlagsAt(h, dom, flags, {}, ss[0].ref);
        assert ss[|ss| - 1].Ptr? ==> FlagsAt(h, dom, flags, {}, ss[|ss| - 1].ref);
        FlagsOfAllAgree(h, r);
        GrownIsFlagsAfter(h, flags, Flags(h[r].info), ss);
      }
    }
  }

  // ---- One rotation ----

  /** The right flags after a rotation: the middle node takes in its new first child, and the
      lower one its new last child. */
  function RotatedFlags(h: Nodes, flags: FlagMap, x: Ref, c: Ref, g: Ref): FlagMap
    requires CanRotate(h, x, c, g) && c in flags && g in flags
  {
    var h' := Rotated(h, x, c, g);
    var flags1 := flags[c := Grown(h', flags, flags[c], h'[c].children)];
    flags1[g := Grown(h', flags1, flags[g], h'[g].children)]
  }

  lemma ErrorKidIn(h: Nodes, ss: seq<Subtree>, i: nat)
    requires i < |ss| && IsError(h, ss[i])
    ensures HasErrorKid(h, ss)
  {
  }

  /** Neither lower node is an error, so the upper two gain none. */
  lemma RotationErrors(h: Nodes, x: Ref, c: Ref, g: Ref)
    requires CanRotate(h, x, c, g) && h[x].info.symbol != SYM_ERROR
    ensures var h' := Rotated(h, x, c, g);
            && HasErrorKid(h', h'[x].children) == HasErrorKid(h, h[x].children)
            && (HasErrorKid(h', h'[g].children) ==> HasErrorKid(h, h[g].children))
            && forall s :: IsError(h', s) == IsError(h, s)
  {
    var h' := Rotated(h, x, c, g);
    assert forall r :: r in h <==> r in h';
    assert forall r :: r in h ==> h'[r].info == h[r].info;
    if HasErrorKid(h', h'[x].children) {
      var i :| 0 <= i < |h'[x].children| && IsError(h', h'[x].children[i]);
      ErrorKidIn(h, h[x].children, i);
    }
    if HasErrorKid(h, h[x].children) {
      var i :| 0 <= i < |h[x].children| && IsError(h, h[x].children[i]);
      ErrorKidIn(h', h'[x].children, i);
    }
    if HasErrorKid(h', h'[g].children) {
      var i :| 0 <= i < |h'[g].children| && IsError(h', h'[g].children[i]);
      ErrorKidIn(h, h[g].children, i);
    }
  }

  lemma GrownFrame(h: Nodes, flags: FlagMap, h': Nodes, flags': FlagMap, own: FlagSet, ss: seq<Subtree>)
    requires ss != [] && HasErrorKid(h', ss) == HasErrorKid(h, ss)
    requires FlagsIn(flags', ss[0]) == FlagsIn(flags, ss[0]) &&
             FlagsIn(flags', ss[|ss| - 1]) == FlagsIn(flags, ss[|ss| - 1])
    ensures Grown(h', flags', own, ss) == Grown(h, flags, own, ss)
  {
  }

  lemma SameErrors(h: Nodes, h': Nodes, ss: seq<Subtree>)
    requires forall s :: IsError(h', s) == IsError(h, s)
    ensures HasErrorKid(h', ss) == HasErrorKid(h, ss)
  {
  }

  /** The nodes away from the rotation. */
  lemma ElsewhereTracked(h: Nodes, roots: Roots, dom: set<Ref>, flags: FlagMap, stale: set<Ref>, x: Ref, c: Ref,
                         g: Ref, r: Ref)
    requires FlagsTracked(h, dom, flags, stale) && CanRotate(h, x, c, g) && Counts(h, roots, {}, multiset{})
    requires h[x].info.symbol != SYM_ERROR && c in flags && g in flags && r != x && r != c && r != g
    ensures FlagsAt(Rotated(h, x, c, g), dom, RotatedFlags(h, flags, x, c, g), stale + {c, g}, r)
  {
    assert FlagsAt(h, dom, flags, stale, r);
    var h', flags' := Rotated(h, x, c, g), RotatedFlags(h, flags, x, c, g);
    if r in h && h[r].children != [] {
      var ss := h[r].children;
      OffSpine(h, roots, x, c, g, Child(r, 0));
      OffSpine(h, roots, x, c, g, Child(r, |ss| - 1));
      RotationErrors(h, x, c, g);
      SameErrors(h, h', ss);
      GrownFrame(h, flags, h', flags', Flags(h[r].info), ss);
    }
  }

  /** The upper node: what its first child passes up, the old first child passed up already. */
  lemma UpperTracked(h: Nodes, roots: Roots, dom: set<Ref>, flags: FlagMap, stale: set<Ref>, x: Ref, c: Ref, g: Ref)
    requires FlagsTracked(h, dom, flags, stale) && CanRotate(h, x, c, g) && Counts(h, roots, {}, multiset{})
    requires h[x].info.symbol != SYM_ERROR && c !in stale && g !in stale && c in flags && g in flags
    requires {x, c, g} <= dom && x in flags && h[x].info.fragileLeft == flags[x].fragileLeft
    ensures FlagsAt(Rotated(h, x, c, g), dom, RotatedFlags(h, flags, x, c, g), stale + {c, g}, x)
  {
    assert FlagsAt(h, dom, flags, stale, x) && FlagsAt(h, dom, flags, stale, c) && FlagsAt(h, dom, flags, stale, g);
    var flags' := RotatedFlags(h, flags, x, c, g);
    var last := |h[x].children| - 1;
    OffSpine(h, roots, x, c, g, Child(x, last));
    RotationErrors(h, x, c, g);
    LowerKeepsLeft(h, roots, dom, flags, stale, x, c, g);
    assert flags'[g].fragileLeft ==> flags[c].fragileLeft;
    assert flags[c].fragileLeft ==> flags[x].fragileLeft;
  }

  /** The lower node's left edge stays as it was. */
  lemma LowerKeepsLeft(h: Nodes, roots: Roots, dom: set<Ref>, flags: FlagMap, stale: set<Ref>, x: Ref, c: Ref, g: Ref)
    requires FlagsTracked(h, dom, flags, stale) && CanRotate(h, x, c, g) && Counts(h, roots, {}, multiset{})
    requires h[x].info.symbol != SYM_ERROR && g !in stale && c in flags && g in flags && g in dom
    ensures RotatedFlags(h, flags, x, c, g)[g].fragileLeft == flags[g].fragileLeft == h[g].info.fragileLeft
  {
    assert FlagsAt(h, dom, flags, stale, g);
    RotationErrors(h, x, c, g);
    var h' := Rotated(h, x, c, g);
    assert h'[g].children[0] == h[g].children[0];
    OffSpine(h, roots, x, c, g, Child(g, 0));
  }

  lemma MiddleTracked(h: Nodes, roots: Roots, dom: set<Ref>, flags: FlagMap, stale: set<Ref>, x: Ref, c: Ref, g: Ref)
    requires FlagsTracked(h, dom, flags, stale) && CanRotate(h, x, c, g) && Counts(h, roots, {}, multiset{})
    requires c !in stale && c in flags && g in flags && c in dom
    ensures FlagsAt(Rotated(h, x, c, g), dom, RotatedFlags(h, flags, x, c, g), stale + {c, g}, c)
  {
    assert FlagsAt(h, dom, flags, stale, c);
    var h' := Rotated(h, x, c, g);
    var n, m := |h[c].children| - 1, |h[g].children| - 1;
    OffSpine(h, roots, x, c, g, Child(c, n));
    OffSpine(h, roots, x, c, g, Child(g, m));
    assert h'[c].children[0] == h[g].children[m] && h'[c].children[n] == h[c].children[n];
  }

  lemma LowerTracked(h: Nodes, roots: Roots, dom: set<Ref>, flags: FlagMap, stale: set<Ref>, x: Ref, c: Ref, g: Ref)
    requires FlagsTracked(h, dom, flags, stale) && CanRotate(h, x, c, g) && Counts(h, roots, {}, multiset{})
    requires g !in stale && c in flags && g in flags && g in dom
    ensures FlagsAt(Rotated(h, x, c, g), dom, RotatedFlags(h, flags, x, c, g), stale + {c, g}, g)
  {
    assert FlagsAt(h, dom, flags, stale, g);
    var h' := Rotated(h, x, c, g);
    OffSpine(h, roots, x, c, g, Child(g, 0));
    assert h'[g].children[0] == h[g].children[0] && h'[g].children[|h[g].children| - 1] == Ptr(c);
  }

  lemma RotationTracksFlags(h: Nodes, roots: Roots, dom: set<Ref>, flags: FlagMap, stale: set<Ref>, x: Ref, c: Ref,
                            g: Ref)
    requires FlagsTracked(h, dom, flags, stale) && CanRotate(h, x, c, g) && Counts(h, roots, {}, multiset{}) &&
             Acyclic(h)
    requires h[x].info.symbol != SYM_ERROR && c !in stale && g !in stale
    requires x in dom && Inward(h, dom) && (x in flags ==> h[x].info.fragileLeft == flags[x].fragileLeft)
    ensures x in flags && c in flags && g in flags
    ensures FlagsTracked(Rotated(h, x, c, g), dom, RotatedFlags(h, flags, x, c, g), stale + {c, g})
    ensures RotatedFlags(h, flags, x, c, g)[g].fragileLeft == h[g].info.fragileLeft
    ensures forall r :: r != c && r != g && r in flags ==> RotatedFlags(h, flags, x, c, g)[r] == flags[r]
  {
    RotatedInward(h, dom, x, c, g);
    assert FlagsAt(h, dom, flags, stale, x) && FlagsAt(h, dom, flags, stale, c) && FlagsAt(h, dom, flags, stale, g);
    LowerKeepsLeft(h, roots, dom, flags, stale, x, c, g);
    forall r
      ensures FlagsAt(Rotated(h, x, c, g), dom, RotatedFlags(h, flags, x, c, g), stale + {c, g}, r)
    {
      if r == x {
        UpperTracked(h, roots, dom, flags, stale, x, c, g);
      } else if r == c {
        MiddleTracked(h, roots, dom, flags, stale, x, c, g);
      } else if r == g {
        LowerTracked(h, roots, dom, flags, stale, x, c, g);
      } else {
        ElsewhereTracked(h, roots, dom, flags, stale, x, c, g, r);
      }
    }
  }

  // ---- One summary ----

  /** `h'` is `h` with new flags at `r`, those a summary gives it. */
  ghost predicate FlagsSummarized(h: Nodes, r: Ref, h': Nodes) {
    && r in h && h[r].children != [] && AreNodes(h, h[r].children)
    && h'.Keys == h.Keys && (forall other :: other in h && other != r ==> h'[other] == h[other])
    && h'[r].children == h[r].children && h'[r].info.symbol == h[r].info.symbol
    && Flags(h'[r].info) == FlagsAfter(Flags(h[r].info), InfosOf(h, h[r].children))
  }

  lemma SummaryErrors(h: Nodes, r: Ref, h': Nodes)
    requires FlagsSummarized(h, r, h')
    ensures forall ss :: HasErrorKid(h', ss) == HasErrorKid(h, ss)
  {
    forall ss
      ensures HasErrorKid(h', ss) == HasErrorKid(h, ss)
    {
      assert forall s :: IsError(h', s) == IsError(h, s);
      SameErrors(h, h', ss);
    }
  }

  /** A summary over the first and last child as they are, right or still short of it. */
  lemma SummaryBetween(h: Nodes, dom: set<Ref>, flags: FlagMap, stale: set<Ref>, r: Ref, h': Nodes)
    requires FlagsTracked(h, dom, flags, stale) && FlagsSummarized(h, r, h') && r in flags && r in dom && Inward(h, dom)
    ensures Grown(h, flags, Flags(h'[r].info), h[r].children) == flags[r]
    ensures h[r].info.fragileLeft ==> h'[r].info.fragileLeft
    ensures h'[r].info.fragileLeft ==> flags[r].fragileLeft
    ensures (forall i :: 0 <= i < |h[r].children| && h[r].children[i].Ptr? ==> h[r].children[i].ref !in stale) ==>
              Flags(h'[r].info) == flags[r]
  {
    var ss := h[r].children;
    var n, infos := |ss| - 1, InfosOf(h, ss);
    ErrorBelowIff(infos, |infos|);
    assert forall i :: 0 <= i < |ss| ==> (infos[i].symbol == SYM_ERROR <==> IsError(h, ss[i]));
    assert FlagsAt(h, dom, flags, stale, r) && KidsInside(h, dom, r);
    assert ss[0].Ptr? ==> FlagsAt(h, dom, flags, stale, ss[0].ref);
    assert ss[n].Ptr? ==> FlagsAt(h, dom, flags, stale, ss[n].ref);
  }

  lemma SummaryTracksFlags(h: Nodes, dom: set<Ref>, flags: FlagMap, stale: set<Ref>, r: Ref, h': Nodes,
                           stale': set<Ref>)
    requires FlagsTracked(h, dom, flags, stale) && FlagsSummarized(h, r, h') && r in dom && Inward(h, dom)
    requires || ((forall i :: 0 <= i < |h[r].children| && h[r].children[i].Ptr? ==> h[r].children[i].ref !in stale)
                 && stale' == stale - {r})
             || (r in stale && stale' == stale)
    ensures FlagsTracked(h', dom, flags, stale') && r in flags
    ensures h[r].info.fragileLeft == flags[r].fragileLeft ==> h'[r].info.fragileLeft == flags[r].fragileLeft
  {
    assert FlagsAt(h, dom, flags, stale, r);
    SummaryBetween(h, dom, flags, stale, r, h');
    SummaryErrors(h, r, h');
    forall other
      ensures FlagsAt(h', dom, flags, stale', other)
    {
      assert FlagsAt(h, dom, flags, stale, other);
      if other in h && h[other].children != [] {
        GrownFrame(h, flags, h', flags, Flags(h'[other].info), h[other].children);
      }
    }
  }
}
