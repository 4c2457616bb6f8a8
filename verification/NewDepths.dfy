/** What a compression does to the repeat depths: of the node it starts at, said by a recursion over
    the chain below it, and of that node's parents, which nothing tells. For subtree.c:292-336, 463-474. */
module NewDepths {
  import opened SyntaxTrees
  import opened Summaries
  import opened SubtreeMemory
  import opened Rotations
  import opened Balancing
  import opened Compressions

  /** Every child that is a node is there. */
  ghost predicate Whole(h: Nodes) {
    forall r {:trigger h[r].children} :: r in h ==> AreNodes(h, h[r].children)
  }

  lemma ValidIsWhole(h: Nodes, roots: Roots)
    requires SubtreeMemory.Valid(h, roots)
    ensures Whole(h)
  {
    forall r | r in h
      ensures AreNodes(h, h[r].children)
    {
      ChildrenAreNodes(h, roots, r);
    }
  }

  ghost function LastOf(h: Nodes, r: Ref): Subtree
    requires r in h && h[r].children != []
  {
    h[r].children[|h[r].children| - 1]
  }

  /** The depth of `c` once the last child of `g` has taken the place of `g` below it. */
  ghost function MiddleDepth(h: Nodes, c: Ref, g: Ref): nat
    requires Whole(h) && c in h && g in h && h[c].children != [] && h[g].children != []
  {
    RepeatDepthFrom(h[c].info, InfoOf(h, LastOf(h, g)), InfoOf(h, LastOf(h, c)), |h[c].children|)
  }

  /** The first child of `x` with the depth it will have once up to `count` rotations have been done
      below `x`: that of `g`, which keeps its own first child, or the one that comes up there in
      turn, and gets `c` as its last. */
  ghost function NewFirst(h: Nodes, x: Ref, count: nat, symbol: Symbol): Info
    requires Whole(h) && x in h && h[x].children != []
    decreases count
  {
    if count == 0 || !HasRotation(h, x, symbol) then InfoOf(h, h[x].children[0])
    else
      var c, g := First(h, x), First(h, First(h, x));
      var middle := h[c].info.(repeatDepth := MiddleDepth(h, c, g));
      h[g].info.(repeatDepth :=
        RepeatDepthFrom(h[g].info, NewFirst(h, g, count - 1, symbol), middle, |h[g].children|))
  }

  /** The depth that the node at `x` itself will have. */
  ghost function NewDepth(h: Nodes, x: Ref, count: nat, symbol: Symbol): nat
    requires Whole(h) && x in h
  {
    if count == 0 || !HasRotation(h, x, symbol) then h[x].info.repeatDepth
    else
      RepeatDepthFrom(h[x].info, NewFirst(h, x, count, symbol), InfoOf(h, LastOf(h, x)), |h[x].children|)
  }

  /** What a link passes on: its node `g` with the depth it will have over `first` and `c`. */
  ghost function Upper(h: Nodes, c: Ref, g: Ref, first: Info): Info
    requires Whole(h) && c in h && g in h && h[c].children != [] && h[g].children != []
  {
    var middle := h[c].info.(repeatDepth := MiddleDepth(h, c, g));
    h[g].info.(repeatDepth := RepeatDepthFrom(h[g].info, first, middle, |h[g].children|))
  }

  lemma NewStep(h: Nodes, x: Ref, c: Ref, g: Ref, count: nat, symbol: Symbol)
    requires Whole(h) && Rotatable(h, x, c, g, symbol) && count > 0
    ensures NewFirst(h, x, count, symbol) == Upper(h, c, g, NewFirst(h, g, count - 1, symbol))
    ensures NewDepth(h, x, count, symbol) ==
            RepeatDepthFrom(h[x].info, NewFirst(h, x, count, symbol), InfoOf(h, LastOf(h, x)), |h[x].children|)
  {
    assert HasRotation(h, x, symbol) && First(h, x) == c && First(h, c) == g;
  }

  predicate SameEnd(a: Info, b: Info) {
    a.symbol == b.symbol && a.repeatDepth == b.repeatDepth
  }

  // ---- What the recursion reads ----

  /** Only the first child of `x` and what ranks below. */
  lemma {:induction false} NewFirstFrame(h: Nodes, h': Nodes, rank: map<Ref, nat>, x: Ref, count: nat, symbol: Symbol)
    requires Whole(h) && Whole(h') && Ranked(h, rank) && x in h && x in h'
    requires |h'[x].children| == |h[x].children| > 0 && h'[x].children[0] == h[x].children[0]
    requires h'[x].refCount == h[x].refCount && h'[x].info.symbol == h[x].info.symbol
    requires forall y :: y in h && y in rank && rank[y] < rank[x] ==> y in h' && h'[y] == h[y]
    ensures NewFirst(h', x, count, symbol) == NewFirst(h, x, count, symbol)
    decreases count
  {
    var s := h[x].children[0];
    assert Descends(h, rank, x, 0);
    if s.Ptr? {
      var c := s.ref;
      assert h'[c] == h[c];
      if h[c].children != [] && h[c].children[0].Ptr? {
        var g := h[c].children[0].ref;
        assert AreNodes(h, h[c].children) && Descends(h, rank, c, 0) && h'[g] == h[g];
        assert HasRotation(h', x, symbol) == HasRotation(h, x, symbol);
        if count > 0 && HasRotation(h, x, symbol) {
          NewFirstFrame(h, h', rank, g, count - 1, symbol);
          MiddleFrame(h, h', rank, c, g, x);
        }
      }
    }
  }

  lemma MiddleFrame(h: Nodes, h': Nodes, rank: map<Ref, nat>, c: Ref, g: Ref, x: Ref)
    requires Whole(h) && Whole(h') && Ranked(h, rank) && x in h && c in h && g in h && rank[g] < rank[c] < rank[x]
    requires forall y :: y in h && y in rank && rank[y] < rank[x] ==> y in h' && h'[y] == h[y]
    requires h[c].children != [] && h[g].children != []
    ensures c in h' && g in h' && h'[c] == h[c] && h'[g] == h[g] && MiddleDepth(h', c, g) == MiddleDepth(h, c, g)
  {
    assert h'[c] == h[c] && h'[g] == h[g];
    assert AreNodes(h, h[c].children) && AreNodes(h, h[g].children);
    assert Descends(h, rank, c, |h[c].children| - 1) && Descends(h, rank, g, |h[g].children| - 1);
  }

  /** The rotation itself changes nothing of what the recursion reads below `g`. */
  lemma NewFirstRotated(h: Nodes, roots: Roots, rank: map<Ref, nat>, x: Ref, c: Ref, g: Ref, count: nat, symbol: Symbol)
    requires SubtreeMemory.Valid(h, roots) && Ranked(h, rank) && CanRotate(h, x, c, g) && Whole(h)
    ensures Whole(Rotated(h, x, c, g))
    ensures NewFirst(Rotated(h, x, c, g), g, count, symbol) == NewFirst(h, g, count, symbol)
  {
    var h1 := Rotated(h, x, c, g);
    RotatedValid(h, roots, x, c, g);
    ValidIsWhole(h1, roots);
    RotationLists(h, x, c, g);
    assert Descends(h, rank, x, 0) && Descends(h, rank, c, 0);
    forall y | y in h && y in rank && rank[y] < rank[g]
      ensures y in h1 && h1[y] == h[y]
    {
      RotatedElsewhere(h, x, c, g, y);
    }
    NewFirstFrame(h, h1, rank, g, count, symbol);
  }

  // ---- What is beside the chain ----

  /** A child of a node beside the chain is beside it too. */
  lemma {:induction false} KidUnrotated(h: Nodes, roots: Roots, rank: map<Ref, nat>, x: Ref, count: nat,
                                        symbol: Symbol, y: Ref, p: Ref, i: nat)
    requires SubtreeMemory.Valid(h, roots) && x in h && h[x].info.symbol == symbol && Ranked(h, rank)
    requires p in h && i < |h[p].children| && h[p].children[i] == Ptr(y) && y != x && p != x
    requires p !in RotatedNodes(h, x, count, symbol)
    ensures y !in RotatedNodes(h, x, count, symbol)
    decreases count
  {
    if count > 0 && HasRotation(h, x, symbol) {
      var c, g := First(h, x), First(h, First(h, x));
      RotatableCanRotate(h, roots, x, c, g, symbol);
      if y == c {
        TwoSlots(h, roots, Child(x, 0), Child(p, i), c);
      }
      if y == g {
        TwoSlots(h, roots, Child(c, 0), Child(p, i), g);
      }
      RotatedValid(h, roots, x, c, g);
      RotatedRanked(h, roots, rank, x, c, g);
      RotatedElsewhere(h, x, c, g, p);
      KidUnrotated(Rotated(h, x, c, g), roots, RotatedRank(rank, c, g), g, count - 1, symbol, y, p, i);
    }
  }

  /** A subtree that a compression below the link leaves alone. */
  ghost predicate IsLeft(h: Nodes, h2: Nodes, s: Subtree) {
    s.Ptr? ==> s.ref in h && s.ref in h2 && h2[s.ref] == h[s.ref]
  }

  /** The `i`th child of `p`, one of the nodes of the link, is left alone, if it is not one of them. */
  lemma LeftAlone(f: Summarizer, h: Nodes, roots: Roots, rank: map<Ref, nat>, x: Ref, c: Ref, g: Ref, count: nat,
                  symbol: Symbol, p: Ref, i: nat)
    requires f.Right() && SubtreeMemory.Valid(h, roots) && Ranked(h, rank) && x in h && h[x].info.symbol == symbol
    requires Rotatable(h, x, c, g, symbol) && CanRotate(h, x, c, g)
    requires var h1 := Rotated(h, x, c, g);
             && (p == x || p == c) && i < |h1[p].children| && (p == x ==> i > 0)
             && h1[p].children[i] !in [Ptr(x), Ptr(c), Ptr(g)]
    ensures IsLeft(h, BelowCompressed(f, h, x, c, g, count, symbol), Rotated(h, x, c, g)[p].children[i])
  {
    var h1, rank1 := Rotated(h, x, c, g), RotatedRank(rank, c, g);
    var s := h1[p].children[i];
    RotatedValid(h, roots, x, c, g);
    RotatedRanked(h, roots, rank, x, c, g);
    ChildrenAreNodes(h1, roots, p);
    if s.Ptr? {
      RotationLists(h, x, c, g);
      assert Descends(h1, rank1, x, 0);
      if p == x {
        BesideUnrotated(h1, roots, rank1, g, count, symbol, s.ref, x, i);
      } else {
        BesideUnrotated(h1, roots, rank1, g, count, symbol, c, g, |h1[g].children| - 1);
        KidUnrotated(h1, roots, rank1, g, count, symbol, s.ref, c, i);
      }
      CompressedElsewhere(f, h1, roots, rank1, g, count, symbol, s.ref);
      RotatedElsewhere(h, x, c, g, s.ref);
    }
  }

  // ---- The summaries of a link ----

  /** Three summaries, lowest first, from what they read. */
  lemma LinkNewDepths(f: Summarizer, h2: Nodes, roots: Roots, x: Ref, c: Ref, g: Ref, b: Info, cLast: Info, a: Info,
                      xLast: Info)
    requires f.Right() && IsLink(h2, x, c, g) && SubtreeMemory.Valid(h2, roots)
    requires AreNodes(h2, h2[x].children) && AreNodes(h2, h2[c].children) && AreNodes(h2, h2[g].children)
    requires |h2[x].children| >= 2 && |h2[g].children| >= 2
    requires SameEnd(InfoOf(h2, h2[c].children[0]), b) && SameEnd(InfoOf(h2, LastOf(h2, c)), cLast)
    requires SameEnd(InfoOf(h2, h2[g].children[0]), a) && SameEnd(InfoOf(h2, LastOf(h2, x)), xLast)
    requires LastOf(h2, x) != Ptr(c) && LastOf(h2, x) != Ptr(g) && h2[g].children[0] != Ptr(c)
    ensures var h3 := LinkSummarized(f, h2, x, c, g);
            var cDepth := RepeatDepthFrom(h2[c].info, b, cLast, |h2[c].children|);
            var gDepth := RepeatDepthFrom(h2[g].info, a, h2[c].info.(repeatDepth := cDepth), |h2[g].children|);
            && CanSummarize(h3, x) && g in h3 && h3[x].children == h2[x].children
            && SameEnd(h3[g].info, h2[g].info.(repeatDepth := gDepth))
            && h3[x].info.repeatDepth ==
               RepeatDepthFrom(h2[x].info, h2[g].info.(repeatDepth := gDepth), xLast, |h2[x].children|)
  {
    var cDepth := RepeatDepthFrom(h2[c].info, b, cLast, |h2[c].children|);
    var gDepth := RepeatDepthFrom(h2[g].info, a, h2[c].info.(repeatDepth := cDepth), |h2[g].children|);
    var hc := f.at(h2, c);
    var hg := f.at(hc, g);
    OneNewDepth(f, h2, c, b, cLast);
    ReadsAfter(f, h2, c, g);
    OneNewDepth(f, hc, g, a, h2[c].info.(repeatDepth := cDepth));
    ReadsAfter(f, h2, c, x);
    ReadsAfter(f, hc, g, x);
    OneNewDepth(f, hg, x, h2[g].info.(repeatDepth := gDepth), xLast);
    SummarizerSkips(f, hg, x);
  }

  lemma OneNewDepth(f: Summarizer, h: Nodes, r: Ref, first: Info, last: Info)
    requires f.Right() && CanSummarize(h, r)
    requires SameEnd(InfoOf(h, h[r].children[0]), first) && SameEnd(InfoOf(h, LastOf(h, r)), last)
    ensures var h' := f.at(h, r);
            && r in h' && h'[r].children == h[r].children && Base(h'[r].info) == Base(h[r].info)
            && h'[r].info.symbol == h[r].info.symbol
            && h'[r].info.repeatDepth == RepeatDepthFrom(h[r].info, first, last, |h[r].children|)
  {
    SummarizerIs(f, h, r);
    var infos := InfosOf(h, h[r].children);
    assert infos[0] == InfoOf(h, h[r].children[0]) && infos[|infos| - 1] == InfoOf(h, LastOf(h, r));
    assert Base(f.at(h, r)[r].info).symbol == f.at(h, r)[r].info.symbol && Base(h[r].info).symbol == h[r].info.symbol;
  }

  /** A summary of `r` changes what another node reads at most about `r`. */
  lemma ReadsAfter(f: Summarizer, h: Nodes, r: Ref, y: Ref)
    requires f.Right() && CanSummarize(h, y) && y != r
    ensures var h' := f.at(h, r);
            && CanSummarize(h', y) && h'[y] == h[y]
            && forall i :: 0 <= i < |h[y].children| && h[y].children[i] != Ptr(r) ==>
                 InfoOf(h', h[y].children[i]) == InfoOf(h, h[y].children[i])
  {
    SummarizerSkips(f, h, r);
    SummarizerLinks(f, h, r);
    forall i | 0 <= i < |h[y].children| && h[y].children[i].Ptr?
      ensures h[y].children[i].ref in f.at(h, r)
    {
      assert LinksKept(h, f.at(h, r), h[y].children[i].ref);
    }
  }

  lemma SameBase(a: Info, b: Info)
    requires Base(a) == Base(b)
    ensures a.symbol == b.symbol && a.visible == b.visible && a.named == b.named
  {
    assert Base(a).symbol == a.symbol && Base(a).visible == a.visible && Base(a).named == a.named;
    assert Base(b).symbol == b.symbol && Base(b).visible == b.visible && Base(b).named == b.named;
  }

  ghost predicate BaseKept(h: Nodes, h': Nodes, r: Ref) {
    r in h ==> r in h' && Base(h'[r].info) == Base(h[r].info)
  }

  lemma BaseSummarized(f: Summarizer, h: Nodes, x: Ref, r: Ref)
    requires f.Right()
    ensures BaseKept(h, f.at(h, x), r)
  {
    SummarizerSkips(f, h, x);
    if CanSummarize(h, x) {
      SummarizerIs(f, h, x);
    }
  }

  lemma BaseUnwound(f: Summarizer, h: Nodes, x: Ref, r: Ref)
    requires f.Right()
    ensures BaseKept(h, UnwoundLink(f, h, x), r)
  {
    if FirstIsParent(h, x) {
      var c := First(h, x);
      if h[c].children != [] && LastOf(h, c).Ptr? {
        var g := LastOf(h, c).ref;
        BaseSummarized(f, h, g, r);
        BaseSummarized(f, f.at(h, g), c, r);
        BaseSummarized(f, f.at(f.at(h, g), c), x, r);
      }
    }
  }

  /** What the parser said of a node when it made it stays. */
  lemma {:induction false} BaseCompressed(f: Summarizer, h: Nodes, x: Ref, count: nat, symbol: Symbol, r: Ref)
    requires f.Right()
    ensures BaseKept(h, Compressed(f, h, x, count, symbol), r)
    decreases count
  {
    if count > 0 && HasRotation(h, x, symbol) {
      var c, g := CompressedStep(f, h, x, count, symbol);
      BaseCompressed(f, Rotated(h, x, c, g), g, count - 1, symbol, r);
      BaseUnwound(f, BelowCompressed(f, h, x, c, g, count - 1, symbol), x, r);
    }
  }

  // ---- The depth of the node compressed ----

  ghost predicate NewAfter(h: Nodes, h': Nodes, x: Ref, count: nat, symbol: Symbol)
    requires Whole(h) && x in h && h[x].children != []
  {
    && CanSummarize(h', x) && SameEnd(InfoOf(h', h'[x].children[0]), NewFirst(h, x, count, symbol))
    && h'[x].info.repeatDepth == NewDepth(h, x, count, symbol)
  }

  /** The depths are what the recursion says they will be. */
  ghost predicate NewAt(h: Nodes, h': Nodes, x: Ref, count: nat, symbol: Symbol)
    requires Whole(h) && x in h && h[x].children != []
  {
    exists k: nat :: NewAfter(h, h', x, k, symbol) && k == count
  }

  /** A compression leaves these depths. */
  lemma {:induction false} NewDepthIs(f: Summarizer, h: Nodes, roots: Roots, rank: map<Ref, nat>, x: Ref, count: nat,
                                      symbol: Symbol)
    requires f.Right() && SubtreeMemory.Valid(h, roots) && Whole(h) && Ranked(h, rank)
    requires x in h && h[x].info.symbol == symbol && h[x].children != []
    ensures NewAt(h, Compressed(f, h, x, count, symbol), x, count, symbol)
    decreases count, 0
  {
    if count > 0 && HasRotation(h, x, symbol) {
      var c, g := CompressedStep(f, h, x, count, symbol);
      NewDepthOfLink(f, h, roots, rank, x, c, g, count, symbol);
    } else {
      NothingNew(h, x, count, symbol);
    }
  }

  lemma {:induction false} NewDepthOfLink(f: Summarizer, h: Nodes, roots: Roots, rank: map<Ref, nat>, x: Ref, c: Ref,
                                          g: Ref, count: nat, symbol: Symbol)
    requires f.Right() && SubtreeMemory.Valid(h, roots) && Whole(h) && Ranked(h, rank) && count > 0
    requires x in h && h[x].info.symbol == symbol && Rotatable(h, x, c, g, symbol)
    ensures NewAt(h, UnwoundLink(f, BelowCompressed(f, h, x, c, g, count - 1, symbol), x), x, count, symbol)
    decreases count - 1, 2
  {
    RotatableCanRotate(h, roots, x, c, g, symbol);
    NewDepthBelow(f, h, roots, rank, x, c, g, count - 1, symbol);
    NewDepthAbove(f, h, roots, rank, x, c, g, count, symbol,
                  UnwoundLink(f, BelowCompressed(f, h, x, c, g, count - 1, symbol), x));
  }

  lemma {:induction false} NewDepthBelow(f: Summarizer, h: Nodes, roots: Roots, rank: map<Ref, nat>, x: Ref, c: Ref,
                                         g: Ref, count: nat, symbol: Symbol)
    requires f.Right() && SubtreeMemory.Valid(h, roots) && Ranked(h, rank)
    requires x in h && h[x].info.symbol == symbol && Rotatable(h, x, c, g, symbol) && CanRotate(h, x, c, g)
    ensures Whole(Rotated(h, x, c, g))
    ensures NewAt(Rotated(h, x, c, g), BelowCompressed(f, h, x, c, g, count, symbol), g, count, symbol)
    decreases count, 1
  {
    RotatedValid(h, roots, x, c, g);
    ValidIsWhole(Rotated(h, x, c, g), roots);
    RotatedRanked(h, roots, rank, x, c, g);
    RotationLists(h, x, c, g);
    NewDepthIs(f, Rotated(h, x, c, g), roots, RotatedRank(rank, c, g), g, count, symbol);
  }

  lemma NothingNew(h: Nodes, x: Ref, count: nat, symbol: Symbol)
    requires Whole(h) && x in h && h[x].children != [] && (count == 0 || !HasRotation(h, x, symbol))
    ensures NewAt(h, h, x, count, symbol)
  {
    assert AreNodes(h, h[x].children);
    assert NewAfter(h, h, x, count, symbol);
  }

  ghost predicate StepIs(h: Nodes, h3: Nodes, x: Ref, g: Ref, upper: Info)
    requires x in h && h[x].children != [] && AreNodes(h, h[x].children)
  {
    && CanSummarize(h3, x) && h3[x].children[0] == Ptr(g) && SameEnd(InfoOf(h3, Ptr(g)), upper)
    && h3[x].info.repeatDepth == RepeatDepthFrom(h[x].info, upper, InfoOf(h, LastOf(h, x)), |h[x].children|)
  }

  ghost predicate ReadsAs(h: Nodes, h2: Nodes, roots: Roots, x: Ref, c: Ref, g: Ref, first: Info) {
    && x in h && c in h && g in h && LinkReady(h, h2, roots, x, c, g)
    && AreNodes(h2, h2[x].children) && AreNodes(h2, h2[c].children) && AreNodes(h2, h2[g].children)
    && h2[x].info == h[x].info && h2[c].info == h[c].info && Base(h2[g].info) == Base(h[g].info)
    && |h2[x].children| == |h[x].children| >= 2 && |h2[c].children| == |h[c].children| >= 2
    && |h2[g].children| == |h[g].children| >= 2
    && AreNodes(h, h[x].children) && AreNodes(h, h[c].children) && AreNodes(h, h[g].children)
    && SameEnd(InfoOf(h2, h2[g].children[0]), first) && h2[g].children[0] != Ptr(c)
    && InfoOf(h2, h2[c].children[0]) == InfoOf(h, LastOf(h, g))
    && InfoOf(h2, LastOf(h2, c)) == InfoOf(h, LastOf(h, c))
    && InfoOf(h2, LastOf(h2, x)) == InfoOf(h, LastOf(h, x))
    && LastOf(h2, x) != Ptr(c) && LastOf(h2, x) != Ptr(g)
  }

  /** In `h2` everything below the link has been compressed; this is what its summaries read. */
  ghost predicate Reads(h: Nodes, h2: Nodes, roots: Roots, x: Ref, c: Ref, g: Ref, first: Info) {
    exists a :: ReadsAs(h, h2, roots, x, c, g, a) && a == first
  }

  /** What the summaries of the link do to the depths. */
  lemma NewDepthStep(f: Summarizer, h: Nodes, h2: Nodes, roots: Roots, x: Ref, c: Ref, g: Ref, first: Info)
    requires f.Right() && Whole(h) && Reads(h, h2, roots, x, c, g, first)
    ensures x in h && c in h && g in h && h[x].children != [] && h[c].children != [] && h[g].children != []
    ensures StepIs(h, UnwoundLink(f, h2, x), x, g, Upper(h, c, g, first))
  {
    ReadyIsLink(h, h2, roots, x, c, g);
    LinkIsUnwound(f, h2, x, c, g);
    LinkNewDepths(f, h2, roots, x, c, g, InfoOf(h, LastOf(h, g)), InfoOf(h, LastOf(h, c)), first,
                  InfoOf(h, LastOf(h, x)));
    SameUpper(h[g].info, h2[g].info, first, h[c].info.(repeatDepth := MiddleDepth(h, c, g)), |h[g].children|);
  }

  /** What is under `g` when the link is summarized. */
  lemma LinkReadsFirst(f: Summarizer, h: Nodes, roots: Roots, rank: map<Ref, nat>, x: Ref, c: Ref, g: Ref, count: nat,
                       symbol: Symbol)
    requires SubtreeMemory.Valid(h, roots) && Whole(h) && Ranked(h, rank) && f.Right()
    requires x in h && h[x].info.symbol == symbol && Rotatable(h, x, c, g, symbol) && CanRotate(h, x, c, g)
    requires Whole(Rotated(h, x, c, g))
    requires NewAt(Rotated(h, x, c, g), BelowCompressed(f, h, x, c, g, count, symbol), g, count, symbol)
    ensures var h2 := BelowCompressed(f, h, x, c, g, count, symbol);
            && CanSummarize(h2, g) && SameEnd(InfoOf(h2, h2[g].children[0]), NewFirst(h, g, count, symbol))
            && Base(h2[g].info) == Base(h[g].info)
  {
    NewFirstRotated(h, roots, rank, x, c, g, count, symbol);
    BaseCompressed(f, Rotated(h, x, c, g), g, count, symbol, g);
    RotationLists(h, x, c, g);
  }

  lemma LinkReads(f: Summarizer, h: Nodes, roots: Roots, rank: map<Ref, nat>, x: Ref, c: Ref, g: Ref, count: nat,
                  symbol: Symbol)
    requires f.Right() && SubtreeMemory.Valid(h, roots) && Whole(h) && Ranked(h, rank)
    requires x in h && h[x].info.symbol == symbol && Rotatable(h, x, c, g, symbol) && CanRotate(h, x, c, g)
    requires Whole(Rotated(h, x, c, g))
    requires NewAt(Rotated(h, x, c, g), BelowCompressed(f, h, x, c, g, count, symbol), g, count, symbol)
    ensures Reads(h, BelowCompressed(f, h, x, c, g, count, symbol), roots, x, c, g, NewFirst(h, g, count, symbol))
  {
    LinkFound(f, h, roots, rank, x, c, g, count, symbol);
    LinkReadsFirst(f, h, roots, rank, x, c, g, count, symbol);
    LinkReadsKids(f, h, roots, x, c, g, count, symbol);
    LinkReadsEnds(f, h, roots, rank, x, c, g, count, symbol);
    assert AreNodes(h, h[x].children) && AreNodes(h, h[c].children) && AreNodes(h, h[g].children);
    assert ReadsAs(h, BelowCompressed(f, h, x, c, g, count, symbol), roots, x, c, g, NewFirst(h, g, count, symbol));
  }

  lemma NewDepthAbove(f: Summarizer, h: Nodes, roots: Roots, rank: map<Ref, nat>, x: Ref, c: Ref, g: Ref, count: nat,
                      symbol: Symbol, h3: Nodes)
    requires f.Right() && SubtreeMemory.Valid(h, roots) && Whole(h) && Ranked(h, rank) && count > 0
    requires x in h && h[x].info.symbol == symbol && Rotatable(h, x, c, g, symbol) && CanRotate(h, x, c, g)
    requires Whole(Rotated(h, x, c, g))
    requires NewAt(Rotated(h, x, c, g), BelowCompressed(f, h, x, c, g, count - 1, symbol), g, count - 1, symbol)
    requires h3 == UnwoundLink(f, BelowCompressed(f, h, x, c, g, count - 1, symbol), x)
    ensures NewAt(h, h3, x, count, symbol)
  {
    LinkReads(f, h, roots, rank, x, c, g, count - 1, symbol);
    NewDepthStep(f, h, BelowCompressed(f, h, x, c, g, count - 1, symbol), roots, x, c, g,
                 NewFirst(h, g, count - 1, symbol));
    StepIsNew(h, h3, x, c, g, count, symbol);
  }

  lemma StepIsNew(h: Nodes, h3: Nodes, x: Ref, c: Ref, g: Ref, count: nat, symbol: Symbol)
    requires Whole(h) && Rotatable(h, x, c, g, symbol) && count > 0 && AreNodes(h, h[x].children)
    requires StepIs(h, h3, x, g, Upper(h, c, g, NewFirst(h, g, count - 1, symbol)))
    ensures NewAt(h, h3, x, count, symbol)
  {
    NewStep(h, x, c, g, count, symbol);
    assert NewAfter(h, h3, x, count, symbol);
  }

  lemma SameUpper(a: Info, b: Info, first: Info, last: Info, count: nat)
    requires Base(a) == Base(b)
    ensures a.symbol == b.symbol && RepeatDepthFrom(a, first, last, count) == RepeatDepthFrom(b, first, last, count)
  {
    SameBase(a, b);
  }

  /** The children of the link's nodes when they are summarized. */
  lemma LinkReadsKids(f: Summarizer, h: Nodes, roots: Roots, x: Ref, c: Ref, g: Ref, count: nat, symbol: Symbol)
    requires x in h && h[x].info.symbol == symbol && Rotatable(h, x, c, g, symbol) && CanRotate(h, x, c, g)
    requires LinkReady(h, BelowCompressed(f, h, x, c, g, count, symbol), roots, x, c, g)
    ensures var h2 := BelowCompressed(f, h, x, c, g, count, symbol);
            && AreNodes(h2, h2[x].children) && AreNodes(h2, h2[c].children) && AreNodes(h2, h2[g].children)
            && h2[x].info == h[x].info && h2[c].info == h[c].info && |h2[x].children| == |h[x].children|
            && |h2[c].children| == |h[c].children| && |h2[g].children| == |h[g].children|
            && h2[g].children[0] != Ptr(c)
  {
    var h2 := BelowCompressed(f, h, x, c, g, count, symbol);
    ChildrenAreNodes(h2, roots, x);
    ChildrenAreNodes(h2, roots, c);
    ChildrenAreNodes(h2, roots, g);
    RotationLists(h, x, c, g);
    if h2[g].children[0] == Ptr(c) {
      TwoSlots(h2, roots, Child(g, 0), Child(g, |h2[g].children| - 1), c);
    }
  }

  /** The ends they read are what they were at first. */
  lemma LinkReadsEnds(f: Summarizer, h: Nodes, roots: Roots, rank: map<Ref, nat>, x: Ref, c: Ref, g: Ref, count: nat,
                      symbol: Symbol)
    requires f.Right() && SubtreeMemory.Valid(h, roots) && Whole(h) && Ranked(h, rank)
    requires x in h && h[x].info.symbol == symbol && Rotatable(h, x, c, g, symbol) && CanRotate(h, x, c, g)
    requires LinkReady(h, BelowCompressed(f, h, x, c, g, count, symbol), roots, x, c, g)
    requires var h2 := BelowCompressed(f, h, x, c, g, count, symbol);
             AreNodes(h2, h2[x].children) && AreNodes(h2, h2[c].children)
    ensures var h2 := BelowCompressed(f, h, x, c, g, count, symbol);
            && h2[c].children != [] && h2[x].children != []
            && InfoOf(h2, h2[c].children[0]) == InfoOf(h, LastOf(h, g))
            && InfoOf(h2, LastOf(h2, c)) == InfoOf(h, LastOf(h, c))
            && InfoOf(h2, LastOf(h2, x)) == InfoOf(h, LastOf(h, x))
            && LastOf(h2, x) != Ptr(c) && LastOf(h2, x) != Ptr(g)
  {
    RotationLists(h, x, c, g);
    LinkApart(h, roots, rank, x, c, g);
    LeftAlone(f, h, roots, rank, x, c, g, count, symbol, c, 0);
    LeftAlone(f, h, roots, rank, x, c, g, count, symbol, c, |h[c].children| - 1);
    LeftAlone(f, h, roots, rank, x, c, g, count, symbol, x, |h[x].children| - 1);
    assert AreNodes(h, h[x].children) && AreNodes(h, h[c].children) && AreNodes(h, h[g].children);
  }

  /** The other ends are none of the three. */
  lemma LinkApart(h: Nodes, roots: Roots, rank: map<Ref, nat>, x: Ref, c: Ref, g: Ref)
    requires SubtreeMemory.Valid(h, roots) && Ranked(h, rank) && CanRotate(h, x, c, g)
    ensures forall s :: s in [LastOf(h, g), LastOf(h, c), LastOf(h, x)] ==> s !in [Ptr(x), Ptr(c), Ptr(g)]
  {
    assert Descends(h, rank, x, 0) && Descends(h, rank, c, 0);
    assert Descends(h, rank, x, |h[x].children| - 1) && Descends(h, rank, c, |h[c].children| - 1);
    assert Descends(h, rank, g, |h[g].children| - 1);
    if LastOf(h, c) == Ptr(g) {
      TwoSlots(h, roots, Child(c, 0), Child(c, |h[c].children| - 1), g);
    }
    if LastOf(h, x) == Ptr(c) {
      TwoSlots(h, roots, Child(x, 0), Child(x, |h[x].children| - 1), c);
    }
    if LastOf(h, x) == Ptr(g) {
      TwoSlots(h, roots, Child(c, 0), Child(x, |h[x].children| - 1), g);
    }
  }

  // ---- The depth of its parents ----

  /** Does the node at `p` count the depth of a repetition at all? */
  ghost predicate Repeats(h: Nodes, p: Ref)
    requires CanSummarize(h, p)
  {
    var info := h[p].info;
    && |h[p].children| >= 2 && !info.visible && !info.named
    && InfoOf(h, h[p].children[0]).symbol == info.symbol
  }

  /** The deeper of the first and the last child. */
  ghost function EndDepth(h: Nodes, p: Ref): nat
    requires CanSummarize(h, p)
  {
    var infos := InfosOf(h, h[p].children);
    var first, last := infos[0].repeatDepth, infos[|infos| - 1].repeatDepth;
    if first > last then first else last
  }

  /** The children of a parent of `x` are what they were, all but `x` itself. */
  lemma SiblingsKept(f: Summarizer, h: Nodes, roots: Roots, rank: map<Ref, nat>, x: Ref, count: nat, symbol: Symbol,
                     p: Ref, j: nat)
    requires f.Right()
    requires SubtreeMemory.Valid(h, roots) && Ranked(h, rank) && x in h && h[x].info.symbol == symbol
    requires IsChild(h, p, x) && j < |h[p].children| && h[p].children[j] != Ptr(x)
    ensures var s, h' := h[p].children[j], Compressed(f, h, x, count, symbol);
            s.Ptr? ==> s.ref in h && s.ref in h' && h'[s.ref] == h[s.ref]
  {
    var i :| 0 <= i < |h[p].children| && h[p].children[i] == Ptr(x);
    var s := h[p].children[j];
    assert Descends(h, rank, p, i) && NamesNode(h, roots, {}, Child(p, j));
    if s.Ptr? {
      BesideUnrotated(h, roots, rank, x, count, symbol, s.ref, p, j);
      CompressedElsewhere(f, h, roots, rank, x, count, symbol, s.ref);
    }
  }

  lemma ParentKept(f: Summarizer, h: Nodes, roots: Roots, rank: map<Ref, nat>, x: Ref, count: nat, symbol: Symbol,
                   p: Ref)
    requires f.Right()
    requires SubtreeMemory.Valid(h, roots) && Ranked(h, rank) && x in h && h[x].info.symbol == symbol
    requires IsChild(h, p, x)
    ensures var h' := Compressed(f, h, x, count, symbol);
            && p in h' && h'[p] == h[p] && x in h' && h'[x].info.symbol == symbol
            && CanSummarize(h, p) && CanSummarize(h', p)
  {
    var h' := Compressed(f, h, x, count, symbol);
    var i :| 0 <= i < |h[p].children| && h[p].children[i] == Ptr(x);
    assert Descends(h, rank, p, i);
    AboveUnrotated(h, roots, rank, x, count, symbol, p);
    CompressedElsewhere(f, h, roots, rank, x, count, symbol, p);
    FirstNodeKeepsRest(f, h, roots, rank, x, count, symbol);
    CompressedLinks(f, h, roots, x, count, symbol);
    ChildrenAreNodes(h, roots, p);
    ChildrenAreNodes(h', roots, p);
  }

  ghost function Deeper(a: nat, b: nat): nat {
    if a > b then a else b
  }

  /** What the deeper of the ends of `p` comes to if `x` gets this depth. */
  ghost function EndDepthWith(h: Nodes, p: Ref, x: Ref, depth: nat): nat
    requires CanSummarize(h, p)
  {
    var first, last := h[p].children[0], h[p].children[|h[p].children| - 1];
    Deeper(if first == Ptr(x) then depth else InfoOf(h, first).repeatDepth,
           if last == Ptr(x) then depth else InfoOf(h, last).repeatDepth)
  }

  lemma DepthIff(h: Nodes, h': Nodes, x: Ref, p: Ref)
    requires CanSummarize(h, p) && CanSummarize(h', p) && h'[p] == h[p] && DepthOk(h, p)
    requires x in h && x in h' && h'[x].info.symbol == h[x].info.symbol
    requires var s := h[p].children[0]; s != Ptr(x) ==> InfoOf(h', s) == InfoOf(h, s)
    requires var s := h[p].children[|h[p].children| - 1]; s != Ptr(x) ==> InfoOf(h', s) == InfoOf(h, s)
    ensures DepthOk(h', p) <==>
              || (h[p].children[0] != Ptr(x) && h[p].children[|h[p].children| - 1] != Ptr(x))
              || !Repeats(h, p)
              || EndDepthWith(h, p, x, h'[x].info.repeatDepth) == EndDepth(h, p)
  {
    var ss := h[p].children;
    var infos, infos', last := InfosOf(h, ss), InfosOf(h', ss), |ss| - 1;
    assert infos[0] == InfoOf(h, ss[0]) && infos'[0] == InfoOf(h', ss[0]);
    assert infos[last] == InfoOf(h, ss[last]) && infos'[last] == InfoOf(h', ss[last]);
  }

  /** A parent of `x` keeps its depth, right before. It is right afterwards exactly if `x` is neither
      its first nor its last child, or it does not count the depth of the repetition, or the depth
      that `x` will have leaves the deeper of its two ends as deep as it is: all can be told before. */
  lemma ParentDepthIff(f: Summarizer, h: Nodes, roots: Roots, rank: map<Ref, nat>, x: Ref, count: nat, symbol: Symbol,
                       p: Ref)
    requires f.Right() && SubtreeMemory.Valid(h, roots) && Ranked(h, rank)
    requires x in h && h[x].info.symbol == symbol && IsChild(h, p, x) && DepthOk(h, p)
    ensures Whole(h)
    ensures var h' := Compressed(f, h, x, count, symbol);
            && CanSummarize(h, p) && CanSummarize(h', p) && h'[p] == h[p]
            && (DepthOk(h', p) <==>
                  || (h[p].children[0] != Ptr(x) && h[p].children[|h[p].children| - 1] != Ptr(x))
                  || !Repeats(h, p)
                  || EndDepthWith(h, p, x, NewDepth(h, x, count, symbol)) == EndDepth(h, p))
  {
    var last := |h[p].children| - 1;
    ParentKept(f, h, roots, rank, x, count, symbol, p);
    if h[p].children[0] != Ptr(x) {
      SiblingsKept(f, h, roots, rank, x, count, symbol, p, 0);
    }
    if h[p].children[last] != Ptr(x) {
      SiblingsKept(f, h, roots, rank, x, count, symbol, p, last);
    }
    ValidIsWhole(h, roots);
    if h[x].children != [] {
      NewDepthIs(f, h, roots, rank, x, count, symbol);
    }
    DepthIff(h, Compressed(f, h, x, count, symbol), x, p);
  }
}
