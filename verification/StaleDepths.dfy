/** A tree that balancing leaves with a stale repeat depth. The repetition on top, below the root, is
    visited first and has nothing to balance; when its last child is compressed, nothing tells it.
    For subtree.c:463-474, parser.c:1905-1928. */
module StaleDepths {
  import opened SyntaxTrees
  import opened Summaries
  import opened SubtreeMemory
  import opened Rotations
  import opened Fragility
  import opened Balancing
  import opened Compressions
  import opened TreeStore

  const REPEAT: Symbol := 2
  const ROOT: Symbol := 3

  /** A token of one byte. */
  const LEAF := Inline(PlainInfo(true, 1, 1))

  /** The visible root, or a hidden repetition. */
  function InfoAt(r: Ref): Info {
    if r == 0 then PlainInfo(false, ROOT, 0).(visible := true, named := true) else PlainInfo(false, REPEAT, 0)
  }

  /** The root 0 over node 1; that over 2 and 3; below 3 the chain of 4, 5 and 6. */
  function ChildrenAt(r: Ref): seq<Subtree> {
    if r == 1 then [Ptr(2), Ptr(3)]
    else if r == 2 || r == 6 then [LEAF, LEAF]
    else [Ptr(r + 1), LEAF]
  }

  const BARE: Nodes := map r: Ref | 0 <= r < 7 :: HeapData(1, InfoAt(r), ChildrenAt(r))
  const ROOTS: Roots := map[0 := Ptr(0)]

  /** The one slot that holds each node. */
  function OwnerOf(r: Ref): Slot {
    if r == 0 then Root(0) else if r == 3 then Child(1, 1) else Child(r - 1, 0)
  }

  function Height(r: Ref): nat {
    if r < 7 then 7 - r else 0
  }

  lemma BareOwners(r: Ref)
    requires r < 7
    ensures Owners(BARE, ROOTS, {}, r) == {OwnerOf(r)}
  {
    forall slot
      ensures HasSlot(BARE, ROOTS, slot) && At(BARE, ROOTS, slot) == Ptr(r) <==> slot == OwnerOf(r)
    {
    }
  }

  lemma BareIsValid()
    ensures SubtreeMemory.Valid(BARE, ROOTS)
  {
    forall slot
      ensures NamesNode(BARE, ROOTS, {}, slot) && LeafFits(BARE, ROOTS, slot)
    {
    }
    forall r: Ref
      ensures IsExact(BARE, ROOTS, {}, multiset{}, r)
    {
      if r in BARE {
        BareOwners(r);
      }
    }
    var rank: map<Ref, nat> := map r: Ref | 0 <= r < 7 :: Height(r);
    forall p, i: nat
      ensures Descends(BARE, rank, p, i)
    {
    }
    assert Ranked(BARE, rank);
  }

  /** Memory with these links, whatever it caches. */
  ghost predicate Shaped(h: Nodes) {
    && (forall r: Ref :: r in h <==> r < 7)
    && forall r: Ref :: r in h ==>
         h[r].children == ChildrenAt(r) && h[r].refCount == 1 && Base(h[r].info) == Base(InfoAt(r))
  }

  /** What of that shape the walk sees. */
  ghost predicate Linked(h: Nodes) {
    (forall r: Ref :: r in h <==> r < 7) && forall r: Ref {:trigger LinkedAt(h, r)} :: r < 7 ==> LinkedAt(h, r)
  }

  ghost predicate LinkedAt(h: Nodes, r: Ref) {
    && r in h && h[r].children == ChildrenAt(r) && h[r].refCount == 1
    && h[r].info.symbol == (if r == 0 then ROOT else REPEAT) && h[r].info.visible == h[r].info.named == (r == 0)
  }

  lemma ShapedIsLinked(h: Nodes)
    requires Shaped(h)
    ensures Linked(h)
  {
    forall r: Ref | r < 7
      ensures LinkedAt(h, r)
    {
      var info := h[r].info;
      assert Base(info).symbol == info.symbol && Base(info).visible == info.visible && Base(info).named == info.named;
    }
  }

  lemma BareIsShaped()
    ensures Shaped(BARE)
  {
    forall r: Ref
      ensures r in BARE <==> r < 7
      ensures r in BARE ==> BARE[r] == HeapData(1, InfoAt(r), ChildrenAt(r))
    {
    }
  }

  /** Nothing that a summary computes is wrong at `r`. */
  ghost predicate RightAt(lang: Language, h: Nodes, r: Ref) {
    LocalOk(lang, h, r) && FlagsFixed(h, r) && DepthOk(h, r)
  }

  ghost predicate RightFrom(lang: Language, h: Nodes, k: nat) {
    forall r: Ref {:trigger RightAt(lang, h, r)} :: k <= r < 7 ==> RightAt(lang, h, r)
  }

  // ---- Right caches, node by node ----

  lemma ShapedCanSummarize(h: Nodes, r: Ref)
    requires Shaped(h) && r < 7
    ensures CanSummarize(h, r) && !IsChild(h, r, r)
  {
  }

  lemma SummarizedShape(f: Summarizer, h: Nodes, r: Ref)
    requires f.Right() && Shaped(h) && r < 7
    ensures Shaped(f.at(h, r))
  {
    ShapedCanSummarize(h, r);
    SummarizerIs(f, h, r);
  }

  /** A node sees the same children before and after its own summary, or another's that is not
      among them. */
  lemma ChildrenKept(f: Summarizer, h: Nodes, r: Ref, y: Ref)
    requires f.Right() && Shaped(h) && r < 7 && y < 7 && !IsChild(h, y, r)
    ensures var h', ss := f.at(h, r), h[y].children;
            && AreNodes(h, ss) && AreNodes(h', ss) && KidsOf(h', ss) == KidsOf(h, ss)
            && InfosOf(h', ss) == InfosOf(h, ss)
  {
    SummarizerSkips(f, h, r);
    var h', ss := f.at(h, r), h[y].children;
    forall i | 0 <= i < |ss|
      ensures ss[i].Ptr? ==> ss[i].ref in h && ss[i].ref in h' && h'[ss[i].ref] == h[ss[i].ref]
    {
      assert ss[i] != Ptr(r);
    }
  }

  lemma SummarizedIsRight(f: Summarizer, h: Nodes, r: Ref)
    requires f.Right() && Shaped(h) && r < 7
    ensures RightAt(f.lang, f.at(h, r), r)
  {
    ShapedCanSummarize(h, r);
    ChildrenKept(f, h, r, r);
    SummarizerIs(f, h, r);
    SummaryIsRight(f.lang, h, r, f.at(h, r));
  }

  lemma SummaryIsRight(lang: Language, h: Nodes, r: Ref, h': Nodes)
    requires Summarized(lang, h, r, h') && AreNodes(h', h[r].children)
    requires h'[r].info.repeatDepth == RepeatDepthOf(h[r].info, InfosOf(h, h[r].children))
    requires KidsOf(h', h[r].children) == KidsOf(h, h[r].children)
    requires InfosOf(h', h[r].children) == InfosOf(h, h[r].children)
    ensures RightAt(lang, h', r)
  {
    assert Base(h'[r].info).symbol == h'[r].info.symbol && Base(h[r].info).symbol == h[r].info.symbol;
    assert Base(h'[r].info).visible == h'[r].info.visible && Base(h[r].info).visible == h[r].info.visible;
    assert Base(h'[r].info).named == h'[r].info.named && Base(h[r].info).named == h[r].info.named;
  }

  lemma NotBelow(h: Nodes, r: Ref, y: Ref)
    requires Shaped(h) && r < y < 7
    ensures !IsChild(h, y, r)
  {
    assert h[y].children == ChildrenAt(y);
  }

  lemma SummarizedKeepsRight(f: Summarizer, h: Nodes, r: Ref, y: Ref)
    requires f.Right() && Shaped(h) && r < y < 7 && RightAt(f.lang, h, y)
    ensures RightAt(f.lang, f.at(h, r), y)
  {
    NotBelow(h, r, y);
    SummarizerSkips(f, h, r);
    ChildrenKept(f, h, r, y);
  }

  /** Bottom-up, each summary leaves one more node right. */
  lemma OneMoreRight(f: Summarizer, h: Nodes, k: nat)
    requires f.Right() && Shaped(h) && k < 7 && RightFrom(f.lang, h, k + 1)
    ensures RightFrom(f.lang, f.at(h, k), k)
  {
    forall r: Ref | k <= r < 7
      ensures RightAt(f.lang, f.at(h, k), r)
    {
      if r > k {
        SummarizedKeepsRight(f, h, k, r);
      } else {
        SummarizedIsRight(f, h, k);
      }
    }
  }

  /** The nodes from `k` on have been summarized, the last one first. */
  ghost function SummarizedFrom(f: Summarizer, k: nat): Nodes
    requires k <= 7
    decreases 7 - k
  {
    if k == 7 then BARE else f.at(SummarizedFrom(f, k + 1), k)
  }

  lemma {:induction false} SummarizedFromIsShaped(f: Summarizer, k: nat)
    requires f.Right() && k <= 7
    ensures Shaped(SummarizedFrom(f, k)) && SubtreeMemory.Valid(SummarizedFrom(f, k), ROOTS)
    decreases 7 - k
  {
    if k == 7 {
      BareIsValid();
      BareIsShaped();
    } else {
      SummarizedFromIsShaped(f, k + 1);
      SummarizedShape(f, SummarizedFrom(f, k + 1), k);
      SummarizerValid(f, SummarizedFrom(f, k + 1), ROOTS, k);
    }
  }

  lemma {:induction false} SummarizedFromIsRight(f: Summarizer, k: nat)
    requires f.Right() && k <= 7
    ensures RightFrom(f.lang, SummarizedFrom(f, k), k)
    decreases 7 - k
  {
    if k < 7 {
      SummarizedFromIsRight(f, k + 1);
      SummarizedFromIsShaped(f, k + 1);
      OneMoreRight(f, SummarizedFrom(f, k + 1), k);
      assert SummarizedFrom(f, k) == f.at(SummarizedFrom(f, k + 1), k);
    }
  }

  // ---- The depths ----

  lemma DepthAt(h: Nodes, r: Ref)
    requires Linked(h) && r < 7 && DepthOk(h, r)
    ensures forall y: Ref :: y < 7 ==> y in h
    ensures h[r].info.repeatDepth ==
            if r == 0 || r == 2 || r == 6 then 0
            else if r == 1 then 1 + (if h[2].info.repeatDepth > h[3].info.repeatDepth then h[2].info.repeatDepth
                                     else h[3].info.repeatDepth)
            else 1 + h[r + 1].info.repeatDepth
  {
    assert LinkedAt(h, r) && (r < 6 ==> LinkedAt(h, r + 1)) && LinkedAt(h, 3);
    var infos := InfosOf(h, h[r].children);
    assert infos[0] == InfoOf(h, h[r].children[0]) && infos[1] == InfoOf(h, h[r].children[1]);
  }

  /** The depths before: 4 below the root, 3 at the chain. */
  lemma StartDepths(h: Nodes)
    requires Linked(h) && forall r: Ref :: r < 7 ==> DepthOk(h, r)
    ensures h[0].info.repeatDepth == 0 && h[1].info.repeatDepth == 4
    ensures h[2].info.repeatDepth == 0 && h[3].info.repeatDepth == 3
    ensures h[4].info.repeatDepth == 2 && h[5].info.repeatDepth == 1 && h[6].info.repeatDepth == 0
  {
    DepthAt(h, 6);
    DepthAt(h, 5);
    DepthAt(h, 4);
    DepthAt(h, 3);
    DepthAt(h, 2);
    DepthAt(h, 1);
    DepthAt(h, 0);
  }

  // ---- The run ----

  /** A language without aliases. */
  ghost predicate NoAliases(lang: Language) {
    forall i :: lang.aliasAt(0, i) == 0
  }

  ghost function Start(f: Summarizer): Nodes {
    SummarizedFrom(f, 0)
  }

  /** Memory once the chain at 3 has been rotated, and once it has been summarized. */
  ghost function Turned(f: Summarizer): Nodes {
    var h := Start(f);
    if CanRotate(h, 3, 4, 5) then Rotated(h, 3, 4, 5) else h
  }

  ghost function End(f: Summarizer): Nodes {
    LinkSummarized(f, Turned(f), 3, 4, 5)
  }

  lemma StartIsRight(f: Summarizer)
    requires f.Right()
    ensures Shaped(Start(f)) && Linked(Start(f)) && SubtreeMemory.Valid(Start(f), ROOTS)
    ensures forall r: Ref :: LocalOk(f.lang, Start(f), r) && FlagsFixed(Start(f), r) && DepthOk(Start(f), r)
  {
    SummarizedFromIsShaped(f, 0);
    ShapedIsLinked(Start(f));
    SummarizedFromIsRight(f, 0);
    forall r: Ref
      ensures LocalOk(f.lang, Start(f), r) && FlagsFixed(Start(f), r) && DepthOk(Start(f), r)
    {
      assert r < 7 ==> RightAt(f.lang, Start(f), r);
    }
  }

  /** All that balancing asks for. */
  lemma StartMayBeBalanced(f: Summarizer)
    requires f.Right() && NoAliases(f.lang)
    ensures var scope := Scope({REPEAT}, ReachedBy(Start(f), ROOTS, 0), f);
            Settled(f.lang, scope.dom, Start(f)) && ScopeOk(f.lang, scope, Start(f))
  {
    StartIsRight(f);
    StartDepths(Start(f));
    ReachedIsInward(Start(f), ROOTS, 0);
    var h := Start(f);
    forall r: Ref
      ensures RepeatOk(f.lang, {REPEAT}, h, r)
    {
      if r in h {
        var base := Base(h[r].info);
        assert base.symbol == h[r].info.symbol;
        assert r != 0 ==> IsRepeat(f.lang, base);
      }
    }
  }

  lemma LinkedRotates(h: Nodes)
    requires Linked(h)
    ensures Rotatable(h, 3, 4, 5, REPEAT) && CanRotate(h, 3, 4, 5)
  {
    assert LinkedAt(h, 3) && LinkedAt(h, 4) && LinkedAt(h, 5);
  }

  lemma RotatedRest(h: Nodes, r: Ref)
    requires Linked(h) && CanRotate(h, 3, 4, 5)
    ensures var h' := Rotated(h, 3, 4, 5);
            && (r in h' <==> r < 7)
            && (r < 7 ==> r in h && h'[r].info == h[r].info && h'[r].refCount == h[r].refCount)
            && (r < 7 && r !in {3, 4, 5} ==> h'[r] == h[r])
  {
    assert r < 7 ==> LinkedAt(h, r);
  }

  lemma ChainRotated(h: Nodes)
    requires Linked(h) && CanRotate(h, 3, 4, 5)
    ensures var h' := Rotated(h, 3, 4, 5);
            && h'[3].children == [Ptr(5), LEAF] && h'[4].children == [LEAF, LEAF]
            && h'[5].children == [Ptr(6), Ptr(4)]
  {
    assert LinkedAt(h, 3) && LinkedAt(h, 4) && LinkedAt(h, 5);
    RotationLists(h, 3, 4, 5);
  }

  lemma RotatedLinks(h: Nodes)
    requires Linked(h)
    ensures Rotatable(h, 3, 4, 5, REPEAT) && CanRotate(h, 3, 4, 5)
    ensures TurnedShape(h, Rotated(h, 3, 4, 5))
  {
    LinkedRotates(h);
    ChainRotated(h);
    forall r: Ref
      ensures r in Rotated(h, 3, 4, 5) <==> r < 7
      ensures r < 7 ==> LinkedAt(h, r)
      ensures r < 7 ==> Rotated(h, 3, 4, 5)[r].info == h[r].info && Rotated(h, 3, 4, 5)[r].refCount == 1
    {
      RotatedRest(h, r);
    }
    RotatedRest(h, 0);
    RotatedRest(h, 1);
    RotatedRest(h, 2);
    RotatedRest(h, 6);
  }

  /** The links and symbols of memory once it has been rotated. */
  ghost predicate TurnedShape(h0: Nodes, h: Nodes) {
    && (forall r: Ref :: r in h <==> r < 7) && (forall r: Ref :: r in h0 <==> r < 7)
    && (forall r: Ref :: r in h ==> h[r].refCount == 1 && h[r].info.symbol == if r == 0 then ROOT else REPEAT)
    && h[0] == h0[0] && h[1] == h0[1] && h[2] == h0[2] && h[6] == h0[6] && h[0].children == [Ptr(1), LEAF]
    && h[1].children == [Ptr(2), Ptr(3)] && h[2].children == [LEAF, LEAF] && h[6].children == [LEAF, LEAF]
    && h[3].children == [Ptr(5), LEAF] && h[4].children == [LEAF, LEAF] && h[5].children == [Ptr(6), Ptr(4)]
  }

  lemma TurnedIsLink(h0: Nodes, h: Nodes)
    requires TurnedShape(h0, h)
    ensures IsLink(h, 3, 4, 5)
  {
  }

  lemma OneRotation(f: Summarizer, h: Nodes)
    requires Rotatable(h, 3, 4, 5, REPEAT) && IsLink(Rotated(h, 3, 4, 5), 3, 4, 5)
    ensures Compressed(f, h, 3, 1, REPEAT) == LinkSummarized(f, Rotated(h, 3, 4, 5), 3, 4, 5)
    ensures RotatedNodes(h, 3, 1, REPEAT) == {3, 4, 5}
  {
    var c, g := CompressedStep(f, h, 3, 1, REPEAT);
    LinkIsUnwound(f, Rotated(h, 3, 4, 5), 3, 4, 5);
  }

  /** The compression of the chain at 3. */
  lemma StartCompressed(f: Summarizer)
    requires f.Right()
    ensures Rotatable(Start(f), 3, 4, 5, REPEAT)
    ensures Compressed(f, Start(f), 3, 1, REPEAT) == End(f)
    ensures RotatedNodes(Start(f), 3, 1, REPEAT) == {3, 4, 5}
  {
    StartIsRight(f);
    RotatedLinks(Start(f));
    TurnedIsLink(Start(f), Rotated(Start(f), 3, 4, 5));
    OneRotation(f, Start(f));
  }

  lemma TurnedLinks(f: Summarizer)
    requires f.Right()
    ensures SubtreeMemory.Valid(Turned(f), ROOTS) && TurnedShape(Start(f), Turned(f))
  {
    StartIsRight(f);
    RotatedLinks(Start(f));
    RotatedValid(Start(f), ROOTS, 3, 4, 5);
  }

  lemma EndLinks(f: Summarizer)
    requires f.Right()
    ensures SubtreeMemory.Valid(End(f), ROOTS) && TurnedShape(Start(f), End(f))
  {
    var h, h' := Turned(f), End(f);
    TurnedLinks(f);
    ThreeSummarized(f, h, ROOTS, 4, 5, 3);
    LinkElsewhere(f, h, 3, 4, 5, 0);
    LinkElsewhere(f, h, 3, 4, 5, 1);
    LinkElsewhere(f, h, 3, 4, 5, 2);
    LinkElsewhere(f, h, 3, 4, 5, 6);
    SameShape(Start(f), h, h');
  }

  lemma SameShape(h0: Nodes, h: Nodes, h': Nodes)
    requires TurnedShape(h0, h) && SameLinks(h, h')
    requires 0 in h' && 1 in h' && 2 in h' && 6 in h'
    requires h'[0] == h[0] && h'[1] == h[1] && h'[2] == h[2] && h'[6] == h[6]
    ensures TurnedShape(h0, h')
  {
    forall r: Ref
      ensures r in h' <==> r < 7
      ensures r in h' ==> h'[r].refCount == 1 && h'[r].info.symbol == h[r].info.symbol
      ensures r in h' ==> h'[r].children == h[r].children
    {
      assert LinksKept(h, h', r);
    }
  }

  lemma OnlyTopOverChain(h0: Nodes, h: Nodes, r: Ref)
    requires TurnedShape(h0, h) && r != 1
    ensures !IsChild(h, r, 3)
  {
    if r in h {
      assert r == 0 || r == 2 || r == 3 || r == 4 || r == 5 || r == 6;
      assert |h[r].children| == 2 && h[r].children[0] != Ptr(3) && h[r].children[1] != Ptr(3);
    }
  }

  lemma OnlyTopOver(f: Summarizer, r: Ref)
    requires f.Right() && r != 1
    ensures !IsChild(End(f), r, 3)
  {
    EndLinks(f);
    OnlyTopOverChain(Start(f), End(f), r);
  }

  lemma StartDepthsAfter(f: Summarizer, rank: map<Ref, nat>, r: Ref)
    requires f.Right() && Ranked(Start(f), rank)
    ensures IsChild(Compressed(f, Start(f), 3, 1, REPEAT), r, 3) || DepthOk(Compressed(f, Start(f), 3, 1, REPEAT), r)
  {
    StartIsRight(f);
    StartSymbols(f);
    CompressedDepths(f, Start(f), ROOTS, rank, 3, 1, REPEAT, r);
  }

  /** All depths but the one on top are right again. */
  lemma EndIsRightBelow(f: Summarizer, r: Ref)
    requires f.Right() && r != 1
    ensures DepthOk(End(f), r)
  {
    StartIsRight(f);
    var rank :| Ranked(Start(f), rank);
    StartDepthsAfter(f, rank, r);
    StartCompressed(f);
    OnlyTopOver(f, r);
  }

  lemma StartSymbols(f: Summarizer)
    requires f.Right()
    ensures var h := Start(f);
            (forall r: Ref :: r in h <==> r < 7) &&
            forall r: Ref :: r in h ==> h[r].info.symbol == (if r == 0 then ROOT else REPEAT) && h[r].refCount == 1
  {
    StartIsRight(f);
    forall r: Ref | r < 7
      ensures LinkedAt(Start(f), r)
    {
    }
  }

  /** The depth of a node over two children. */
  lemma PairDepth(h: Nodes, r: Ref, a: Subtree, b: Subtree)
    requires r in h && h[r].children == [a, b] && DepthOk(h, r)
    ensures AreNodes(h, [a, b])
    ensures InfoOf(h, a).symbol != h[r].info.symbol ==> h[r].info.repeatDepth == 0
    ensures h[r].info.repeatDepth <= 1 + Deeper(InfoOf(h, a), InfoOf(h, b))
  {
    var infos := InfosOf(h, [a, b]);
    assert infos[0] == InfoOf(h, a) && infos[1] == InfoOf(h, b);
  }

  function Deeper(a: Info, b: Info): nat {
    if a.repeatDepth > b.repeatDepth then a.repeatDepth else b.repeatDepth
  }

  lemma EndDepths(f: Summarizer)
    requires f.Right()
    ensures forall r: Ref :: r < 7 ==> r in End(f)
    ensures End(f)[0].info.repeatDepth == 0
    ensures End(f)[2].info.repeatDepth == 0 && End(f)[6].info.repeatDepth == 0 && End(f)[4].info.repeatDepth == 0
    ensures End(f)[5].info.repeatDepth <= 1 && End(f)[3].info.repeatDepth <= 2
  {
    var h := End(f);
    EndLinks(f);
    StartIsRight(f);
    StartDepths(Start(f));
    EndIsRightBelow(f, 3);
    EndIsRightBelow(f, 4);
    EndIsRightBelow(f, 5);
    PairDepth(h, 4, LEAF, LEAF);
    PairDepth(h, 5, Ptr(6), Ptr(4));
    PairDepth(h, 3, Ptr(5), LEAF);
  }

  /** The repetition on top still caches 4, though its last child is no longer 3 deep. */
  lemma EndIsStale(f: Summarizer)
    requires f.Right()
    ensures 1 in End(f) && !DepthOk(End(f), 1)
  {
    EndLinks(f);
    EndDepths(f);
    StartIsRight(f);
    StartDepths(Start(f));
    if DepthOk(End(f), 1) {
      PairDepth(End(f), 1, Ptr(2), Ptr(3));
    }
  }

  // ---- The turns that lead there ----

  ghost function One(h: Nodes, s: Subtree): seq<Ref>
    requires s.Ptr? ==> s.ref in h
  {
    if s.Ptr? && h[s.ref].children != [] && h[s.ref].refCount == 1 then [s.ref] else []
  }

  lemma UnsharedPair(h: Nodes, a: Subtree, b: Subtree)
    requires AreNodes(h, [a, b])
    ensures UnsharedParents(h, [a, b]) == One(h, [a, b][0]) + One(h, [a, b][1])
  {
    var ss := [a, b];
    assert ss[..1] == [a] && [a][..0] == [];
    assert AreNodes(h, [a]) && AreNodes(h, []);
    assert UnsharedParents(h, [a]) == UnsharedParents(h, [a][..0]) + One(h, ss[0]);
  }

  /** A turn that finds nothing to balance. */
  lemma IdleTurn(f: Summarizer, h: Nodes, below: seq<Ref>, x: Ref, a: Subtree, b: Subtree)
    requires x in h && h[x].children == [a, b] && AreNodes(h, [a, b])
    requires h[x].info.repeatDepth == 0 || InfoOf(h, [a, b][0]).repeatDepth <= 1 + InfoOf(h, [a, b][1]).repeatDepth
    ensures Turn(f, WalkState(h, below + [x])) == WalkState(h, below + One(h, [a, b][0]) + One(h, [a, b][1]))
  {
    UnsharedPair(h, a, b);
    assert (below + [x])[..|below|] == below;
    assert CompressionCount(h, x) == 0;
    assert Balanced(f, h, x) == Halving(f, h, x, 0, h[x].info.symbol) == h;
    assert below + (One(h, [a, b][0]) + One(h, [a, b][1])) == below + One(h, [a, b][0]) + One(h, [a, b][1]);
  }

  ghost function StateAt(f: Summarizer, n: nat): WalkState {
    if n == 0 then WalkState(Start(f), [0])
    else if n == 1 then WalkState(Start(f), [1])
    else if n == 2 then WalkState(Start(f), [2, 3])
    else WalkState(End(f), if n == 3 then [2, 5] else if n == 4 then [2, 6, 4] else if n == 5 then [2, 6]
                           else if n == 6 then [2] else [])
  }

  /** Nothing is to be balanced at the root. */
  lemma RootIsIdle(f: Summarizer, h: Nodes)
    requires Linked(h) && forall r: Ref :: r < 7 ==> DepthOk(h, r)
    ensures Turn(f, WalkState(h, [] + [0])) == WalkState(h, [] + [1] + [])
  {
    StartDepths(h);
    assert LinkedAt(h, 0) && LinkedAt(h, 1);
    var ss := [Ptr(1), LEAF];
    assert One(h, ss[0]) == [1] && One(h, ss[1]) == [];
    IdleTurn(f, h, [], 0, Ptr(1), LEAF);
  }

  /** Nor below it: the last child is the deeper one. */
  lemma TopIsIdle(f: Summarizer, h: Nodes)
    requires Linked(h) && forall r: Ref :: r < 7 ==> DepthOk(h, r)
    ensures Turn(f, WalkState(h, [] + [1])) == WalkState(h, [] + [2] + [3])
  {
    StartDepths(h);
    assert LinkedAt(h, 1) && LinkedAt(h, 2) && LinkedAt(h, 3);
    var ss := [Ptr(2), Ptr(3)];
    assert One(h, ss[0]) == [2] && One(h, ss[1]) == [3];
    IdleTurn(f, h, [], 1, Ptr(2), Ptr(3));
  }

  lemma FirstTurn(f: Summarizer)
    requires f.Right()
    ensures Turn(f, StateAt(f, 0)) == StateAt(f, 1)
  {
    StartIsRight(f);
    RootIsIdle(f, Start(f));
    assert [] + [0] == [0] && [] + [1] + [] == [1];
  }

  lemma SecondTurn(f: Summarizer)
    requires f.Right()
    ensures Turn(f, StateAt(f, 1)) == StateAt(f, 2)
  {
    StartIsRight(f);
    TopIsIdle(f, Start(f));
    assert [] + [1] == [1] && [] + [2] + [3] == [2, 3];
  }

  lemma ThirdBalanced(f: Summarizer)
    requires f.Right()
    ensures Balanced(f, Start(f), 3) == End(f)
  {
    var h := Start(f);
    StartIsRight(f);
    StartDepths(h);
    StartSymbols(f);
    ShapedCanSummarize(h, 3);
    assert CompressionCount(h, 3) == 1;
    StartCompressed(f);
    HalvingOne(f, h, 3, REPEAT);
  }

  /** The chain's node leaves only the node below it. */
  lemma ChainIsVisited(h0: Nodes, h: Nodes)
    requires TurnedShape(h0, h)
    ensures CanSummarize(h, 3) && UnsharedParents(h, h[3].children) == [5]
  {
    var ss := [Ptr(5), LEAF];
    assert AreNodes(h, ss);
    UnsharedPair(h, Ptr(5), LEAF);
    assert One(h, ss[0]) == [5] && One(h, ss[1]) == [];
    assert [5] + [] == [5];
  }

  lemma ThirdTurn(f: Summarizer)
    requires f.Right()
    ensures Turn(f, StateAt(f, 2)) == StateAt(f, 3)
  {
    ThirdBalanced(f);
    EndLinks(f);
    ChainIsVisited(Start(f), End(f));
    assert [2, 3][..1] == [2] && [2] + [5] == [2, 5];
  }

  lemma HalvingOne(f: Summarizer, h: Nodes, x: Ref, symbol: Symbol)
    ensures Halving(f, h, x, 1, symbol) == Compressed(f, h, x, 1, symbol)
  {
    assert 1 / 2 == 0;
    var h' := Compressed(f, h, x, 1, symbol);
    assert Halving(f, h', x, 0, symbol) == h';
  }

  lemma PairAt(f: Summarizer, x: Ref)
    requires f.Right() && x in {2, 4, 6}
    ensures x in End(f) && End(f)[x].children == [LEAF, LEAF] && End(f)[x].info.repeatDepth == 0
    ensures AreNodes(End(f), [LEAF, LEAF]) && One(End(f), LEAF) == []
  {
    EndLinks(f);
    EndDepths(f);
  }

  lemma IdlePair(f: Summarizer, below: seq<Ref>, x: Ref)
    requires f.Right() && x in {2, 4, 6}
    ensures Turn(f, WalkState(End(f), below + [x])) == WalkState(End(f), below)
  {
    PairAt(f, x);
    IdleTurn(f, End(f), below, x, LEAF, LEAF);
    assert below + [] + [] == below;
  }

  lemma RotatedIsIdle(f: Summarizer, h0: Nodes, h: Nodes, below: seq<Ref>)
    requires TurnedShape(h0, h) && h[6].info.repeatDepth == 0 && h[4].info.repeatDepth == 0
    ensures Turn(f, WalkState(h, below + [5])) == WalkState(h, below + [6] + [4])
  {
    var ss := [Ptr(6), Ptr(4)];
    assert AreNodes(h, ss) && One(h, ss[0]) == [6] && One(h, ss[1]) == [4];
    IdleTurn(f, h, below, 5, Ptr(6), Ptr(4));
  }

  lemma FourthTurn(f: Summarizer)
    requires f.Right()
    ensures Turn(f, StateAt(f, 3)) == StateAt(f, 4)
  {
    EndLinks(f);
    EndDepths(f);
    RotatedIsIdle(f, Start(f), End(f), [2]);
    assert [2] + [5] == [2, 5] && [2] + [6] + [4] == [2, 6, 4];
  }

  lemma LaterTurns(f: Summarizer, n: nat)
    requires f.Right() && n >= 3
    ensures Turn(f, StateAt(f, n)) == StateAt(f, n + 1)
  {
    if n == 3 {
      FourthTurn(f);
    } else if n == 4 {
      IdlePair(f, [2, 6], 4);
      assert [2, 6] + [4] == [2, 6, 4];
    } else if n == 5 {
      IdlePair(f, [2], 6);
      assert [2] + [6] == [2, 6];
    } else if n == 6 {
      IdlePair(f, [], 2);
      assert [] + [2] == [2];
    }
  }

  lemma {:induction false} RunIs(f: Summarizer, states: seq<WalkState>, j: nat)
    requires f.Right() && IsRun(f, states) && states[0] == StateAt(f, 0) && j < |states|
    ensures states[j] == StateAt(f, j)
    decreases j
  {
    if j > 0 {
      RunIs(f, states, j - 1);
      assert TurnAt(f, states, j - 1);
      if j == 1 {
        FirstTurn(f);
      } else if j == 2 {
        SecondTurn(f);
      } else if j == 3 {
        ThirdTurn(f);
      } else {
        LaterTurns(f, j - 1);
      }
    }
  }

  lemma RunEnds(f: Summarizer, h: Nodes)
    requires f.Right() && RunsTo(f, StateAt(f, 0), WalkState(h, []))
    ensures h == End(f)
  {
    var states :| IsRun(f, states) && states[0] == StateAt(f, 0) && states[|states| - 1] == WalkState(h, []);
    RunIs(f, states, |states| - 1);
  }

  /** Every run that ends leaves the top repetition's depth stale, though all was right before. */
  lemma RunEndsStale(f: Summarizer, h: Nodes)
    requires f.Right() && RunsTo(f, WalkState(Start(f), [0]), WalkState(h, []))
    ensures forall r: Ref :: DepthOk(Start(f), r)
    ensures 1 in h && !DepthOk(h, 1)
  {
    StartIsRight(f);
    EndIsStale(f);
    RunEnds(f, h);
  }

  /** The turn of node `k`. */
  lemma BuildTurn(f: Summarizer, k: nat)
    requires f.Right() && k < 7
    ensures SummarizedFrom(f, k) == SummarizedAt(f.lang, SummarizedFrom(f, k + 1), k)
  {
    assert f.RightAt(SummarizedFrom(f, k + 1), k);
  }

  lemma BuildReady(f: Summarizer, k: nat)
    requires f.Right() && k < 7
    ensures CanSummarize(SummarizedFrom(f, k + 1), k)
  {
    SummarizedFromIsShaped(f, k + 1);
    ShapedCanSummarize(SummarizedFrom(f, k + 1), k);
  }

  /** Summarizes each node after those below it. */
  method SummarizeAll(store: TreeStore, lang: Language, ghost f: Summarizer)
    requires f.Right() && f.lang == lang && store.nodes == SummarizedFrom(f, 7)
    modifies store`nodes
    ensures store.nodes == Start(f)
  {
    var k := 7;
    while k > 0
      invariant k <= 7 && store.nodes == SummarizedFrom(f, k)
      decreases k
    {
      k := k - 1;
      BuildReady(f, k);
      BuildTurn(f, k);
      store.SummarizeChildren(lang, k);
    }
  }

  /** Builds that tree. */
  method Build(lang: Language, ghost f: Summarizer) returns (store: TreeStore)
    requires f.Right() && f.lang == lang
    ensures fresh(store) && store.Valid() && store.nodes == Start(f) && store.roots == ROOTS
  {
    store := new TreeStore();
    store.nodes, store.roots, store.brk := BARE, ROOTS, 7;
    SummarizeAll(store, lang, f);
    SummarizedFromIsShaped(f, 0);
  }

  /** Has that tree balanced, every cache right before: if the walk is not told to stop, the
      top repetition's depth is stale. */
  method LeaveStale(lang: Language) returns (store: TreeStore, ghost before: Nodes, finished: bool)
    requires NoAliases(lang)
    ensures SubtreeMemory.Valid(before, ROOTS) && (forall r: Ref :: LocalOk(lang, before, r) && DepthOk(before, r))
    ensures store.Valid() && store.roots == ROOTS && SameTrees(lang, before, store.nodes, ROOTS)
    ensures finished ==> store.treeStack == [] && 1 in store.nodes && !DepthOk(store.nodes, 1)
  {
    ghost var f := SummarizerOf(lang);
    store := Build(lang, f);
    before := store.nodes;
    StartIsRight(f);
    StartMayBeBalanced(f);
    ghost var scope, done := Scope({REPEAT}, ReachedBy(before, ROOTS, 0), f), {};
    finished, done := store.Balance(lang, 0, false, scope, before, done);
    if finished {
      OnlyRoot(before);
      RunEndsStale(f, store.nodes);
    }
  }

  lemma OnlyRoot(h: Nodes)
    requires Shaped(h)
    ensures AreNodes(h, [ROOTS[0]]) && UnsharedParents(h, [ROOTS[0]]) == [0]
  {
    assert [ROOTS[0]][..0] == [];
  }
}
