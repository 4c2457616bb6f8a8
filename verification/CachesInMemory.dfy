/** What right caches are good for: trees in memory whose summaries are right are ready to be
    edited and to be walked by their counts. */
module CachesInMemory {
  import opened Lengths
  import opened SyntaxTrees
  import opened EditSpec
  import opened EditProperties
  import opened Summaries
  import opened TreePaths
  import opened VisibleLists
  import opened CursorSpec
  import opened SubtreeMemory
  import opened Rotations

  /** Nowhere in the tree is the end of the file given an alias. */
  ghost predicate EndsUnaliased(lang: Language, t: Tree) {
    && (forall k: nat {:trigger EndHasNoAlias(lang, t, k)} :: EndHasNoAlias(lang, t, k))
    && forall i :: 0 <= i < |t.kids| ==> EndsUnaliased(lang, t.kids[i])
  }

  lemma KidsDenoted(h: Nodes, ss: seq<Subtree>, kids: seq<Tree>)
    requires |ss| == |kids| && AreNodes(h, ss)
    requires forall i :: 0 <= i < |kids| ==> Denotes(h, ss[i], kids[i])
    ensures KidsOf(h, ss) == KidsOfTrees(kids)
  {
    forall i | 0 <= i < |kids|
      ensures KidOf(h, ss[i]) == KidOfTree(kids[i])
    {
      assert Denotes(h, ss[i], kids[i]);
      if ss[i].Ptr? {
        assert (h[ss[i].ref].children != []) == (kids[i].kids != []);
      }
    }
  }

  /** If every node that a subtree reaches caches the right summary, so does the tree it denotes. */
  lemma {:induction false} StoredCachesAreOk(lang: Language, h: Nodes, dom: set<Ref>, s: Subtree, t: Tree)
    requires OkIn(lang, h, dom) && Inward(h, dom) && (s.Ptr? ==> s.ref in dom)
    requires Denotes(h, s, t) && EndsUnaliased(lang, t)
    ensures CachesOk(lang, t)
    decreases t
  {
    if s.Ptr? {
      assert LocalOk(lang, h, s.ref) && KidsInside(h, dom, s.ref);
      forall i | 0 <= i < |t.kids|
        ensures CachesOk(lang, t.kids[i])
      {
        StoredCachesAreOk(lang, h, dom, h[s.ref].children[i], t.kids[i]);
      }
      if t.kids != [] {
        KidsDenoted(h, h[s.ref].children, t.kids);
      }
    }
  }

  /** The running totals measure the first `k` children. */
  ghost predicate Measured(t: Tree, k: nat, tally: Tally) {
    && k <= |t.kids|
    && tally.padding.bytes + tally.size.bytes == Offset(t.kids, k)
    && (k > 0 ==> tally.padding == t.kids[0].info.padding)
    && forall i :: 0 <= i < k ==> Offset(t.kids, i) + LookaheadEnd(t.kids[i]) <= tally.lookaheadEnd
  }

  lemma AbsorbMeasures(lang: Language, t: Tree, k: nat, tally: Tally)
    requires k < |t.kids| && Measured(t, k, tally)
    ensures Measured(t, k + 1, Absorb(lang, Base(t.info), tally, KidOfTree(t.kids[k]), k == 0))
  {
    OffsetStep(t.kids, k);
    var outer := Outer(t.kids[k].info);
    assert outer.padding == t.kids[k].info.padding && outer.size == t.kids[k].info.size;
    assert outer.lookaheadBytes == t.kids[k].info.lookaheadBytes;
    assert k == 0 ==> Offset(t.kids, 0) == 0;
  }

  ghost predicate MeasuredFirst(lang: Language, t: Tree, k: nat) {
    k <= |t.kids| && Measured(t, k, TallyOf(lang, Base(t.info), KidsOfTrees(t.kids)[..k]))
  }

  lemma MeasuresStep(lang: Language, t: Tree, k: nat)
    requires k < |t.kids| && MeasuredFirst(lang, t, k)
    ensures MeasuredFirst(lang, t, k + 1)
  {
    AbsorbMeasures(lang, t, k, TallyOf(lang, Base(t.info), KidsOfTrees(t.kids)[..k]));
    TallyGrows(lang, t, k);
  }

  lemma {:induction false} TallyMeasures(lang: Language, t: Tree, k: nat)
    requires k <= |t.kids|
    ensures MeasuredFirst(lang, t, k)
    decreases k
  {
    if k > 0 {
      TallyMeasures(lang, t, k - 1);
      MeasuresStep(lang, t, k - 1);
    } else {
      assert Offset(t.kids, 0) == 0;
    }
  }

  /** A parent whose cache is right spans its children, and its lookahead covers theirs. */
  lemma SummaryMeasures(lang: Language, t: Tree)
    requires t.kids != [] && Outer(t.info) == Summary(lang, Base(t.info), KidsOfTrees(t.kids))
    ensures TotalBytes(t) == SumBytes(t.kids) && t.info.padding == t.kids[0].info.padding
    ensures forall i :: 0 <= i < |t.kids| ==> Offset(t.kids, i) + LookaheadEnd(t.kids[i]) <= LookaheadEnd(t)
  {
    TallyMeasures(lang, t, |t.kids|);
    var ks := KidsOfTrees(t.kids);
    assert ks[..|t.kids|] == ks && t.kids[..|t.kids|] == t.kids;
    var cached := Summary(lang, Base(t.info), ks);
    assert Outer(t.info).padding == cached.padding && Outer(t.info).size == cached.size;
    assert Outer(t.info).lookaheadBytes == cached.lookaheadBytes;
  }

  /** Right summaries make parents span their children and lookahead cover theirs: together with
      the absence of marks, that is all that reuse safety asks for. */
  lemma {:induction false} SummariesAreReady(lang: Language, t: Tree)
    requires CachesOk(lang, t)
    ensures Consistent(t) && LookaheadCovers(t)
    decreases t
  {
    forall i | 0 <= i < |t.kids|
      ensures Consistent(t.kids[i]) && LookaheadCovers(t.kids[i])
    {
      SummariesAreReady(lang, t.kids[i]);
    }
    if t.kids != [] {
      SummaryMeasures(lang, t);
    }
  }

  // ---- Edited trees can still be walked ----

  /** What the lists of visible nodes are made from, and the counts. */
  function Shape(info: Info): (bool, bool, Symbol, nat, nat, nat) {
    (info.visible, info.extra, info.symbol, info.productionId, info.visibleChildCount, info.visibleDescendantCount)
  }

  ghost predicate SameShape(t: Tree, u: Tree)
    decreases t
  {
    Shape(t.info) == Shape(u.info) && |t.kids| == |u.kids| &&
    forall i :: 0 <= i < |t.kids| ==> SameShape(t.kids[i], u.kids[i])
  }

  lemma {:induction false} ShapeItself(t: Tree)
    ensures SameShape(t, t)
    decreases t
  {
    forall i | 0 <= i < |t.kids|
      ensures SameShape(t.kids[i], t.kids[i])
    {
      ShapeItself(t.kids[i]);
    }
  }

  lemma {:induction false} EditKeepsShape(t: Tree, e: Edit)
    ensures SameShape(t, EditTree(t, e))
    decreases t
  {
    ShapeItself(t);
    if !IsOutOfReach(t.info, e) {
      var u, plan := EditTree(t, e), PlanOf(t.info, t.kids, e);
      forall i | 0 <= i < |t.kids|
        ensures SameShape(t.kids[i], u.kids[i])
      {
        if plan[i].Touch? {
          EditKeepsShape(t.kids[i], plan[i].edit);
        } else {
          ShapeItself(t.kids[i]);
        }
      }
    }
  }

  lemma {:induction false} ShapeIndex(t: Tree, u: Tree, k: nat)
    requires SameShape(t, u) && k <= |t.kids|
    ensures StructuralIndex(u.kids, k) == StructuralIndex(t.kids, k)
  {
    if k > 0 {
      ShapeIndex(t, u, k - 1);
      assert SameShape(t.kids[k - 1], u.kids[k - 1]);
    }
  }

  lemma ShapeShows(lang: Language, t: Tree, u: Tree, k: nat)
    requires SameShape(t, u)
    ensures KidVisible(lang)(u, k) == KidVisible(lang)(t, k)
  {
    if k < |t.kids| {
      ShapeIndex(t, u, k);
      assert SameShape(t.kids[k], u.kids[k]);
    }
  }

  lemma {:induction false} ShapeLists(lang: Language, t: Tree, u: Tree, k: nat)
    requires SameShape(t, u)
    ensures ListFrom(KidVisible(lang), u, k) == ListFrom(KidVisible(lang), t, k)
    ensures ChildrenFrom(lang, u, k) == ChildrenFrom(lang, t, k)
    decreases t, |t.kids| - k
  {
    ShapeShows(lang, t, u, k);
    if k < |t.kids| {
      ShapeLists(lang, t.kids[k], u.kids[k], 0);
      ShapeLists(lang, t, u, k + 1);
    }
  }

  lemma {:induction false} ShapeAt(t: Tree, u: Tree, path: Path)
    requires SameShape(t, u) && ValidPath(u, path)
    ensures ValidPath(t, path) && SameShape(NodeAt(t, path), NodeAt(u, path))
    decreases |path|
  {
    if path != [] {
      ShapeAt(t.kids[path[0]], u.kids[path[0]], path[1..]);
    }
  }

  /** An edit moves text about but adds and hides no node: the cached counts that a cursor goes by
      are as right after it as before, even where other caches have gone stale. */
  lemma EditKeepsCounts(lang: Language, t: Tree, e: Edit, path: Path)
    requires ValidPath(EditTree(t, e), path)
    ensures ValidPath(t, path)
    ensures CountsRight(lang, NodeAt(EditTree(t, e), path)) <==> CountsRight(lang, NodeAt(t, path))
  {
    EditKeepsShape(t, e);
    ShapeAt(t, EditTree(t, e), path);
    ShapeLists(lang, NodeAt(t, path), NodeAt(EditTree(t, e), path), 0);
  }

  predicate Grounded(a: Length) {
    a.bytes == 0 ==> a == ZERO
  }

  /** Where the edit begins with the text, meets this node's first byte, or changes nothing, its
      points agree with its bytes. */
  ghost predicate Agreed(info: Info, e: Edit) {
    && WellFormed(e) && Grounded(e.start) && Grounded(e.oldEnd) && Grounded(e.newEnd)
    && (e.start.bytes == info.padding.bytes ==> e.start == info.padding)
    && (IsNoop(e) ==> e.start == e.oldEnd == e.newEnd)
  }

  /** ... and so for every child it reaches. */
  ghost predicate PointsAgree(t: Tree, e: Edit)
    decreases t
  {
    !IsOutOfReach(t.info, e) ==>
      && Agreed(t.info, e)
      && forall i {:trigger t.kids[i]} :: 0 <= i < |t.kids| ==>
           PlanOf(t.info, t.kids, e)[i].Touch? ==> PointsAgree(t.kids[i], PlanOf(t.info, t.kids, e)[i].edit)
  }

  lemma SubZero(a: Length)
    requires Grounded(a)
    ensures SaturatingSub(a, ZERO) == a
  {
  }

  /** An edit from the end of a node's text on leaves its padding alone. */
  lemma PaddingBeforeEdit(info: Info, e: Edit)
    requires WellFormed(e) && info.padding.bytes <= e.start.bytes
    requires e.oldEnd.bytes == info.padding.bytes ==> e.newEnd == e.oldEnd == info.padding
    ensures ReshapedPadding(info, e) == info.padding
  {
  }

  /** The first child is never behind the edit. */
  lemma FirstVisit(c: Context, newEnd: Length, kids: seq<Tree>)
    requires kids != []
    ensures var right := TotalSize(kids[0].info);
            Plan(c, newEnd, kids, ZERO, true)[0] ==
            if EndsBefore(c, kids[0].info, right) then Keep else Touch(ChildEdit(c, newEnd, ZERO, right))
  {
    assert Add(ZERO, TotalSize(kids[0].info)) == TotalSize(kids[0].info);
    assert !StopsAt(c, kids[0].info, ZERO, true);
  }

  function PaddingAfter(info: Info, e: Edit): Length {
    if IsOutOfReach(info, e) then info.padding else ReshapedPadding(info, e)
  }

  /** A child that shares its parent's padding and is in reach sees the edit, or the place where it
      begins. */
  lemma SharedPadding(info: Info, kid: Info, e: Edit, c: Context)
    requires Agreed(info, e) && kid.padding == info.padding && c.start == e.start && c.oldEnd == e.oldEnd
    requires !EndsBefore(c, kid, TotalSize(kid))
    ensures PaddingAfter(kid, ChildEdit(c, e.newEnd, ZERO, TotalSize(kid))) == ReshapedPadding(info, e)
  {
    var edit := ChildEdit(c, e.newEnd, ZERO, TotalSize(kid));
    SubZero(e.start);
    SubZero(e.oldEnd);
    SubZero(e.newEnd);
    if Touches(c, TotalSize(kid)) {
      assert edit == e;
      if IsOutOfReach(kid, e) {
        PaddingBeforeEdit(info, e);
      }
    } else {
      assert edit == Edit(e.start, e.start, e.start);
      PaddingBeforeEdit(info, e);
      PaddingBeforeEdit(kid, edit);
    }
  }

  /** What the first child's padding becomes. */
  lemma FirstKidPadding(t: Tree, e: Edit)
    requires !IsOutOfReach(t.info, e) && Agreed(t.info, e)
    requires t.kids != [] && t.info.padding == t.kids[0].info.padding
    ensures EditTree(t, e).kids[0].info.padding == ReshapedPadding(t.info, e)
  {
    var kid, c := t.kids[0], ContextOf(t.info, e);
    FirstVisit(c, e.newEnd, t.kids);
    if EndsBefore(c, kid.info, TotalSize(kid.info)) {
      PaddingBeforeEdit(t.info, e);
    } else {
      SharedPadding(t.info, kid.info, e, c);
    }
  }

  /** A parent and its first child are repadded alike, rows and columns included. */
  lemma FirstPaddingKept(t: Tree, e: Edit)
    requires WellFormed(e) && PointsAgree(t, e) && t.kids != [] && t.info.padding == t.kids[0].info.padding
    ensures EditTree(t, e).info.padding == EditTree(t, e).kids[0].info.padding
  {
    if !IsOutOfReach(t.info, e) {
      FirstKidPadding(t, e);
    }
  }

  lemma {:induction false} FirstPaddingsKept(t: Tree, e: Edit, path: Path)
    requires WellFormed(e) && PointsAgree(t, e) && ValidPath(EditTree(t, e), path)
    requires forall q {:trigger ValidPath(t, q)} :: ValidPath(t, q) && NodeAt(t, q).kids != [] ==>
               NodeAt(t, q).info.padding == NodeAt(t, q).kids[0].info.padding
    ensures var u := NodeAt(EditTree(t, e), path); u.kids != [] ==> u.info.padding == u.kids[0].info.padding
    decreases |path|
  {
    EditKeepsShape(t, e);
    ShapeAt(t, EditTree(t, e), path);
    if path == [] {
      assert ValidPath(t, []);
      if t.kids != [] {
        FirstPaddingKept(t, e);
      }
    } else if !IsOutOfReach(t.info, e) {
      var i := path[0];
      forall q | ValidPath(t.kids[i], q) && NodeAt(t.kids[i], q).kids != []
        ensures NodeAt(t.kids[i], q).info.padding == NodeAt(t.kids[i], q).kids[0].info.padding
      {
        assert ([i] + q)[1..] == q;
        assert ValidPath(t, [i] + q) && NodeAt(t, [i] + q) == NodeAt(t.kids[i], q);
      }
      match PlanOf(t.info, t.kids, e)[i] {
        case Keep =>
          assert EditTree(t, e).kids[i] == t.kids[i];
          assert ValidPath(t.kids[i], path[1..]);
        case Touch(edit) =>
          PlanVisits(ContextOf(t.info, e), e.newEnd, t.kids, ZERO, true, i);
          assert EditTree(t, e).kids[i] == EditTree(t.kids[i], edit);
          FirstPaddingsKept(t.kids[i], edit, path[1..]);
      }
    }
  }

  /** So an edited tree can be walked with a cursor. */
  lemma EditKeepsWalkable(lang: Language, t: Tree, e: Edit)
    requires WellFormed(e) && PointsAgree(t, e) && AllCounted(lang, t)
    ensures AllCounted(lang, EditTree(t, e))
  {
    forall q | ValidPath(t, q) && NodeAt(t, q).kids != []
      ensures NodeAt(t, q).info.padding == NodeAt(t, q).kids[0].info.padding
    {
      assert CountedAt(lang, t, q);
    }
    forall path
      ensures CountedAt(lang, EditTree(t, e), path)
    {
      if ValidPath(EditTree(t, e), path) {
        EditKeepsCounts(lang, t, e, path);
        assert CountedAt(lang, t, path);
        FirstPaddingsKept(t, e, path);
      }
    }
  }
}
