/** Why incremental parsing may trust an edited tree: edits keep byte accounting exact, and
    every node left unmarked is one the edit cannot have influenced. */
module EditProperties {
  import opened Lengths
  import opened SyntaxTrees
  import opened EditSpec

  /** The length of a span of `total` bytes after the edit. */
  ghost function After(total: nat, start: nat, oldEnd: nat, newEnd: nat): nat {
    if start < total || (start == total && oldEnd == start) then newEnd + Monus(total, oldEnd) else total
  }

  ghost function BytesAfter(t: Tree, e: Edit): nat {
    After(TotalBytes(t), e.start.bytes, e.oldEnd.bytes, e.newEnd.bytes)
  }

  /** Inline or not, an edited node stores the reshaped byte counts. */
  lemma EditedBytes(info: Info, e: Edit)
    ensures EditedInfo(info, e).padding.bytes == ReshapedPadding(info, e).bytes
    ensures EditedInfo(info, e).size.bytes == ReshapedSize(info, e).bytes
  {
  }

  lemma ReshapedTotal(info: Info, e: Edit)
    requires WellFormed(e)
    ensures ReshapedPadding(info, e).bytes + ReshapedSize(info, e).bytes == BytesAfter(Tree(info, []), e)
  {
  }

  lemma EditedTotal(info: Info, e: Edit)
    requires WellFormed(e)
    ensures !IsOutOfReach(info, e) ==>
              TotalSize(EditedInfo(info, e)).bytes == BytesAfter(Tree(info, []), e)
    ensures IsOutOfReach(info, e) ==> TotalSize(info).bytes == BytesAfter(Tree(info, []), e)
  {
    EditedBytes(info, e);
    ReshapedTotal(info, e);
  }

  ghost predicate FollowsPlan(kids: seq<Tree>, plan: seq<Visit>, edited: seq<Tree>)
    requires |plan| == |kids| == |edited|
  {
    forall i :: 0 <= i < |kids| ==>
      TotalBytes(edited[i]) == (if plan[i].Keep? then TotalBytes(kids[i]) else BytesAfter(kids[i], plan[i].edit))
  }

  /** Once some child has taken the inserted text, the others only lose deleted bytes. */
  lemma {:induction false} SumAfterInsertion(c: Context, newEnd: Length, kids: seq<Tree>, left: Length, isFirst: bool,
                                             edited: seq<Tree>)
    requires c.start.bytes <= c.oldEnd.bytes && newEnd.bytes == c.start.bytes <= left.bytes
    requires |edited| == |kids| && FollowsPlan(kids, Plan(c, newEnd, kids, left, isFirst), edited)
    ensures SumBytes(edited) == Monus(SumBytes(kids), Monus(c.oldEnd.bytes, left.bytes))
    decreases |kids|
  {
    if kids != [] {
      var right := Add(left, TotalSize(kids[0].info));
      if StopsAt(c, kids[0].info, left, isFirst) {
        SumUnchanged(kids, edited);
      } else {
        var newEnd' := if Touches(c, right) then c.start else newEnd;
        RestFollowsPlan(c, newEnd, kids, left, isFirst, edited);
        SumAfterInsertion(c, newEnd', kids[1..], right, false, edited[1..]);
      }
    }
  }

  lemma {:induction false} SumUnchanged(kids: seq<Tree>, edited: seq<Tree>)
    requires |edited| == |kids|
    requires forall i :: 0 <= i < |kids| ==> TotalBytes(edited[i]) == TotalBytes(kids[i])
    ensures SumBytes(edited) == SumBytes(kids)
  {
    if kids != [] {
      SumUnchanged(kids[1..], edited[1..]);
    }
  }

  /** The first child of a run that the edit has not reached yet. */
  lemma FirstBeforeInsertion(c: Context, newEnd: Length, kid: Tree, left: Length, isFirst: bool)
    requires c.start.bytes <= c.oldEnd.bytes && c.start.bytes <= newEnd.bytes
    requires left.bytes < c.start.bytes || (left.bytes == c.start.bytes && (c.oldEnd.bytes > c.start.bytes || isFirst))
    ensures var right := Add(left, TotalSize(kid.info));
            && !StopsAt(c, kid.info, left, isFirst)
            && (Touches(c, right) ==>
                  && !EndsBefore(c, kid.info, right)
                  && BytesAfter(kid, ChildEdit(c, newEnd, left, right)) ==
                     newEnd.bytes - left.bytes + Monus(TotalBytes(kid), c.oldEnd.bytes - left.bytes))
            && (!Touches(c, right) ==>
                  BytesAfter(kid, ChildEdit(c, newEnd, left, right)) == TotalBytes(kid))
  {
  }

  /** Before the insertion point is reached, the children together change like their parent. */
  lemma {:induction false} SumFollowsParent(c: Context, newEnd: Length, kids: seq<Tree>, left: Length, isFirst: bool,
                                            edited: seq<Tree>)
    requires c.start.bytes <= c.oldEnd.bytes && c.start.bytes <= newEnd.bytes
    requires left.bytes < c.start.bytes || (left.bytes == c.start.bytes && (c.oldEnd.bytes > c.start.bytes || isFirst))
    requires |edited| == |kids| && FollowsPlan(kids, Plan(c, newEnd, kids, left, isFirst), edited)
    ensures kids != [] ==>
              SumBytes(edited) == After(SumBytes(kids), c.start.bytes - left.bytes, c.oldEnd.bytes - left.bytes,
                                        newEnd.bytes - left.bytes)
    decreases |kids|
  {
    if kids != [] {
      var right := Add(left, TotalSize(kids[0].info));
      FirstBeforeInsertion(c, newEnd, kids[0], left, isFirst);
      var newEnd' := if Touches(c, right) then c.start else newEnd;
      RestFollowsPlan(c, newEnd, kids, left, isFirst, edited);
      if Touches(c, right) {
        SumAfterInsertion(c, newEnd', kids[1..], right, false, edited[1..]);
      } else {
        SumFollowsParent(c, newEnd', kids[1..], right, false, edited[1..]);
      }
    }
  }

  lemma RestFollowsPlan(c: Context, newEnd: Length, kids: seq<Tree>, left: Length, isFirst: bool, edited: seq<Tree>)
    requires kids != [] && !StopsAt(c, kids[0].info, left, isFirst)
    requires |edited| == |kids| && FollowsPlan(kids, Plan(c, newEnd, kids, left, isFirst), edited)
    ensures var right := Add(left, TotalSize(kids[0].info));
            var newEnd' := if !EndsBefore(c, kids[0].info, right) && Touches(c, right) then c.start else newEnd;
            FollowsPlan(kids[1..], Plan(c, newEnd', kids[1..], right, false), edited[1..])
  {
    var plan := Plan(c, newEnd, kids, left, isFirst);
    assert forall i :: 0 <= i < |kids| - 1 ==> plan[1..][i] == plan[i + 1] && kids[1..][i] == kids[i + 1];
  }

  /** What a visit says about the child that begins at byte `l`, in a run that ends at `end`. */
  ghost predicate VisitIsRight(c: Context, kid: Tree, l: nat, end: nat, visit: Visit) {
    var reach := l + TotalBytes(kid) + kid.info.lookaheadBytes;
    match visit
    case Keep => reach < c.start.bytes || (c.oldEnd.bytes <= l && c.oldEnd.bytes < end)
    case Touch(edit) =>
      && WellFormed(edit)
      && edit.start.bytes == Monus(c.start.bytes, l)
      && c.start.bytes <= reach
      && (|| edit.oldEnd.bytes == Monus(c.oldEnd.bytes, l)
          || (edit.oldEnd.bytes == edit.start.bytes && l + TotalBytes(kid) <= c.start.bytes))
      && (!c.dependsOnColumn && !kid.info.dependsOnColumn ==> l <= c.oldEnd.bytes)
  }

  lemma FirstVisitIsRight(c: Context, newEnd: Length, kids: seq<Tree>, left: Length, isFirst: bool)
    requires c.start.bytes <= c.oldEnd.bytes && c.start.bytes <= newEnd.bytes && kids != []
    ensures VisitIsRight(c, kids[0], left.bytes, left.bytes + SumBytes(kids), Plan(c, newEnd, kids, left, isFirst)[0])
  {
  }

  /** Once the walk has stopped, every child lies behind the edit. */
  lemma StoppedVisitIsRight(c: Context, kids: seq<Tree>, left: Length, isFirst: bool, i: nat)
    requires i < |kids| && StopsAt(c, kids[0].info, left, isFirst)
    ensures VisitIsRight(c, kids[i], left.bytes + Offset(kids, i), left.bytes + SumBytes(kids), Keep)
  {
    OffsetMonotone(kids, 0, i);
  }

  lemma OffsetTail(kids: seq<Tree>, i: nat)
    requires 0 < i <= |kids|
    ensures Offset(kids, i) == TotalBytes(kids[0]) + Offset(kids[1..], i - 1)
  {
    assert kids[..i][1..] == kids[1..][..i - 1];
  }

  /** How each child's visit relates to where the child lies. */
  lemma {:induction false} PlanVisits(c: Context, newEnd: Length, kids: seq<Tree>, left: Length, isFirst: bool, i: nat)
    requires c.start.bytes <= c.oldEnd.bytes && c.start.bytes <= newEnd.bytes && i < |kids|
    ensures VisitIsRight(c, kids[i], left.bytes + Offset(kids, i), left.bytes + SumBytes(kids),
                         Plan(c, newEnd, kids, left, isFirst)[i])
    decreases |kids|
  {
    var right := Add(left, TotalSize(kids[0].info));
    if i == 0 {
      FirstVisitIsRight(c, newEnd, kids, left, isFirst);
    } else if !EndsBefore(c, kids[0].info, right) && StopsAt(c, kids[0].info, left, isFirst) {
      StoppedVisitIsRight(c, kids, left, isFirst, i);
    } else {
      PlanVisits(c, if !EndsBefore(c, kids[0].info, right) && Touches(c, right) then c.start else newEnd,
                 kids[1..], right, false, i - 1);
      OffsetTail(kids, i);
    }
  }

  /** A parent and its first child, which share their padding, are repadded alike. */
  lemma FirstPaddingAgrees(info: Info, kids: seq<Tree>, e: Edit)
    requires WellFormed(e) && !IsOutOfReach(info, e) && kids != []
    requires info.padding.bytes == kids[0].info.padding.bytes
    ensures EditedInfo(info, e).padding.bytes ==
            match PlanOf(info, kids, e)[0]
            case Keep => kids[0].info.padding.bytes
            case Touch(edit) => EditTree(kids[0], edit).info.padding.bytes
  {
    EditedBytes(info, e);
    match PlanOf(info, kids, e)[0]
    case Keep =>
    case Touch(edit) => EditedBytes(kids[0].info, edit);
  }

  /** Byte accounting survives every edit: parents still span exactly their children, first
      paddings still agree, and each node's total is `BytesAfter`. */
  lemma {:induction false} EditKeepsBytes(t: Tree, e: Edit)
    requires WellFormed(e) && Consistent(t)
    ensures Consistent(EditTree(t, e))
    ensures TotalBytes(EditTree(t, e)) == BytesAfter(t, e)
    decreases t
  {
    EditedTotal(t.info, e);
    if !IsOutOfReach(t.info, e) && t.kids != [] {
      var plan := PlanOf(t.info, t.kids, e);
      var r := EditTree(t, e);
      forall i | 0 <= i < |t.kids|
        ensures Consistent(r.kids[i])
        ensures plan[i].Touch? ==> TotalBytes(r.kids[i]) == BytesAfter(t.kids[i], plan[i].edit)
      {
        if plan[i].Touch? {
          PlanVisits(ContextOf(t.info, e), e.newEnd, t.kids, ZERO, true, i);
          EditKeepsBytes(t.kids[i], plan[i].edit);
        }
      }
      SumFollowsParent(ContextOf(t.info, e), e.newEnd, t.kids, ZERO, true, r.kids);
      FirstPaddingAgrees(t.info, t.kids, e);
    }
  }

  /** The root grows by exactly what was inserted minus what was deleted if and only if the
      deletion ends inside the tree (or lies wholly after it and changes no length). */
  lemma RootGrowsByInsertedMinusDeletedIff(t: Tree, e: Edit)
    requires WellFormed(e) && Consistent(t)
    ensures TotalBytes(EditTree(t, e)) == TotalBytes(t) + e.newEnd.bytes - e.oldEnd.bytes
       <==> || e.oldEnd.bytes <= TotalBytes(t)
            || (TotalBytes(t) <= e.start.bytes && e.newEnd.bytes == e.oldEnd.bytes)
  {
    EditKeepsBytes(t, e);
  }

  // ---- Reuse safety ----

  /** One past the last byte the lexer looked at for this node. */
  ghost function LookaheadEnd(t: Tree): nat {
    TotalBytes(t) + t.info.lookaheadBytes
  }

  /** Cached lookahead covers every child's, as a summary computes it. */
  ghost predicate LookaheadCovers(t: Tree) {
    && (forall i :: 0 <= i < |t.kids| ==> Offset(t.kids, i) + LookaheadEnd(t.kids[i]) <= LookaheadEnd(t))
    && (forall i :: 0 <= i < |t.kids| ==> LookaheadCovers(t.kids[i]))
  }

  ghost predicate Unmarked(t: Tree) {
    !t.info.hasChanges && forall i :: 0 <= i < |t.kids| ==> Unmarked(t.kids[i])
  }

  ghost predicate ColumnFree(t: Tree) {
    !t.info.dependsOnColumn && forall i :: 0 <= i < |t.kids| ==> ColumnFree(t.kids[i])
  }

  ghost predicate ReadyForEdit(t: Tree) {
    Consistent(t) && LookaheadCovers(t) && Unmarked(t)
  }

  lemma {:induction false} NodeIsCovered(t: Tree, path: Path)
    requires Consistent(t) && LookaheadCovers(t) && ValidPath(t, path)
    ensures StartAt(t, path) + TotalBytes(NodeAt(t, path)) <= TotalBytes(t)
    ensures StartAt(t, path) + LookaheadEnd(NodeAt(t, path)) <= LookaheadEnd(t)
    decreases t, |path|
  {
    if path != [] {
      OffsetStep(t.kids, path[0]);
      NodeIsCovered(t.kids[path[0]], path[1..]);
    }
  }

  /** Something lies before the node in its own parent. */
  ghost predicate Preceded(t: Tree, path: Path)
    requires ValidPath(t, path)
    decreases |path|
  {
    path != [] && if |path| == 1 then Offset(t.kids, path[0]) > 0 else Preceded(t.kids[path[0]], path[1..])
  }

  /** An edit cannot slip past the node: the lexer looked at some byte to produce it, or it is at
      the very start, or something precedes it in its parent. */
  ghost predicate Guarded(t: Tree, path: Path)
    requires ValidPath(t, path)
  {
    LookaheadEnd(NodeAt(t, path)) > 0 || StartAt(t, path) == 0 || Preceded(t, path)
  }

  lemma {:induction false} PrecededStarts(t: Tree, path: Path)
    requires ValidPath(t, path) && Preceded(t, path)
    ensures StartAt(t, path) > 0
    decreases |path|
  {
    if |path| > 1 {
      PrecededStarts(t.kids[path[0]], path[1..]);
    }
  }

  lemma {:induction false} UnmarkedAt(t: Tree, path: Path)
    requires Unmarked(t) && ValidPath(t, path)
    ensures !NodeAt(t, path).info.hasChanges
    decreases |path|
  {
    if path != [] {
      UnmarkedAt(t.kids[path[0]], path[1..]);
    }
  }

  /** In old coordinates, the node at `path` ends, lookahead included, at or before the edit or
      begins at or after the deleted text. At the very end of the tree only an empty node may. */
  ghost predicate OutsideEdit(t: Tree, path: Path, e: Edit)
    requires ValidPath(t, path)
  {
    var start, end := StartAt(t, path), LookaheadEnd(NodeAt(t, path));
    || start + end <= e.start.bytes
    || (e.oldEnd.bytes <= start && (e.oldEnd.bytes < TotalBytes(t) || end == 0))
  }

  lemma {:induction false} EditKeepsPaths(t: Tree, e: Edit, path: Path)
    requires ValidPath(t, path)
    ensures ValidPath(EditTree(t, e), path)
    decreases |path|
  {
    if !IsOutOfReach(t.info, e) && path != [] {
      match PlanOf(t.info, t.kids, e)[path[0]] {
        case Keep => assert EditTree(t, e).kids[path[0]] == t.kids[path[0]];
        case Touch(edit) => EditKeepsPaths(t.kids[path[0]], edit, path[1..]);
      }
    }
  }

  /** If the edit leaves the node unmarked, it is the very subtree it was, outside the edit. */
  ghost predicate IsSafe(t: Tree, path: Path, e: Edit)
    requires ValidPath(t, path) && ValidPath(EditTree(t, e), path)
  {
    !NodeAt(EditTree(t, e), path).info.hasChanges ==>
      NodeAt(EditTree(t, e), path) == NodeAt(t, path) && OutsideEdit(t, path, e)
  }

  /** From a child that begins at `l` to its parent: a node that begins at `s` in the child and ends,
      lookahead included, `n` bytes on. */
  lemma OutsideFromChild(start: nat, oldEnd: nat, total: nat, l: nat, kidTotal: nat, edit: Edit, s: nat, n: nat)
    requires start <= oldEnd && l + kidTotal <= total && s <= kidTotal
    requires edit.start.bytes == Monus(start, l)
    requires || edit.oldEnd.bytes == Monus(oldEnd, l)
             || (edit.oldEnd.bytes == edit.start.bytes && l + kidTotal <= start)
    requires || s + n <= edit.start.bytes
             || (edit.oldEnd.bytes <= s && (edit.oldEnd.bytes < kidTotal || n == 0))
    requires start < l && s + n == 0 ==> edit.oldEnd.bytes == 0
    ensures l + s + n <= start || (oldEnd <= l + s && (oldEnd < total || n == 0))
  {
  }

  /** What is outside a child's edit is outside the parent's. */
  lemma OutsideChildEdit(t: Tree, e: Edit, path: Path, edit: Edit)
    requires WellFormed(e) && Consistent(t) && LookaheadCovers(t) && ValidPath(t, path) && path != []
    requires PlanOf(t.info, t.kids, e)[path[0]] == Touch(edit) && Guarded(t, path)
    requires OutsideEdit(t.kids[path[0]], path[1..], edit)
    requires |path| == 1 ==> IsOutOfReach(t.kids[path[0]].info, edit)
    ensures OutsideEdit(t, path, e)
  {
    var i, rest := path[0], path[1..];
    var l, kid := Offset(t.kids, i), t.kids[i];
    var s, n := StartAt(kid, rest), LookaheadEnd(NodeAt(kid, rest));
    PlanVisits(ContextOf(t.info, e), e.newEnd, t.kids, ZERO, true, i);
    OffsetStep(t.kids, i);
    NodeIsCovered(kid, rest);
    if e.start.bytes < l && s + n == 0 {
      assert StartAt(t, path) == l && Preceded(t, path);
      if |path| > 1 {
        PrecededStarts(kid, rest);
        assert false;
      }
    }
    OutsideFromChild(e.start.bytes, e.oldEnd.bytes, TotalBytes(t), l, TotalBytes(kid), edit, s, n);
  }

  lemma KeptNodeIsSafe(t: Tree, e: Edit, path: Path)
    requires WellFormed(e) && ReadyForEdit(t) && ValidPath(t, path) && path != [] && !IsOutOfReach(t.info, e)
    requires PlanOf(t.info, t.kids, e)[path[0]].Keep? && ValidPath(EditTree(t, e), path)
    ensures IsSafe(t, path, e)
  {
    var i, rest := path[0], path[1..];
    OffsetStep(t.kids, i);
    PlanVisits(ContextOf(t.info, e), e.newEnd, t.kids, ZERO, true, i);
    NodeIsCovered(t.kids[i], rest);
    assert EditTree(t, e).kids[i] == t.kids[i];
  }

  lemma TouchedNodeIsSafe(t: Tree, e: Edit, path: Path, edit: Edit)
    requires WellFormed(e) && ReadyForEdit(t) && ValidPath(t, path) && path != [] && !IsOutOfReach(t.info, e)
    requires PlanOf(t.info, t.kids, e)[path[0]] == Touch(edit) && Guarded(t, path)
    requires ValidPath(EditTree(t.kids[path[0]], edit), path[1..]) && IsSafe(t.kids[path[0]], path[1..], edit)
    ensures ValidPath(EditTree(t, e), path) && IsSafe(t, path, e)
  {
    var kid, rest := t.kids[path[0]], path[1..];
    assert EditTree(t, e).kids[path[0]] == EditTree(kid, edit);
    if !NodeAt(EditTree(kid, edit), rest).info.hasChanges {
      assert rest == [] ==> IsOutOfReach(kid.info, edit);
      OutsideChildEdit(t, e, path, edit);
    }
  }

  /** Reuse safety: after an edit every guarded node that is not marked as changed is the very
      subtree that was there before, and it ends, lookahead included, at or before the edit or
      begins at or after the deleted text. */
  lemma {:induction false} UnmarkedNodesAreReusable(t: Tree, e: Edit, path: Path)
    requires WellFormed(e) && ReadyForEdit(t) && ValidPath(t, path) && Guarded(t, path)
    ensures ValidPath(EditTree(t, e), path) && IsSafe(t, path, e)
    decreases |path|
  {
    EditKeepsPaths(t, e, path);
    if IsOutOfReach(t.info, e) {
      NodeIsCovered(t, path);
    } else if path != [] {
      match PlanOf(t.info, t.kids, e)[path[0]] {
        case Keep =>
          KeptNodeIsSafe(t, e, path);
        case Touch(edit) =>
          PlanVisits(ContextOf(t.info, e), e.newEnd, t.kids, ZERO, true, path[0]);
          UnmarkedNodesAreReusable(t.kids[path[0]], edit, path[1..]);
          TouchedNodeIsSafe(t, e, path, edit);
      }
    }
  }

  /** Precision: when nothing depends on its column, only nodes whose text or lookahead meets
      the edit are marked. */
  lemma {:induction false} MarkedNodesMeetTheEdit(t: Tree, e: Edit, path: Path)
    requires WellFormed(e) && ReadyForEdit(t) && ColumnFree(t) && ValidPath(t, path)
    requires ValidPath(EditTree(t, e), path) && NodeAt(EditTree(t, e), path).info.hasChanges
    ensures e.start.bytes <= StartAt(t, path) + LookaheadEnd(NodeAt(t, path))
    ensures StartAt(t, path) <= e.oldEnd.bytes
    decreases |path|
  {
    UnmarkedAt(t, path);
    if path != [] {
      var i, rest := path[0], path[1..];
      PlanVisits(ContextOf(t.info, e), e.newEnd, t.kids, ZERO, true, i);
      UnmarkedAt(t.kids[i], rest);
      match PlanOf(t.info, t.kids, e)[i] {
        case Keep =>
        case Touch(edit) =>
          assert EditTree(t, e).kids[i] == EditTree(t.kids[i], edit);
          MarkedNodesMeetTheEdit(t.kids[i], edit, rest);
      }
    }
  }

  /** A deletion from the start on that ends just behind where the node begins, or one of nothing
      as it is seen further down. */
  ghost predicate EndsBehind(t: Tree, path: Path, e: Edit)
    requires ValidPath(t, path)
  {
    && e.start.bytes == 0 && e.newEnd.bytes == 0
    && (e.oldEnd.bytes == StartAt(t, path) + 1 || (e.oldEnd.bytes == 0 && StartAt(t, path) == 0))
  }

  /** How the child on the way to such a node sees the deletion. */
  lemma {:induction false} DeletionReachesChild(c: Context, newEnd: Length, kids: seq<Tree>, left: Length,
                                                isFirst: bool, i: nat)
    requires c.start.bytes == 0 && newEnd.bytes == 0 && i < |kids|
    requires left.bytes + Offset(kids, i) < c.oldEnd.bytes || left.bytes + Offset(kids, i) == c.oldEnd.bytes == 0
    ensures var visit := Plan(c, newEnd, kids, left, isFirst)[i];
            var l := left.bytes + Offset(kids, i);
            visit.Touch? ==>
              && visit.edit.start.bytes == 0 && visit.edit.newEnd.bytes == 0
              && visit.edit.oldEnd.bytes == if l + TotalBytes(kids[i]) > 0 then c.oldEnd.bytes - l else 0
    decreases |kids|
  {
    var right := Add(left, TotalSize(kids[0].info));
    if i > 0 {
      OffsetTail(kids, i);
      if !StopsAt(c, kids[0].info, left, isFirst) {
        DeletionReachesChild(c, if Touches(c, right) then c.start else newEnd, kids[1..], right, false, i - 1);
      }
    }
  }

  /** A node that is not guarded stays unmarked however deep it lies. */
  lemma {:induction false} UnguardedEscapes(t: Tree, e: Edit, path: Path)
    requires Consistent(t) && LookaheadCovers(t) && Unmarked(t) && ValidPath(t, path) && path != []
    requires LookaheadEnd(NodeAt(t, path)) == 0 && !Preceded(t, path) && EndsBehind(t, path, e)
    ensures ValidPath(EditTree(t, e), path) && !NodeAt(EditTree(t, e), path).info.hasChanges
    decreases |path|
  {
    EditKeepsPaths(t, e, path);
    UnmarkedAt(t, path);
    if !IsOutOfReach(t.info, e) {
      var i, rest := path[0], path[1..];
      var kid := t.kids[i];
      DeletionReachesChild(ContextOf(t.info, e), e.newEnd, t.kids, ZERO, true, i);
      NodeIsCovered(kid, rest);
      UnmarkedAt(kid, rest);
      match PlanOf(t.info, t.kids, e)[i] {
        case Keep =>
          assert EditTree(t, e).kids[i] == kid;
        case Touch(edit) =>
          assert EditTree(t, e).kids[i] == EditTree(kid, edit);
          if rest != [] {
            UnguardedEscapes(kid, edit, rest);
          }
      }
    }
  }

  /** Exactly the guarded nodes are safe from every edit. The others are the empty ones, produced
      without looking at a byte, that begin their parent but not the text: they stay unmarked when
      the text around them is deleted. */
  lemma NodeIsSafeIff(t: Tree, path: Path)
    requires ReadyForEdit(t) && ValidPath(t, path)
    ensures forall e :: ValidPath(EditTree(t, e), path)
    ensures (forall e :: WellFormed(e) ==> IsSafe(t, path, e)) <==> Guarded(t, path)
  {
    forall e
      ensures ValidPath(EditTree(t, e), path)
      ensures WellFormed(e) && Guarded(t, path) ==> IsSafe(t, path, e)
    {
      EditKeepsPaths(t, e, path);
      if WellFormed(e) && Guarded(t, path) {
        UnmarkedNodesAreReusable(t, e, path);
      }
    }
    if !Guarded(t, path) {
      var e := Edit(ZERO, Length(StartAt(t, path) + 1, Point(0, 0)), ZERO);
      UnguardedEscapes(t, e, path);
      assert !OutsideEdit(t, path, e) && !IsSafe(t, path, e);
    }
  }

  /** A tree as it comes from the parser, of `bytes` bytes, nothing of it looked ahead for. */
  ghost predicate IsPlain(t: Tree, bytes: nat) {
    && t.info.padding == ZERO && t.info.size.bytes == bytes
    && t.info.lookaheadBytes == 0 && !t.info.hasChanges
  }

  /** Text of `m` bytes, and a phrase of `n` bytes that begins with an empty token. */
  ghost predicate BeginsEmpty(t: Tree, word: Tree, phrase: Tree, empty: Tree, rest: Tree, m: nat, n: nat) {
    && t.kids == [word, phrase] && phrase.kids == [empty, rest]
    && word.kids == empty.kids == rest.kids == []
    && IsPlain(word, m) && IsPlain(empty, 0) && IsPlain(rest, n) && IsPlain(phrase, n) && IsPlain(t, m + n)
  }

  lemma PairIsReady(t: Tree, a: Tree, b: Tree, m: nat, n: nat)
    requires t.kids == [a, b] && ReadyForEdit(a) && ReadyForEdit(b)
    requires IsPlain(a, m) && IsPlain(b, n) && IsPlain(t, m + n)
    ensures ReadyForEdit(t) && Offset(t.kids, 0) == 0 && Offset(t.kids, 1) == m
  {
    OffsetStep(t.kids, 0);
    OffsetStep(t.kids, 1);
    assert t.kids[2..] == [];
  }

  /** Trees ready for edits may well hold a node that escapes: an empty token, for which nothing was
      looked at, at the start of a phrase behind other text. */
  lemma EmptyFirstEscapes(t: Tree, word: Tree, phrase: Tree, empty: Tree, rest: Tree, m: nat, n: nat)
    requires BeginsEmpty(t, word, phrase, empty, rest, m, n) && m > 0
    ensures ReadyForEdit(t) && ValidPath(t, [1, 0]) && NodeAt(t, [1, 0]) == empty && !Guarded(t, [1, 0])
    ensures exists e :: WellFormed(e) && ValidPath(EditTree(t, e), [1, 0]) && !IsSafe(t, [1, 0], e)
  {
    PairIsReady(phrase, empty, rest, 0, n);
    PairIsReady(t, word, phrase, m, n);
    assert [1, 0][1..] == [0] && [0][1..] == [];
    NodeIsSafeIff(t, [1, 0]);
  }

  lemma SomeBeginEmpty()
    ensures exists t, word, phrase, empty, rest, m, n ::
              BeginsEmpty(t, word, phrase, empty, rest, m, n) && m > 0
  {
    var word, empty, rest := PlainToken(1, 3), PlainToken(2, 0), PlainToken(3, 1);
    var phrase := Tree(PlainInfo(false, 4, 1), [empty, rest]);
    var t := Tree(PlainInfo(false, 5, 4), [word, phrase]);
    assert BeginsEmpty(t, word, phrase, empty, rest, 3, 1);
  }
}
