/** Rows and columns of an edit: if the points given with an edit are where its bytes lie in the text
    that the tree measures, they agree with the bytes at every node the edit reaches, so the edited
    tree can still be walked. For subtree.c:633-786, tree_cursor.c:165-179. */
module TextPoints {
  import opened Lengths
  import opened SyntaxTrees
  import opened EditSpec
  import opened EditProperties
  import opened Summaries
  import opened CursorSpec
  import opened CachesInMemory

  /** Where each byte of a text lies. */
  type Text = nat -> Point

  ghost predicate InOrder(text: Text, a: nat, b: nat) {
    a <= b ==> PointLte(text(a), text(b))
  }

  ghost predicate IsText(text: Text) {
    text(0) == Point(0, 0) && forall a: nat, b: nat {:trigger InOrder(text, a, b)} :: InOrder(text, a, b)
  }

  /** The length of the text between two bytes. */
  ghost function Stretch(text: Text, from: nat, to: nat): Length
    requires from <= to
  {
    Length(to - from, PointSub(text(to), text(from)))
  }

  lemma StretchesAdd(text: Text, a: nat, b: nat, c: nat, x: Length, y: Length)
    requires IsText(text) && a <= b <= c && x == Stretch(text, a, b) && y == Stretch(text, b, c)
    ensures Add(x, y) == Stretch(text, a, c)
  {
    assert InOrder(text, a, b) && InOrder(text, b, c) && InOrder(text, a, c);
  }

  /** A position seen from further on; one that lies before is seen at the start. */
  lemma StretchSeenFrom(text: Text, a: nat, l: nat, s: nat)
    requires IsText(text) && a <= l && a <= s
    ensures SaturatingSub(Stretch(text, a, s), Stretch(text, a, l)) == Stretch(text, l, if s > l then s else l)
  {
    assert InOrder(text, a, l) && InOrder(text, a, s) && InOrder(text, l, if s > l then s else l);
  }

  /** The tree measures the text from byte `at` on. */
  ghost predicate Measures(text: Text, t: Tree, at: nat)
    decreases t, 1
  {
    && t.info.padding == Stretch(text, at, at + t.info.padding.bytes)
    && t.info.size == Stretch(text, at + t.info.padding.bytes, at + TotalBytes(t))
    && forall i: nat {:trigger MeasuresKid(text, t.kids, at, i)} :: i < |t.kids| ==> MeasuresKid(text, t.kids, at, i)
  }

  ghost predicate MeasuresKid(text: Text, kids: seq<Tree>, at: nat, i: nat)
    requires i < |kids|
    decreases kids, 0
  {
    Measures(text, kids[i], at + Offset(kids, i))
  }

  lemma TotalIsStretch(text: Text, t: Tree, at: nat, end: nat)
    requires IsText(text) && Measures(text, t, at) && end == at + TotalBytes(t)
    ensures TotalSize(t.info) == Stretch(text, at, end)
  {
    StretchesAdd(text, at, at + t.info.padding.bytes, end, t.info.padding, t.info.size);
  }

  /** The points of an edit are where its bytes lie in the text from `at` on. Of what is inserted it
      matters only whether it is nothing. */
  ghost predicate PointsAt(text: Text, at: nat, e: Edit) {
    && e.start == Stretch(text, at, at + e.start.bytes) && e.oldEnd == Stretch(text, at, at + e.oldEnd.bytes)
    && (e.newEnd.bytes == e.start.bytes ==> e.newEnd == e.start)
  }

  lemma NothingSeen(a: Length, l: Length, b: Length)
    requires a.bytes == b.bytes ==> a == b
    ensures SaturatingSub(a, l).bytes == SaturatingSub(b, l).bytes && b.bytes <= a.bytes ==>
              SaturatingSub(a, l) == SaturatingSub(b, l)
  {
  }

  /** Seen from a child, the points still lie where the bytes do. */
  lemma ChildPointsAt(text: Text, at: nat, l: nat, c: Context, newEnd: Length, left: Length, right: Length)
    requires IsText(text) && at <= l && left == Stretch(text, at, l)
    requires PointsAt(text, at, Edit(c.start, c.oldEnd, newEnd)) && c.start.bytes <= newEnd.bytes
    ensures PointsAt(text, l, ChildEdit(c, newEnd, left, right))
  {
    StretchSeenFrom(text, at, l, at + c.start.bytes);
    StretchSeenFrom(text, at, l, at + c.oldEnd.bytes);
    NothingSeen(newEnd, left, c.start);
  }

  ghost predicate MeasuredFrom(text: Text, kids: seq<Tree>, at: nat) {
    forall i: nat {:trigger MeasuresKid(text, kids, at, i)} :: i < |kids| ==> MeasuresKid(text, kids, at, i)
  }

  lemma MeasuredTail(text: Text, kids: seq<Tree>, at: nat, next: nat)
    requires kids != [] && MeasuredFrom(text, kids, at) && next == at + TotalBytes(kids[0])
    ensures Measures(text, kids[0], at) && MeasuredFrom(text, kids[1..], next)
  {
    assert kids[..0] == [] && MeasuresKid(text, kids, at, 0);
    var rest := kids[1..];
    forall i: nat | i < |rest|
      ensures MeasuresKid(text, rest, next, i)
    {
      OffsetTail(kids, i + 1);
      assert MeasuresKid(text, kids, at, i + 1) && rest[i] == kids[i + 1];
    }
  }

  /** What each child sees, when the first of `kids` begins at byte `l`. */
  lemma {:induction false} PlanPointsAt(text: Text, at: nat, l: nat, c: Context, newEnd: Length, kids: seq<Tree>,
                                        left: Length, isFirst: bool, i: nat)
    requires IsText(text) && at <= l && left == Stretch(text, at, l) && MeasuredFrom(text, kids, l) && i < |kids|
    requires PointsAt(text, at, Edit(c.start, c.oldEnd, newEnd)) && c.start.bytes <= newEnd.bytes
    ensures Plan(c, newEnd, kids, left, isFirst)[i].Touch? ==>
              PointsAt(text, l + Offset(kids, i), Plan(c, newEnd, kids, left, isFirst)[i].edit)
    decreases |kids|
  {
    var right, next := Add(left, TotalSize(kids[0].info)), l + TotalBytes(kids[0]);
    MeasuredTail(text, kids, l, next);
    TotalIsStretch(text, kids[0], l, next);
    StretchesAdd(text, at, l, next, left, TotalSize(kids[0].info));
    if EndsBefore(c, kids[0].info, right) || !StopsAt(c, kids[0].info, left, isFirst) {
      if i == 0 {
        assert kids[..0] == [];
        ChildPointsAt(text, at, l, c, newEnd, left, right);
      } else {
        var newEnd' := if !EndsBefore(c, kids[0].info, right) && Touches(c, right) then c.start else newEnd;
        PlanPointsAt(text, at, next, c, newEnd', kids[1..], right, false, i - 1);
        OffsetTail(kids, i);
      }
    }
  }

  lemma {:induction false} PlanIsGrounded(c: Context, newEnd: Length, kids: seq<Tree>, left: Length, isFirst: bool,
                                          i: nat)
    requires i < |kids|
    ensures var visit := Plan(c, newEnd, kids, left, isFirst)[i]; visit.Touch? ==> Grounded(visit.edit.newEnd)
    decreases |kids|
  {
    var right := Add(left, TotalSize(kids[0].info));
    if i > 0 && (EndsBefore(c, kids[0].info, right) || !StopsAt(c, kids[0].info, left, isFirst)) {
      PlanIsGrounded(c, if !EndsBefore(c, kids[0].info, right) && Touches(c, right) then c.start else newEnd,
                     kids[1..], right, false, i - 1);
    }
  }

  lemma AgreedHere(text: Text, t: Tree, at: nat, e: Edit)
    requires IsText(text) && Measures(text, t, at) && WellFormed(e) && PointsAt(text, at, e) && Grounded(e.newEnd)
    ensures Agreed(t.info, e)
  {
  }

  lemma KidPointsAt(text: Text, t: Tree, at: nat, e: Edit, i: nat)
    requires IsText(text) && Measures(text, t, at) && WellFormed(e) && PointsAt(text, at, e)
    requires i < |t.kids| && PlanOf(t.info, t.kids, e)[i].Touch?
    ensures var edit := PlanOf(t.info, t.kids, e)[i].edit;
            WellFormed(edit) && Grounded(edit.newEnd) && PointsAt(text, at + Offset(t.kids, i), edit)
  {
    var c := ContextOf(t.info, e);
    PlanVisits(c, e.newEnd, t.kids, ZERO, true, i);
    assert Stretch(text, at, at) == ZERO;
    PlanPointsAt(text, at, at, c, e.newEnd, t.kids, ZERO, true, i);
    PlanIsGrounded(c, e.newEnd, t.kids, ZERO, true, i);
  }

  /** Then they agree with the bytes wherever the edit goes. */
  lemma {:induction false} PointsAgreeEverywhere(text: Text, t: Tree, at: nat, e: Edit)
    requires IsText(text) && Measures(text, t, at) && WellFormed(e) && PointsAt(text, at, e) && Grounded(e.newEnd)
    ensures PointsAgree(t, e)
    decreases t
  {
    if !IsOutOfReach(t.info, e) {
      AgreedHere(text, t, at, e);
      var plan := PlanOf(t.info, t.kids, e);
      forall i | 0 <= i < |t.kids| && plan[i].Touch?
        ensures PointsAgree(t.kids[i], plan[i].edit)
      {
        KidPointsAt(text, t, at, e, i);
        assert MeasuresKid(text, t.kids, at, i);
        PointsAgreeEverywhere(text, t.kids[i], at + Offset(t.kids, i), plan[i].edit);
      }
    }
  }

  /** A tree that measures a text, edited with the points that its bytes have in that text, can be
      walked with a cursor. */
  lemma EditedIsWalkable(lang: Language, text: Text, t: Tree, e: Edit)
    requires IsText(text) && Measures(text, t, 0) && AllCounted(lang, t)
    requires WellFormed(e) && PointsAt(text, 0, e)
    ensures AllCounted(lang, EditTree(t, e))
  {
    assert e.newEnd.bytes == 0 ==> e.start.bytes == 0;
    PointsAgreeEverywhere(text, t, 0, e);
    EditKeepsWalkable(lang, t, e);
  }
}
