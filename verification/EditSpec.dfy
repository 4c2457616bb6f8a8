/** What one text edit does to the value of a tree. Models ts_subtree_edit (subtree.c:633-786)
    with the pointer work left to TreeStore.TreeEdit, which is proved to compute it. */
module EditSpec {
  import opened Lengths
  import opened SyntaxTrees

  datatype Edit = Edit(start: Length, oldEnd: Length, newEnd: Length)

  /** What the API asks of its callers, in bytes. */
  predicate WellFormed(e: Edit) {
    e.start.bytes <= e.oldEnd.bytes && e.start.bytes <= e.newEnd.bytes
  }

  const MAX_INLINE: nat := 255

  predicate CanInline(padding: Length, size: Length, lookaheadBytes: nat) {
    && padding.bytes < MAX_INLINE
    && padding.extent.row < 16
    && padding.extent.column < MAX_INLINE
    && size.bytes < MAX_INLINE
    && size.extent.row == 0
    && size.extent.column < MAX_INLINE
    && lookaheadBytes < 16
  }

  predicate IsPureInsertion(e: Edit) {
    e.oldEnd.bytes == e.start.bytes
  }

  predicate IsNoop(e: Edit) {
    e.oldEnd.bytes == e.start.bytes && e.newEnd.bytes == e.start.bytes
  }

  /** The edit lies beyond everything the lexer looked at while producing this node. */
  predicate IsOutOfReach(info: Info, e: Edit) {
    var endByte := TotalSize(info).bytes + info.lookaheadBytes;
    e.start.bytes > endByte || (IsNoop(e) && e.start.bytes == endByte)
  }

  predicate ResizesContent(info: Info, e: Edit) {
    || e.start.bytes < TotalSize(info).bytes
    || (e.start.bytes == TotalSize(info).bytes && IsPureInsertion(e))
  }

  function ReshapedPadding(info: Info, e: Edit): Length {
    if e.oldEnd.bytes <= info.padding.bytes then Add(e.newEnd, Sub(info.padding, e.oldEnd))
    else if e.start.bytes < info.padding.bytes then e.newEnd
    else info.padding
  }

  function ReshapedSize(info: Info, e: Edit): Length {
    if e.oldEnd.bytes <= info.padding.bytes then info.size
    else if e.start.bytes < info.padding.bytes then SaturatingSub(info.size, Sub(e.oldEnd, info.padding))
    else if ResizesContent(info, e) then
      Add(Sub(e.newEnd, info.padding), SaturatingSub(TotalSize(info), e.oldEnd))
    else info.size
  }

  /** An inline leaf keeps no column for its size: it is one row, one column a byte. */
  function InlineSize(size: Length): Length {
    Length(size.bytes, Point(0, size.bytes))
  }

  function EditedInfo(info: Info, e: Edit): Info {
    var padding, size := ReshapedPadding(info, e), ReshapedSize(info, e);
    var fits := CanInline(padding, size, info.lookaheadBytes);
    info.(isInline := info.isInline && fits,
          padding := padding,
          size := if info.isInline && fits then InlineSize(size) else size,
          hasChanges := true)
  }

  datatype Visit = Keep | Touch(edit: Edit)

  /** Facts about the parent's edit that stay fixed while its children are visited. */
  datatype Context = Context(start: Length, oldEnd: Length, columnShifted: bool, dependsOnColumn: bool, row: nat)

  predicate StopsAt(c: Context, kid: Info, left: Length, isFirst: bool) {
    && (|| left.bytes > c.oldEnd.bytes
        || (left.bytes == c.oldEnd.bytes && TotalSize(kid).bytes > 0 && !isFirst))
    && (!c.dependsOnColumn || left.extent.row > c.row)
    && (!kid.dependsOnColumn || !c.columnShifted || left.extent.row > c.oldEnd.extent.row)
  }

  predicate EndsBefore(c: Context, kid: Info, right: Length) {
    right.bytes + kid.lookaheadBytes < c.start.bytes
  }

  predicate Touches(c: Context, right: Length) {
    || right.bytes > c.start.bytes
    || (right.bytes == c.start.bytes && c.oldEnd.bytes == c.start.bytes)
  }

  /** The edit as seen from a child that begins at `left`. */
  function ChildEdit(c: Context, newEnd: Length, left: Length, right: Length): Edit {
    var start := SaturatingSub(c.start, left);
    if Touches(c, right) then
      Edit(start, SaturatingSub(c.oldEnd, left), SaturatingSub(newEnd, left))
    else
      Edit(start, start, start)
  }

  /** The visit each child gets. `newEnd` shrinks to the edit's start once a child has
      received the inserted text. */
  function Plan(c: Context, newEnd: Length, kids: seq<Tree>, left: Length, isFirst: bool): (plan: seq<Visit>)
    ensures |plan| == |kids|
    decreases |kids|
  {
    if kids == [] then []
    else
      var right := Add(left, TotalSize(kids[0].info));
      if EndsBefore(c, kids[0].info, right) then
        [Keep] + Plan(c, newEnd, kids[1..], right, false)
      else if StopsAt(c, kids[0].info, left, isFirst) then
        seq(|kids|, _ => Keep)
      else
        [Touch(ChildEdit(c, newEnd, left, right))] +
        Plan(c, if Touches(c, right) then c.start else newEnd, kids[1..], right, false)
  }

  function ContextOf(info: Info, e: Edit): Context {
    Context(e.start, e.oldEnd, e.newEnd.extent.column != e.oldEnd.extent.column,
            info.dependsOnColumn, EditedInfo(info, e).padding.extent.row)
  }

  function PlanOf(info: Info, kids: seq<Tree>, e: Edit): (plan: seq<Visit>)
    ensures |plan| == |kids|
  {
    Plan(ContextOf(info, e), e.newEnd, kids, ZERO, true)
  }

  function EditTree(t: Tree, e: Edit): (r: Tree)
    ensures |r.kids| == |t.kids|
    decreases t
  {
    if IsOutOfReach(t.info, e) then t
    else
      var plan := PlanOf(t.info, t.kids, e);
      Tree(EditedInfo(t.info, e),
           seq(|t.kids|, i requires 0 <= i < |t.kids| =>
             match plan[i]
             case Keep => t.kids[i]
             case Touch(edit) => EditTree(t.kids[i], edit)))
  }
}
