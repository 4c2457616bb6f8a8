/** How an edit moves the included ranges of a tree: text before it stays where it is, text
    behind it moves along, and inserted text belongs to whatever range spans the old text's end.
    Models the loop of ts_tree_edit (tree.c:56-88); bytes wrap at 32 bits as in the code. */
module IncludedRanges {
  import opened Lengths
  import opened EditSpec
  import opened RangeDifferences

  const UINT32_RANGE: nat := 0x1_0000_0000

  /** A position behind the edit, moved; if the sum wraps around, the end of all text. */
  function Shifted(position: Length, e: Edit): Length
    requires e.oldEnd.bytes <= position.bytes
  {
    var bytes := (e.newEnd.bytes + (position.bytes - e.oldEnd.bytes)) % UINT32_RANGE;
    if bytes < e.newEnd.bytes then LENGTH_MAX
    else Length(bytes, PointAdd(e.newEnd.extent, PointSub(position.extent, e.oldEnd.extent)))
  }

  function EditedEnd(end: Length, e: Edit): Length {
    if end.bytes >= e.oldEnd.bytes then (if end.bytes == UINT32_MAX then end else Shifted(end, e))
    else if end.bytes > e.start.bytes then e.start
    else end
  }

  function EditedStart(start: Length, e: Edit): Length {
    if start.bytes >= e.oldEnd.bytes then Shifted(start, e)
    else if start.bytes > e.start.bytes then e.start
    else start
  }

  function EditedRange(range: Range, e: Edit): Range {
    Range(EditedStart(range.start, e), EditedEnd(range.end, e))
  }

  function EditedRanges(ranges: seq<Range>, e: Edit): (edited: seq<Range>)
    ensures |edited| == |ranges| && forall i :: 0 <= i < |ranges| ==> edited[i] == EditedRange(ranges[i], e)
  {
    seq(|ranges|, i requires 0 <= i < |ranges| => EditedRange(ranges[i], e))
  }

  /** An edit of text that 32 bits can address. */
  predicate Addressable(e: Edit) {
    WellFormed(e) && e.oldEnd.bytes <= UINT32_MAX && e.newEnd.bytes <= UINT32_MAX
  }

  /** The wrap-around test is exact: a shift saturates at the end of all text. */
  lemma ShiftSaturates(position: Length, e: Edit)
    requires Addressable(e) && e.oldEnd.bytes <= position.bytes <= UINT32_MAX
    ensures var sum := e.newEnd.bytes + (position.bytes - e.oldEnd.bytes);
            Shifted(position, e).bytes == if sum <= UINT32_MAX then sum else UINT32_MAX
  {
    var sum := e.newEnd.bytes + (position.bytes - e.oldEnd.bytes);
    if sum > UINT32_MAX {
      assert sum % UINT32_RANGE == sum - UINT32_RANGE;
    }
  }

  /** Where one range lies after the edit, byte by byte. */
  lemma EditedRangeCovers(range: Range, e: Edit, byte: nat)
    requires Addressable(e) && range.start.bytes <= range.end.bytes <= UINT32_MAX && range.start.bytes < UINT32_MAX
    ensures var edited := EditedRange(range, e);
            var covered := edited.start.bytes <= byte < edited.end.bytes;
            && (byte < e.start.bytes ==> (covered <==> range.start.bytes <= byte < range.end.bytes))
            && (e.start.bytes <= byte < e.newEnd.bytes ==>
                  (covered <==> range.start.bytes < e.oldEnd.bytes <= range.end.bytes))
            && (e.newEnd.bytes <= byte < UINT32_MAX ==>
                  var old' := byte - e.newEnd.bytes + e.oldEnd.bytes;
                  old' < UINT32_MAX ==> (covered <==> range.start.bytes <= old' < range.end.bytes))
  {
    if range.start.bytes >= e.oldEnd.bytes {
      ShiftSaturates(range.start, e);
    }
    if range.end.bytes >= e.oldEnd.bytes {
      ShiftSaturates(range.end, e);
    }
  }

  /** Does some range begin before the deleted text's end and reach it? */
  predicate Spanned(ranges: seq<Range>, e: Edit) {
    exists i :: 0 <= i < |ranges| && ranges[i].start.bytes < e.oldEnd.bytes <= ranges[i].end.bytes
  }

  /** What is included after an edit: before it what was, behind it what was, moved along, and the
      inserted text exactly if a range spans the end of what it replaced. */
  lemma EditMovesRanges(ranges: seq<Range>, e: Edit, byte: nat)
    requires Sorted(ranges) && Addressable(e) && byte < UINT32_MAX
    ensures byte < e.start.bytes ==> (Covers(EditedRanges(ranges, e), byte) <==> Covers(ranges, byte))
    ensures e.start.bytes <= byte < e.newEnd.bytes ==> (Covers(EditedRanges(ranges, e), byte) <==> Spanned(ranges, e))
    ensures e.newEnd.bytes <= byte && byte - e.newEnd.bytes + e.oldEnd.bytes < UINT32_MAX ==>
              (Covers(EditedRanges(ranges, e), byte) <==> Covers(ranges, byte - e.newEnd.bytes + e.oldEnd.bytes))
  {
    var edited := EditedRanges(ranges, e);
    forall i | 0 <= i < |ranges|
      ensures EditsRight(ranges[i], edited[i], e, byte)
    {
      EditedRangeCovers(ranges[i], e, byte);
    }
    if byte < e.start.bytes {
      CoversAlike(ranges, edited, byte, byte, e);
    } else if byte < e.newEnd.bytes {
      SpansAlike(ranges, edited, byte, e);
    } else {
      CoversAlike(ranges, edited, byte - e.newEnd.bytes + e.oldEnd.bytes, byte, e);
    }
  }

  predicate InRange(range: Range, byte: nat) {
    range.start.bytes <= byte < range.end.bytes
  }

  ghost predicate EditsRight(range: Range, edited: Range, e: Edit, byte: nat) {
    && (byte < e.start.bytes ==> (InRange(edited, byte) <==> InRange(range, byte)))
    && (e.start.bytes <= byte < e.newEnd.bytes ==>
          (InRange(edited, byte) <==> range.start.bytes < e.oldEnd.bytes <= range.end.bytes))
    && (e.newEnd.bytes <= byte && byte - e.newEnd.bytes + e.oldEnd.bytes < UINT32_MAX ==>
          (InRange(edited, byte) <==> InRange(range, byte - e.newEnd.bytes + e.oldEnd.bytes)))
  }

  lemma CoversAlike(ranges: seq<Range>, edited: seq<Range>, before: nat, after: nat, e: Edit)
    requires |edited| == |ranges| && forall i :: 0 <= i < |ranges| ==> EditsRight(ranges[i], edited[i], e, after)
    requires (after < e.start.bytes && before == after)
             || (e.start.bytes <= e.newEnd.bytes <= after && before == after - e.newEnd.bytes + e.oldEnd.bytes)
    ensures before < UINT32_MAX ==> (Covers(edited, after) <==> Covers(ranges, before))
  {
    if before < UINT32_MAX {
      forall i | 0 <= i < |ranges|
        ensures InRange(edited[i], after) <==> InRange(ranges[i], before)
      {
        assert EditsRight(ranges[i], edited[i], e, after);
      }
      if Covers(edited, after) {
        var i :| 0 <= i < |edited| && edited[i].start.bytes <= after < edited[i].end.bytes;
        assert InRange(edited[i], after) && InRange(ranges[i], before);
      }
      if Covers(ranges, before) {
        var i :| 0 <= i < |ranges| && ranges[i].start.bytes <= before < ranges[i].end.bytes;
        assert InRange(ranges[i], before) && InRange(edited[i], after);
      }
    }
  }

  lemma SpansAlike(ranges: seq<Range>, edited: seq<Range>, byte: nat, e: Edit)
    requires |edited| == |ranges| && forall i :: 0 <= i < |ranges| ==> EditsRight(ranges[i], edited[i], e, byte)
    requires e.start.bytes <= byte < e.newEnd.bytes
    ensures Covers(edited, byte) <==> Spanned(ranges, e)
  {
    if Covers(edited, byte) {
      var i :| 0 <= i < |edited| && edited[i].start.bytes <= byte < edited[i].end.bytes;
      assert InRange(edited[i], byte) && EditsRight(ranges[i], edited[i], e, byte);
    }
    if Spanned(ranges, e) {
      var i :| 0 <= i < |ranges| && ranges[i].start.bytes < e.oldEnd.bytes <= ranges[i].end.bytes;
      assert EditsRight(ranges[i], edited[i], e, byte) && InRange(edited[i], byte);
    }
  }

  /** The ranges stay in order. */
  lemma EditKeepsOrder(ranges: seq<Range>, e: Edit, i: nat, j: nat)
    requires Sorted(ranges) && Addressable(e) && i <= j < |ranges|
    ensures var edited := EditedRanges(ranges, e);
            && edited[i].start.bytes <= edited[i].end.bytes <= UINT32_MAX
            && (i < j ==> edited[i].end.bytes <= edited[j].start.bytes)
  {
    var ends, starts := ranges[i].end, if i < j then ranges[j].start else ranges[i].start;
    if ends.bytes >= e.oldEnd.bytes {
      ShiftSaturates(ends, e);
    }
    if starts.bytes >= e.oldEnd.bytes {
      ShiftSaturates(starts, e);
    }
    if ranges[i].start.bytes >= e.oldEnd.bytes {
      ShiftSaturates(ranges[i].start, e);
    }
  }

  /** Moves every range in place, its end first. */
  method EditRanges(ranges: array<Range>, e: Edit)
    modifies ranges
    ensures ranges[..] == EditedRanges(old(ranges[..]), e)
  {
    var i := 0;
    while i < ranges.Length
      invariant i <= ranges.Length
      invariant forall k :: 0 <= k < i ==> ranges[k] == EditedRange(old(ranges[k]), e)
      invariant forall k :: i <= k < ranges.Length ==> ranges[k] == old(ranges[k])
    {
      var range := ranges[i];
      if range.end.bytes >= e.oldEnd.bytes {
        if range.end.bytes != UINT32_MAX {
          range := range.(end := Shifted(range.end, e));
        }
      } else if range.end.bytes > e.start.bytes {
        range := range.(end := e.start);
      }
      if range.start.bytes >= e.oldEnd.bytes {
        range := range.(start := Shifted(range.start, e));
      } else if range.start.bytes > e.start.bytes {
        range := range.(start := e.start);
      }
      ranges[i] := range;
      i := i + 1;
    }
  }
}
