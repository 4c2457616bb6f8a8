/** The symmetric difference of two lists of included ranges. Models get_changed_ranges.c:10-104. */
module RangeDifferences {
  import opened Lengths

  datatype Range = Range(start: Length, end: Length)

  const UINT32_MAX: nat := 4294967295
  const LENGTH_MAX := Length(UINT32_MAX, Point(UINT32_MAX, UINT32_MAX))

  predicate Covers(ranges: seq<Range>, byte: nat) {
    exists i :: 0 <= i < |ranges| && ranges[i].start.bytes <= byte < ranges[i].end.bytes
  }

  /** Ranges in order, none before the last reaching the end of all text. They may be empty, and
      one may begin where another ends. */
  predicate Sorted(ranges: seq<Range>) {
    && (forall i :: 0 <= i < |ranges| ==>
          ranges[i].start.bytes <= ranges[i].end.bytes <= UINT32_MAX && ranges[i].start.bytes < UINT32_MAX)
    && forall i, j :: 0 <= i < j < |ranges| ==> ranges[i].end.bytes <= ranges[j].start.bytes
  }

  /** Ranges in order, none of them empty, with a gap between any two. */
  predicate Canonical(ranges: seq<Range>) {
    && (forall i :: 0 <= i < |ranges| ==> ranges[i].start.bytes < ranges[i].end.bytes)
    && forall i, j :: 0 <= i < j < |ranges| ==> ranges[i].end.bytes < ranges[j].start.bytes
  }

  /** A walk along `ranges` has reached `position`, inside the range at `index` or before it. */
  ghost predicate ReachedIn(ranges: seq<Range>, index: nat, inside: bool, position: nat) {
    && index <= |ranges|
    && (forall i :: 0 <= i < index ==> ranges[i].end.bytes <= position)
    && (inside ==> index < |ranges| && ranges[index].start.bytes <= position <= ranges[index].end.bytes)
    && (!inside && index < |ranges| ==> position <= ranges[index].start.bytes)
  }

  /** Where the walk will turn next. */
  function NextTurn(ranges: seq<Range>, index: nat, inside: bool): Length
    requires inside ==> index < |ranges|
  {
    if inside then ranges[index].end
    else if index < |ranges| then ranges[index].start
    else LENGTH_MAX
  }

  /** Until the next turn, a byte is covered exactly if the walk is inside. */
  lemma CoveredIffInside(ranges: seq<Range>, index: nat, inside: bool, position: nat, byte: nat)
    requires Sorted(ranges) && ReachedIn(ranges, index, inside, position)
    requires position <= byte < NextTurn(ranges, index, inside).bytes
    ensures Covers(ranges, byte) <==> inside
  {
    if inside {
      assert ranges[index].start.bytes <= byte < ranges[index].end.bytes;
    } else if index < |ranges| {
      assert forall i :: index < i < |ranges| ==> ranges[index].end.bytes <= ranges[i].start.bytes;
    }
  }

  /** So far the differences are right for every byte before `position`. */
  ghost predicate RightUpTo(differences: seq<Range>, old': seq<Range>, new': seq<Range>, position: nat) {
    && Canonical(differences)
    && (forall i :: 0 <= i < |differences| ==> differences[i].end.bytes <= position)
    && forall byte: nat {:trigger Covers(differences, byte)} :: byte < position ==>
         (Covers(differences, byte) <==> Covers(old', byte) != Covers(new', byte))
  }

  function Added(ranges: seq<Range>, start: Length, end: Length): seq<Range> {
    if ranges != [] && start.bytes <= ranges[|ranges| - 1].end.bytes then
      ranges[|ranges| - 1 := ranges[|ranges| - 1].(end := end)]
    else if start.bytes < end.bytes then ranges + [Range(start, end)]
    else ranges
  }

  /** Adding a stretch at or after the end covers exactly that stretch more. */
  lemma AddedCovers(ranges: seq<Range>, start: Length, end: Length, byte: nat)
    requires Canonical(ranges) && start.bytes <= end.bytes
    requires forall i :: 0 <= i < |ranges| ==> ranges[i].end.bytes <= start.bytes
    ensures Covers(Added(ranges, start, end), byte) <==> Covers(ranges, byte) || start.bytes <= byte < end.bytes
  {
    var sum, n := Added(ranges, start, end), |ranges|;
    if Covers(ranges, byte) {
      var i :| 0 <= i < n && ranges[i].start.bytes <= byte < ranges[i].end.bytes;
      assert sum[i].start.bytes <= byte < sum[i].end.bytes;
    }
    if start.bytes <= byte < end.bytes {
      assert sum[|sum| - 1].start.bytes <= byte < sum[|sum| - 1].end.bytes;
    }
    if Covers(sum, byte) && !(start.bytes <= byte < end.bytes) {
      var i :| 0 <= i < |sum| && sum[i].start.bytes <= byte < sum[i].end.bytes;
      assert i < n && ranges[i].start.bytes <= byte < ranges[i].end.bytes;
    }
  }

  lemma AddedIsCanonical(ranges: seq<Range>, start: Length, end: Length)
    requires Canonical(ranges) && start.bytes <= end.bytes
    requires forall i :: 0 <= i < |ranges| ==> ranges[i].end.bytes <= start.bytes
    ensures Canonical(Added(ranges, start, end))
    ensures forall i :: 0 <= i < |Added(ranges, start, end)| ==> Added(ranges, start, end)[i].end.bytes <= end.bytes
  {
  }

  /** One step of the walk: the stretch up to the nearer turn is added if it lies in one list only. */
  lemma StepIsRight(differences: seq<Range>, old': seq<Range>, new': seq<Range>, oldIndex: nat, newIndex: nat,
                    inOld: bool, inNew: bool, current: Length, next: Length)
    requires Sorted(old') && Sorted(new') && RightUpTo(differences, old', new', current.bytes)
    requires ReachedIn(old', oldIndex, inOld, current.bytes) && ReachedIn(new', newIndex, inNew, current.bytes)
    requires current.bytes <= next.bytes <= NextTurn(old', oldIndex, inOld).bytes
    requires next.bytes <= NextTurn(new', newIndex, inNew).bytes
    ensures RightUpTo(if inOld != inNew then Added(differences, current, next) else differences, old', new', next.bytes)
  {
    var after := if inOld != inNew then Added(differences, current, next) else differences;
    AddedIsCanonical(differences, current, next);
    forall byte: nat | byte < next.bytes
      ensures Covers(after, byte) <==> Covers(old', byte) != Covers(new', byte)
    {
      AddedCovers(differences, current, next, byte);
      if byte < current.bytes {
        assert Covers(differences, byte) <==> Covers(old', byte) != Covers(new', byte);
      } else {
        CoveredIffInside(old', oldIndex, inOld, current.bytes, byte);
        CoveredIffInside(new', newIndex, inNew, current.bytes, byte);
        assert !Covers(differences, byte);
      }
    }
  }

  /** A turn keeps track of where the walk is. */
  lemma TurnReaches(ranges: seq<Range>, index: nat, inside: bool, position: nat)
    requires Sorted(ranges) && ReachedIn(ranges, index, inside, position) && (inside || index < |ranges|)
    ensures var next := NextTurn(ranges, index, inside).bytes;
            ReachedIn(ranges, if inside then index + 1 else index, !inside, next)
  {
  }

  lemma StaysReached(ranges: seq<Range>, index: nat, inside: bool, position: nat, next: nat)
    requires ReachedIn(ranges, index, inside, position) && position <= next <= NextTurn(ranges, index, inside).bytes
    ensures ReachedIn(ranges, index, inside, next)
  {
  }

  /** Beyond the last range nothing is covered. */
  lemma NothingBeyond(ranges: seq<Range>, position: nat, byte: nat)
    requires ReachedIn(ranges, |ranges|, false, position) && byte >= position
    ensures !Covers(ranges, byte)
  {
  }

  class RangeArray {
    var contents: seq<Range>

    constructor ()
      ensures contents == []
    {
      contents := [];
    }

    /** Appends a stretch, joining it to the last range if they touch (ts_range_array_add). */
    method Add(start: Length, end: Length)
      modifies this
      ensures contents == Added(old(contents), start, end)
    {
      if |contents| > 0 {
        var last := contents[|contents| - 1];
        if start.bytes <= last.end.bytes {
          contents := contents[|contents| - 1 := last.(end := end)];
          return;
        }
      }
      if start.bytes < end.bytes {
        contents := contents + [Range(start, end)];
      }
    }

    /** Does any range from `startIndex` on meet the bytes from `startByte` to `endByte`? */
    method Intersects(startIndex: nat, startByte: nat, endByte: nat) returns (found: bool)
      requires Sorted(contents)
      ensures found <==> exists i :: startIndex <= i < |contents| &&
                           startByte < contents[i].end.bytes && contents[i].start.bytes < endByte
    {
      var i := startIndex;
      while i < |contents|
        invariant startIndex <= i
        invariant forall j :: startIndex <= j < i && j < |contents| ==> contents[j].end.bytes <= startByte
      {
        var range := contents[i];
        if range.end.bytes > startByte {
          if range.start.bytes >= endByte {
            assert forall j :: i < j < |contents| ==> range.start.bytes <= range.end.bytes <= contents[j].start.bytes;
            return false;
          }
          return true;
        }
        i := i + 1;
      }
      return false;
    }
  }

  /** Collects the bytes that lie in one list but not in the other
      (ts_range_array_get_changed_ranges). */
  method GetChangedRanges(old': seq<Range>, new': seq<Range>, differences: RangeArray)
    requires Sorted(old') && Sorted(new') && differences.contents == []
    modifies differences
    ensures Canonical(differences.contents)
    ensures forall byte: nat :: Covers(differences.contents, byte) <==> Covers(old', byte) != Covers(new', byte)
  {
    var oldIndex, newIndex, current, inOld, inNew := 0, 0, ZERO, false, false;
    ghost var done := false;
    while oldIndex < |old'| || newIndex < |new'|
      invariant RightUpTo(differences.contents, old', new', current.bytes)
      invariant oldIndex <= |old'| && newIndex <= |new'|
      invariant done ==> oldIndex == |old'| && newIndex == |new'| &&
                         ReachedIn(old', |old'|, false, current.bytes) && ReachedIn(new', |new'|, false, current.bytes)
      invariant !done ==>
                  ReachedIn(old', oldIndex, inOld, current.bytes) && ReachedIn(new', newIndex, inNew, current.bytes)
      decreases 2 * (|old'| - oldIndex) - (if inOld then 1 else 0) + 2 * (|new'| - newIndex) - (if inNew then 1 else 0)
    {
      var nextOld, nextNew := NextTurn(old', oldIndex, inOld), NextTurn(new', newIndex, inNew);
      var next := if nextOld.bytes < nextNew.bytes then nextOld else nextNew;
      StepIsRight(differences.contents, old', new', oldIndex, newIndex, inOld, inNew, current, next);
      if inOld != inNew {
        differences.Add(current, next);
      }
      if nextOld.bytes < nextNew.bytes {
        TurnReaches(old', oldIndex, inOld, current.bytes);
        StaysReached(new', newIndex, inNew, current.bytes, next.bytes);
        oldIndex, inOld := if inOld then oldIndex + 1 else oldIndex, !inOld;
      } else if nextNew.bytes < nextOld.bytes {
        TurnReaches(new', newIndex, inNew, current.bytes);
        StaysReached(old', oldIndex, inOld, current.bytes, next.bytes);
        newIndex, inNew := if inNew then newIndex + 1 else newIndex, !inNew;
      } else {
        done := BothTurn(old', new', oldIndex, newIndex, inOld, inNew, current.bytes);
        oldIndex, newIndex := if inOld then oldIndex + 1 else oldIndex, if inNew then newIndex + 1 else newIndex;
        inOld, inNew := !inOld, !inNew;
      }
      current := next;
    }
    AllCounted(differences.contents, old', new', current.bytes);
  }

  /** When both walks turn at once, either both have a range there, or this is the end of all
      text and the walk is over. */
  lemma BothTurn(old': seq<Range>, new': seq<Range>, oldIndex: nat, newIndex: nat, inOld: bool, inNew: bool,
                 position: nat)
    returns (done: bool)
    requires Sorted(old') && Sorted(new') && (oldIndex < |old'| || newIndex < |new'|)
    requires ReachedIn(old', oldIndex, inOld, position) && ReachedIn(new', newIndex, inNew, position)
    requires NextTurn(old', oldIndex, inOld).bytes == NextTurn(new', newIndex, inNew).bytes
    ensures var next := NextTurn(new', newIndex, inNew).bytes;
            var i, j := if inOld then oldIndex + 1 else oldIndex, if inNew then newIndex + 1 else newIndex;
            && i <= |old'| && j <= |new'| && position <= next
            && (done ==>
                i == |old'| && j == |new'| && ReachedIn(old', i, false, next) && ReachedIn(new', j, false, next))
            && (!done ==> ReachedIn(old', i, !inOld, next) && ReachedIn(new', j, !inNew, next))
  {
    done := (!inOld && oldIndex == |old'|) || (!inNew && newIndex == |new'|);
    if inOld || oldIndex < |old'| {
      TurnReaches(old', oldIndex, inOld, position);
    }
    if inNew || newIndex < |new'| {
      TurnReaches(new', newIndex, inNew, position);
    }
  }

  lemma AllCounted(differences: seq<Range>, old': seq<Range>, new': seq<Range>, position: nat)
    requires RightUpTo(differences, old', new', position)
    requires ReachedIn(old', |old'|, false, position) && ReachedIn(new', |new'|, false, position)
    ensures forall byte: nat :: Covers(differences, byte) <==> Covers(old', byte) != Covers(new', byte)
  {
    forall byte: nat
      ensures Covers(differences, byte) <==> Covers(old', byte) != Covers(new', byte)
    {
      if byte >= position {
        NothingBeyond(old', position, byte);
        NothingBeyond(new', position, byte);
      }
    }
  }

  // ---- The result does not depend on the order of the lists ----

  predicate SameBytes(a: seq<Range>, b: seq<Range>) {
    |a| == |b| && forall i :: 0 <= i < |a| ==> a[i].start.bytes == b[i].start.bytes && a[i].end.bytes == b[i].end.bytes
  }

  /** A set of bytes has only one canonical list of ranges. */
  lemma {:induction false} CanonicalIsUnique(a: seq<Range>, b: seq<Range>)
    requires Canonical(a) && Canonical(b)
    requires forall byte: nat :: Covers(a, byte) <==> Covers(b, byte)
    ensures SameBytes(a, b)
    decreases |a|
  {
    if a == [] || b == [] {
      if a != [] {
        assert Covers(a, a[0].start.bytes);
      }
      if b != [] {
        assert Covers(b, b[0].start.bytes);
      }
    } else {
      FirstAgrees(a, b);
      FirstAgrees(b, a);
      assert a[0].start.bytes == b[0].start.bytes && a[0].end.bytes == b[0].end.bytes;
      forall byte: nat
        ensures Covers(a[1..], byte) <==> Covers(b[1..], byte)
      {
        RestCovers(a, byte);
        RestCovers(b, byte);
      }
      CanonicalIsUnique(a[1..], b[1..]);
      assert a == [a[0]] + a[1..] && b == [b[0]] + b[1..];
    }
  }

  lemma FirstAgrees(a: seq<Range>, b: seq<Range>)
    requires Canonical(a) && Canonical(b) && a != [] && b != []
    requires forall byte: nat :: Covers(a, byte) <==> Covers(b, byte)
    ensures b[0].start.bytes <= a[0].start.bytes
    ensures a[0].start.bytes == b[0].start.bytes ==> a[0].end.bytes <= b[0].end.bytes
  {
    assert Covers(a, a[0].start.bytes);
    var i :| 0 <= i < |b| && b[i].start.bytes <= a[0].start.bytes < b[i].end.bytes;
    assert a[0].start.bytes == b[0].start.bytes && b[0].end.bytes < a[0].end.bytes ==> Covers(a, b[0].end.bytes);
  }

  lemma RestCovers(a: seq<Range>, byte: nat)
    requires Canonical(a) && a != []
    ensures Covers(a[1..], byte) <==> Covers(a, byte) && byte >= a[0].end.bytes
  {
    if Covers(a[1..], byte) {
      var i :| 0 <= i < |a[1..]| && a[1..][i].start.bytes <= byte < a[1..][i].end.bytes;
      assert a[i + 1] == a[1..][i];
    }
    if Covers(a, byte) && byte >= a[0].end.bytes {
      var i :| 0 <= i < |a| && a[i].start.bytes <= byte < a[i].end.bytes;
      assert a[1..][i - 1] == a[i];
    }
  }

  /** Swapping the lists gives the same ranges. */
  lemma DifferenceIsSymmetric(old': seq<Range>, new': seq<Range>, there: seq<Range>, back: seq<Range>)
    requires Canonical(there) && forall byte: nat :: Covers(there, byte) <==> Covers(old', byte) != Covers(new', byte)
    requires Canonical(back) && forall byte: nat :: Covers(back, byte) <==> Covers(new', byte) != Covers(old', byte)
    ensures SameBytes(there, back)
  {
    CanonicalIsUnique(there, back);
  }
}
