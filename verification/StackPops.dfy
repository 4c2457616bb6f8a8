/** What a pop of the parse stack should find: every way down from a version's node to where the
    goal is met, once each. For stack.c:304-419, 521-536, 578-586. */
module StackPops {
  import opened SyntaxTrees
  import opened StackGraph

  const MAX_ITERATOR_COUNT: nat := 64

  /** One way down, as far as it has been followed. */
  datatype Iterator = Iterator(node: NodeRef, subtrees: seq<StackTree>, subtreeCount: nat, isPending: bool)

  datatype Slice = Slice(subtrees: seq<StackTree>, version: nat)

  /** When a pop is over: after some number of subtrees, or at the bottom. */
  datatype Goal = Count(subtrees: nat) | Bottom

  predicate Pops(goal: Goal, g: Graph, it: Iterator) {
    match goal
    case Count(n) => it.subtreeCount == n
    case Bottom => it.node in g && g[it.node].links == []
  }

  predicate Stops(goal: Goal, g: Graph, it: Iterator) {
    (goal.Count? && it.subtreeCount == goal.subtrees) || (it.node in g && g[it.node].links == [])
  }

  /** Extra tokens do not count towards the goal; error steps do. */
  predicate Counts(link: Link) {
    link.subtree.None? || !link.subtree.value.tree.info.extra
  }

  function Follow(it: Iterator, link: Link): Iterator {
    Iterator(link.node,
             if link.subtree.Some? then it.subtrees + [link.subtree.value] else it.subtrees,
             if Counts(link) then it.subtreeCount + 1 else it.subtreeCount,
             it.isPending && (Counts(link) ==> link.subtree.Some? && link.isPending))
  }

  function IterAt(g: Graph, n: NodeRef, path: Path): (it: Iterator)
    requires IsPath(g, n, path)
    ensures it.node == EndOf(g, n, path)
    decreases |path|
  {
    if path == [] then Iterator(n, [], 0, true)
    else Follow(IterAt(g, n, path[..|path| - 1]), LastLink(g, n, path))
  }

  /** Has nothing on the way told the iterator to stop? */
  ghost predicate Live(goal: Goal, g: Graph, n: NodeRef, path: Path)
    decreases |path|
  {
    IsPath(g, n, path) &&
    (path != [] ==>
       && Live(goal, g, n, path[..|path| - 1])
       && !Stops(goal, g, IterAt(g, n, path[..|path| - 1])))
  }

  /** Does the goal pop here, and nowhere before? */
  ghost predicate Final(goal: Goal, g: Graph, n: NodeRef, path: Path) {
    Live(goal, g, n, path) && Pops(goal, g, IterAt(g, n, path))
  }

  function Reversed<T>(s: seq<T>): seq<T> {
    if s == [] then [] else [s[|s| - 1]] + Reversed(s[..|s| - 1])
  }

  lemma {:induction false} LivePrefix(goal: Goal, g: Graph, n: NodeRef, path: Path, k: nat)
    requires Live(goal, g, n, path) && k <= |path|
    ensures Live(goal, g, n, path[..k])
    ensures k < |path| ==> !Stops(goal, g, IterAt(g, n, path[..k]))
    ensures k < |path| ==> Live(goal, g, n, path[..k + 1])
    decreases |path| - k
  {
    if k == |path| {
      assert path[..k] == path;
    } else {
      LivePrefix(goal, g, n, path, k + 1);
      assert path[..k + 1][..k] == path[..k];
    }
  }

  // ---- What the ends mean ----

  function CountedLinks(g: Graph, n: NodeRef, path: Path): nat
    requires IsPath(g, n, path)
    decreases |path|
  {
    if path == [] then 0
    else CountedLinks(g, n, path[..|path| - 1]) + if Counts(LastLink(g, n, path)) then 1 else 0
  }

  lemma {:induction false} IteratorCounts(g: Graph, n: NodeRef, path: Path)
    requires IsPath(g, n, path)
    ensures IterAt(g, n, path).subtreeCount == CountedLinks(g, n, path)
    decreases |path|
  {
    if path != [] {
      IteratorCounts(g, n, path[..|path| - 1]);
    }
  }

  lemma {:induction false} FewerIsLive(g: Graph, n: NodeRef, path: Path, count: nat)
    requires IsPath(g, n, path) && CountedLinks(g, n, path) < count
    ensures Live(Count(count), g, n, path)
    decreases |path|
  {
    if path != [] {
      var init := path[..|path| - 1];
      FewerIsLive(g, n, init, count);
      IteratorCounts(g, n, init);
    }
  }

  lemma {:induction false} LiveCountsFewer(g: Graph, n: NodeRef, path: Path, count: nat)
    requires Live(Count(count), g, n, path)
    ensures CountedLinks(g, n, path) <= count
    decreases |path|
  {
    if path != [] {
      var init := path[..|path| - 1];
      LiveCountsFewer(g, n, init, count);
      IteratorCounts(g, n, init);
    }
  }

  /** A count is met exactly by the paths that have that many counted links, the last of them
      counted: extra tokens below are left where they are. */
  lemma CountIsMetIff(g: Graph, n: NodeRef, path: Path, count: nat)
    ensures Final(Count(count), g, n, path) <==>
              && IsPath(g, n, path) && CountedLinks(g, n, path) == count
              && (path != [] ==> Counts(LastLink(g, n, path)))
  {
    if IsPath(g, n, path) {
      IteratorCounts(g, n, path);
      if path != [] {
        var init := path[..|path| - 1];
        IteratorCounts(g, n, init);
        if CountedLinks(g, n, init) < count {
          FewerIsLive(g, n, init, count);
        } else if Live(Count(count), g, n, init) {
          LiveCountsFewer(g, n, init, count);
        }
      }
    }
  }

  lemma {:induction false} AnyPathIsLiveToTheBottom(g: Graph, n: NodeRef, path: Path)
    requires IsPath(g, n, path)
    ensures Live(Bottom, g, n, path)
    decreases |path|
  {
    if path != [] {
      AnyPathIsLiveToTheBottom(g, n, path[..|path| - 1]);
    }
  }

  /** The bottom is met by exactly the paths that cannot go on. */
  lemma BottomIsMetIff(g: Graph, n: NodeRef, path: Path)
    ensures Final(Bottom, g, n, path) <==>
              IsPath(g, n, path) && EndOf(g, n, path) in g && g[EndOf(g, n, path)].links == []
  {
    if IsPath(g, n, path) {
      AnyPathIsLiveToTheBottom(g, n, path);
    }
  }

  function SumTrees(subtrees: seq<StackTree>): nat {
    if subtrees == [] then 0 else SumTrees(subtrees[..|subtrees| - 1]) + TotalBytes(subtrees[|subtrees| - 1].tree)
  }

  lemma {:induction false} SumTreesAppend(a: seq<StackTree>, b: seq<StackTree>)
    ensures SumTrees(a + b) == SumTrees(a) + SumTrees(b)
    decreases |b|
  {
    if b == [] {
      assert a + b == a;
    } else {
      assert (a + b)[..|a + b| - 1] == a + b[..|b| - 1];
      SumTreesAppend(a, b[..|b| - 1]);
    }
  }

  lemma {:induction false} SumTreesReversed(s: seq<StackTree>)
    ensures SumTrees(Reversed(s)) == SumTrees(s)
    decreases |s|
  {
    if s != [] {
      var init, last := s[..|s| - 1], [s[|s| - 1]];
      SumTreesReversed(init);
      SumTreesAppend(last, Reversed(init));
      assert last[..0] == [] && last[0] == s[|s| - 1];
      assert SumTrees(last) == SumTrees(last[..0]) + TotalBytes(last[0].tree);
    }
  }

  lemma {:induction false} IteratorSpans(g: Graph, n: NodeRef, path: Path)
    requires IsPath(g, n, path)
    ensures SumTrees(IterAt(g, n, path).subtrees) == SumSpans(Spelled(g, n, path))
    decreases |path|
  {
    if path != [] {
      var init, link := path[..|path| - 1], LastLink(g, n, path);
      IteratorSpans(g, n, init);
      SumsSnoc(Spelled(g, n, init), link.subtree);
      if link.subtree.Some? {
        var subtrees := IterAt(g, n, init).subtrees;
        assert (subtrees + [link.subtree.value])[..|subtrees|] == subtrees;
      }
    }
  }

  /** Whatever path it was popped along, a slice spans the text between the two nodes. */
  lemma SliceSpans(g: Graph, n: NodeRef, path: Path)
    requires GraphOk(g) && n in g && IsPath(g, n, path)
    ensures EndOf(g, n, path) in g
    ensures SumTrees(Reversed(IterAt(g, n, path).subtrees)) + g[EndOf(g, n, path)].position.bytes == g[n].position.bytes
  {
    PathsAgree(g, n, path);
    IteratorSpans(g, n, path);
    SumTreesReversed(IterAt(g, n, path).subtrees);
  }

  // ---- Paths that do not overlap ----

  predicate Incomparable(p: Path, q: Path) {
    !(p <= q) && !(q <= p)
  }

  ghost predicate Apart(ps: seq<Path>) {
    forall i, j :: 0 <= i < j < |ps| ==> Incomparable(ps[i], ps[j])
  }

  ghost predicate ApartFrom(ps: seq<Path>, qs: seq<Path>) {
    forall i, j :: 0 <= i < |ps| && 0 <= j < |qs| ==> Incomparable(ps[i], qs[j])
  }

  lemma LongerIsIncomparable(p: Path, q: Path, a: nat)
    requires Incomparable(p, q)
    ensures Incomparable(p + [a], q) && Incomparable(q, p + [a])
  {
    assert p + [a] <= q ==> p <= q;
    assert q <= p + [a] && |q| <= |p| ==> q <= p;
  }

  lemma ForksAreIncomparable(p: Path, a: nat, b: nat)
    requires a != b
    ensures Incomparable(p + [a], p + [b])
  {
    assert (p + [a])[|p|] == a && (p + [b])[|p|] == b;
  }

  function Forked(p: Path, m: nat): (ps: seq<Path>)
    ensures |ps| == m && forall k :: 0 <= k < m ==> ps[k] == p + [k + 1]
  {
    seq(m, k requires 0 <= k < m => p + [k + 1])
  }

  /** Following the path at `i` along its first `m + 1` links. */
  function Advanced(paths: seq<Path>, i: nat, m: nat): seq<Path>
    requires i < |paths|
  {
    paths[i := paths[i] + [0]] + Forked(paths[i], m)
  }

  lemma AdvancedAt(paths: seq<Path>, i: nat, m: nat, k: nat)
    requires i < |paths| && k < |paths| + m
    ensures |Advanced(paths, i, m)| == |paths| + m
    ensures Advanced(paths, i, m)[k] ==
            if k == i then paths[i] + [0]
            else if k < |paths| then paths[k]
            else paths[i] + [k - |paths| + 1]
  {
  }

  lemma AdvancedApart(paths: seq<Path>, i: nat, m: nat)
    requires Apart(paths) && i < |paths|
    ensures Apart(Advanced(paths, i, m))
  {
    var ps := Advanced(paths, i, m);
    forall a, b | 0 <= a < b < |ps|
      ensures Incomparable(ps[a], ps[b])
    {
      AdvancedAt(paths, i, m, a);
      AdvancedAt(paths, i, m, b);
      var fromA, fromB := a == i || a >= |paths|, b == i || b >= |paths|;
      if fromA && fromB {
        ForksAreIncomparable(paths[i], ps[a][|paths[i]|], ps[b][|paths[i]|]);
      } else if fromA {
        LongerIsIncomparable(paths[i], paths[b], ps[a][|paths[i]|]);
      } else if fromB {
        LongerIsIncomparable(paths[i], paths[a], ps[b][|paths[i]|]);
      }
    }
  }

  lemma AdvancedApartFrom(paths: seq<Path>, found: seq<Path>, i: nat, m: nat)
    requires ApartFrom(paths, found) && i < |paths|
    ensures ApartFrom(Advanced(paths, i, m), found)
  {
    var ps := Advanced(paths, i, m);
    forall a, b | 0 <= a < |ps| && 0 <= b < |found|
      ensures Incomparable(ps[a], found[b])
    {
      AdvancedAt(paths, i, m, a);
      if a == i || a >= |paths| {
        LongerIsIncomparable(paths[i], found[b], ps[a][|paths[i]|]);
      }
    }
  }

  function Erased<T>(s: seq<T>, i: nat): seq<T>
    requires i < |s|
  {
    s[..i] + s[i + 1..]
  }

  function Inserted<T>(s: seq<T>, i: nat, x: T): (t: seq<T>)
    requires i <= |s|
    ensures |t| == |s| + 1 && t[i] == x
    ensures forall k :: 0 <= k < |t| ==> t[k] == if k < i then s[k] else if k == i then x else s[k - 1]
  {
    s[..i] + [x] + s[i..]
  }

  lemma ErasedApart(paths: seq<Path>, found: seq<Path>, i: nat)
    requires Apart(paths) && ApartFrom(paths, found) && i < |paths|
    ensures Apart(Erased(paths, i)) && ApartFrom(Erased(paths, i), found)
  {
    assert forall k :: 0 <= k < |paths| - 1 ==> Erased(paths, i)[k] == paths[if k < i then k else k + 1];
  }

  lemma MovedApart(paths: seq<Path>, found: seq<Path>, i: nat, pos: nat)
    requires Apart(paths) && Apart(found) && ApartFrom(paths, found) && i < |paths| && pos <= |found|
    ensures Apart(Inserted(found, pos, paths[i])) && ApartFrom(Erased(paths, i), Inserted(found, pos, paths[i]))
  {
    var ps, fs := Erased(paths, i), Inserted(found, pos, paths[i]);
    assert forall k :: 0 <= k < |ps| ==> ps[k] == paths[if k < i then k else k + 1];
    forall a, b | 0 <= a < |ps| && 0 <= b < |fs|
      ensures Incomparable(ps[a], fs[b])
    {
      var a' := if a < i then a else a + 1;
      if b == pos {
        assert Incomparable(paths[if a' < i then a' else i], paths[if a' < i then i else a']);
      } else {
        assert Incomparable(paths[a'], found[if b < pos then b else b - 1]);
      }
    }
    forall a, b | 0 <= a < b < |fs|
      ensures Incomparable(fs[a], fs[b])
    {
      if a == pos {
        assert Incomparable(paths[i], found[b - 1]);
      } else if b == pos {
        assert Incomparable(paths[i], found[a]);
      }
    }
  }

  // ---- A pop under way ----

  ghost predicate IsAt(goal: Goal, g: Graph, n: NodeRef, it: Iterator, path: Path) {
    Live(goal, g, n, path) && it == IterAt(g, n, path)
  }

  /** Each iterator is where its path has led it. */
  ghost predicate Tracking(goal: Goal, g: Graph, n: NodeRef, its: seq<Iterator>, paths: seq<Path>) {
    |its| == |paths| &&
    forall i {:trigger IsAt(goal, g, n, its[i], paths[i])} :: 0 <= i < |its| ==> IsAt(goal, g, n, its[i], paths[i])
  }

  /** The slice holds the subtrees of a path that met the goal, left to right, and its version
      (one of those made by this pop) is at the end of that path. */
  ghost predicate SliceOk(goal: Goal, g: Graph, n: NodeRef, ends: seq<NodeRef>, first: nat, slice: Slice, path: Path) {
    && Final(goal, g, n, path) && slice.subtrees == Reversed(IterAt(g, n, path).subtrees)
    && first <= slice.version < |ends| && ends[slice.version] == EndOf(g, n, path)
  }

  /** Slices of one version are next to each other. */
  ghost predicate Grouped(slices: seq<Slice>) {
    forall i, j, k :: 0 <= i < k < j < |slices| && slices[i].version == slices[j].version ==>
      slices[k].version == slices[i].version
  }

  ghost predicate HasSlice(slices: seq<Slice>, version: nat) {
    exists i :: 0 <= i < |slices| && slices[i].version == version
  }

  ghost predicate NewVersions(ends: seq<NodeRef>, first: nat, slices: seq<Slice>) {
    && first <= |ends|
    && (forall v, w :: first <= v < w < |ends| ==> ends[v] != ends[w])
    && forall v: nat {:trigger HasSlice(slices, v)} :: first <= v < |ends| ==> HasSlice(slices, v)
  }

  ghost predicate Sliced(goal: Goal, g: Graph, n: NodeRef, ends: seq<NodeRef>, first: nat, slices: seq<Slice>,
                         found: seq<Path>) {
    && |found| == |slices| && Apart(found)
    && (forall i {:trigger SliceOk(goal, g, n, ends, first, slices[i], found[i])} :: 0 <= i < |slices| ==>
          SliceOk(goal, g, n, ends, first, slices[i], found[i]))
    && Grouped(slices) && NewVersions(ends, first, slices)
  }

  ghost predicate Reaches(paths: seq<Path>, found: seq<Path>, path: Path) {
    path in found || exists i :: 0 <= i < |paths| && paths[i] <= path
  }

  ghost predicate Cut(skipped: seq<Path>, path: Path) {
    exists k :: 0 <= k < |skipped| && skipped[k] <= path
  }

  /** No path that meets the goal has been forgotten but those that begin like a skipped one. */
  ghost predicate Complete(goal: Goal, g: Graph, n: NodeRef, paths: seq<Path>, skipped: seq<Path>, found: seq<Path>) {
    forall path {:trigger Final(goal, g, n, path)} :: Final(goal, g, n, path) ==>
      Reaches(paths, found, path) || Cut(skipped, path)
  }

  /** The paths that were skipped for want of room are genuine, and neither found nor followed. */
  ghost predicate Skipping(goal: Goal, g: Graph, n: NodeRef, paths: seq<Path>, skipped: seq<Path>, found: seq<Path>) {
    && ApartFrom(paths, skipped) && ApartFrom(skipped, found)
    && forall k :: 0 <= k < |skipped| ==> Live(goal, g, n, skipped[k])
  }

  ghost predicate Popping(goal: Goal, g: Graph, n: NodeRef, its: seq<Iterator>, paths: seq<Path>, skipped: seq<Path>,
                          ends: seq<NodeRef>, first: nat, slices: seq<Slice>, found: seq<Path>) {
    && Tracking(goal, g, n, its, paths) && Apart(paths) && ApartFrom(paths, found)
    && Sliced(goal, g, n, ends, first, slices, found)
    && Skipping(goal, g, n, paths, skipped, found) && Complete(goal, g, n, paths, skipped, found)
  }

  lemma PoppingStarts(goal: Goal, g: Graph, n: NodeRef, ends: seq<NodeRef>)
    ensures Popping(goal, g, n, [Iterator(n, [], 0, true)], [[]], [], ends, |ends|, [], [])
  {
    assert IsAt(goal, g, n, Iterator(n, [], 0, true), []);
    var paths: seq<Path> := [[]];
    assert paths[0] == [];
    forall path | Final(goal, g, n, path)
      ensures Reaches(paths, [], path)
    {
      assert paths[0] <= path;
    }
  }

  /** Where a slice belongs: after the last one of its version, or at the end as a new version. */
  ghost predicate SlicePlaced(ends: seq<NodeRef>, slices: seq<Slice>, node: NodeRef, ends': seq<NodeRef>, version: nat,
                              pos: nat)
  {
    && pos <= |slices| && version < |ends'| && ends'[version] == node
    && (forall k :: pos <= k < |slices| ==> slices[k].version != version)
    && (|| (ends' == ends && pos > 0 && slices[pos - 1].version == version)
        || (ends' == ends + [node] && version == |ends| && pos == |slices|
            && forall k :: 0 <= k < |slices| ==> slices[k].version < |ends| && ends[slices[k].version] != node))
  }

  lemma GroupedInserted(slices: seq<Slice>, pos: nat, slice: Slice)
    requires Grouped(slices) && pos <= |slices|
    requires forall k :: pos <= k < |slices| ==> slices[k].version != slice.version
    requires (pos > 0 && slices[pos - 1].version == slice.version) ||
             (pos == |slices| && forall k :: 0 <= k < |slices| ==> slices[k].version != slice.version)
    ensures Grouped(Inserted(slices, pos, slice))
  {
    var t := Inserted(slices, pos, slice);
    forall i, j, k | 0 <= i < k < j < |t| && t[i].version == t[j].version
      ensures t[k].version == t[i].version
    {
      if j == pos {
        assert t[i] == slices[i] && t[k] == slices[k];
        assert k == pos - 1 || slices[i].version == slices[pos - 1].version;
      } else if i != pos && k != pos {
        assert t[i] == slices[if i < pos then i else i - 1] && t[j] == slices[if j < pos then j else j - 1];
        assert t[k] == slices[if k < pos then k else k - 1];
      }
    }
  }

  /** An iterator that met the goal leaves its slice behind. */
  lemma SliceFound(goal: Goal, g: Graph, n: NodeRef, its: seq<Iterator>, paths: seq<Path>, skipped: seq<Path>,
                   ends: seq<NodeRef>, first: nat, slices: seq<Slice>, found: seq<Path>, i: nat, ends': seq<NodeRef>,
                   version: nat, pos: nat)
    requires Popping(goal, g, n, its, paths, skipped, ends, first, slices, found)
    requires i < |its| && Pops(goal, g, its[i])
    requires SlicePlaced(ends, slices, its[i].node, ends', version, pos) && version >= first
    ensures Popping(goal, g, n, Erased(its, i), Erased(paths, i), skipped, ends', first,
                    Inserted(slices, pos, Slice(Reversed(its[i].subtrees), version)), Inserted(found, pos, paths[i]))
  {
    assert IsAt(goal, g, n, its[i], paths[i]);
    MovedApart(paths, found, i, pos);
    ErasedTracking(goal, g, n, its, paths, found, i);
    SlicedInserted(goal, g, n, ends, first, slices, found, its[i], paths[i], ends', version, pos);
    SkippingFound(goal, g, n, paths, skipped, found, i, pos);
    CompleteFound(goal, g, n, its[i], paths, skipped, found, i, pos);
  }

  lemma SkippingFound(goal: Goal, g: Graph, n: NodeRef, paths: seq<Path>, skipped: seq<Path>, found: seq<Path>,
                      i: nat, pos: nat)
    requires Skipping(goal, g, n, paths, skipped, found) && i < |paths| && pos <= |found|
    ensures Skipping(goal, g, n, Erased(paths, i), skipped, Inserted(found, pos, paths[i]))
  {
    var ps, fs := Erased(paths, i), Inserted(found, pos, paths[i]);
    assert forall k :: 0 <= k < |ps| ==> ps[k] == paths[if k < i then k else k + 1];
    forall a, b | 0 <= a < |skipped| && 0 <= b < |fs|
      ensures Incomparable(skipped[a], fs[b])
    {
      if b == pos {
        assert Incomparable(paths[i], skipped[a]);
      } else {
        assert Incomparable(skipped[a], found[if b < pos then b else b - 1]);
      }
    }
  }

  lemma CompleteFound(goal: Goal, g: Graph, n: NodeRef, it: Iterator, paths: seq<Path>, skipped: seq<Path>,
                      found: seq<Path>, i: nat, pos: nat)
    requires Complete(goal, g, n, paths, skipped, found) && i < |paths| && IsAt(goal, g, n, it, paths[i])
    requires Stops(goal, g, it) && pos <= |found|
    ensures Complete(goal, g, n, Erased(paths, i), skipped, Inserted(found, pos, paths[i]))
  {
    var found' := Inserted(found, pos, paths[i]);
    forall path | Final(goal, g, n, path) && !Cut(skipped, path)
      ensures Reaches(Erased(paths, i), found', path)
    {
      ReachesErased(paths, found, i, path);
      if paths[i] <= path {
        StopEndsPath(goal, g, n, paths[i], path);
        assert found'[pos] == path;
      } else if path in found {
        var k :| 0 <= k < |found| && found[k] == path;
        assert found'[if k < pos then k else k + 1] == path;
      }
    }
  }

  lemma SlicedInserted(goal: Goal, g: Graph, n: NodeRef, ends: seq<NodeRef>, first: nat, slices: seq<Slice>,
                       found: seq<Path>, it: Iterator, path: Path, ends': seq<NodeRef>, version: nat, pos: nat)
    requires Sliced(goal, g, n, ends, first, slices, found) && IsAt(goal, g, n, it, path) && Pops(goal, g, it)
    requires SlicePlaced(ends, slices, it.node, ends', version, pos) && version >= first
    requires Apart(Inserted(found, pos, path))
    ensures Sliced(goal, g, n, ends', first, Inserted(slices, pos, Slice(Reversed(it.subtrees), version)),
                   Inserted(found, pos, path))
  {
    var slice := Slice(Reversed(it.subtrees), version);
    var slices', found' := Inserted(slices, pos, slice), Inserted(found, pos, path);
    forall k | 0 <= k < |slices'|
      ensures SliceOk(goal, g, n, ends', first, slices'[k], found'[k])
    {
      if k != pos {
        var k' := if k < pos then k else k - 1;
        assert SliceOk(goal, g, n, ends, first, slices[k'], found[k']);
      }
    }
    GroupedInserted(slices, pos, slice);
    VersionsInserted(ends, first, slices, it.node, ends', slice, pos);
  }

  lemma VersionsInserted(ends: seq<NodeRef>, first: nat, slices: seq<Slice>, node: NodeRef, ends': seq<NodeRef>,
                         slice: Slice, pos: nat)
    requires NewVersions(ends, first, slices) && SlicePlaced(ends, slices, node, ends', slice.version, pos)
    ensures NewVersions(ends', first, Inserted(slices, pos, slice))
  {
    var slices' := Inserted(slices, pos, slice);
    forall v: nat | first <= v < |ends'|
      ensures HasSlice(slices', v)
    {
      if v == slice.version {
        assert slices'[pos].version == v;
      } else {
        assert HasSlice(slices, v);
        var k :| 0 <= k < |slices| && slices[k].version == v;
        assert slices'[if k < pos then k else k + 1] == slices[k];
      }
    }
    if ends' != ends {
      forall v: nat | first <= v < |ends|
        ensures ends[v] != node
      {
        assert HasSlice(slices, v);
      }
    }
  }

  lemma ErasedTracking(goal: Goal, g: Graph, n: NodeRef, its: seq<Iterator>, paths: seq<Path>, found: seq<Path>, i: nat)
    requires Tracking(goal, g, n, its, paths) && Apart(paths) && ApartFrom(paths, found) && i < |its|
    ensures Tracking(goal, g, n, Erased(its, i), Erased(paths, i)) && Apart(Erased(paths, i)) &&
            ApartFrom(Erased(paths, i), found)
  {
    ErasedApart(paths, found, i);
    forall k | 0 <= k < |its| - 1
      ensures IsAt(goal, g, n, Erased(its, i)[k], Erased(paths, i)[k])
    {
      var k' := if k < i then k else k + 1;
      assert IsAt(goal, g, n, its[k'], paths[k']);
    }
  }

  /** A path that meets the goal does not go on from where an iterator has to stop. */
  lemma StopEndsPath(goal: Goal, g: Graph, n: NodeRef, path: Path, goalPath: Path)
    requires Final(goal, g, n, goalPath) && path <= goalPath && IsPath(g, n, path)
    ensures Stops(goal, g, IterAt(g, n, path)) ==> path == goalPath
  {
    LivePrefix(goal, g, n, goalPath, |path|);
    assert goalPath[..|path|] == path;
  }

  lemma ReachesErased(paths: seq<Path>, found: seq<Path>, i: nat, path: Path)
    requires Reaches(paths, found, path) && i < |paths|
    ensures Reaches(Erased(paths, i), found, path) || paths[i] <= path
  {
    if path !in found {
      var k :| 0 <= k < |paths| && paths[k] <= path;
      if k != i {
        assert Erased(paths, i)[if k < i then k else k - 1] == paths[k];
      }
    }
  }

  /** An iterator that has to stop without meeting the goal is given up. */
  lemma IteratorStops(goal: Goal, g: Graph, n: NodeRef, its: seq<Iterator>, paths: seq<Path>, skipped: seq<Path>,
                      ends: seq<NodeRef>, first: nat, slices: seq<Slice>, found: seq<Path>, i: nat)
    requires Popping(goal, g, n, its, paths, skipped, ends, first, slices, found) && i < |its|
    requires Stops(goal, g, its[i]) && !Pops(goal, g, its[i])
    ensures Popping(goal, g, n, Erased(its, i), Erased(paths, i), skipped, ends, first, slices, found)
  {
    assert IsAt(goal, g, n, its[i], paths[i]);
    ErasedTracking(goal, g, n, its, paths, found, i);
    ErasedApart(paths, skipped, i);
    forall path | Final(goal, g, n, path) && !Cut(skipped, path)
      ensures Reaches(Erased(paths, i), found, path)
    {
      ReachesErased(paths, found, i, path);
      if paths[i] <= path {
        StopEndsPath(goal, g, n, paths[i], path);
      }
    }
  }

  /** What an iterator becomes along the `m` links behind its node's first. */
  function Followers(it: Iterator, links: seq<Link>, m: nat): (its: seq<Iterator>)
    requires m < |links|
    ensures |its| == m && forall k :: 0 <= k < m ==> its[k] == Follow(it, links[k + 1])
  {
    if m == 0 then [] else Followers(it, links, m - 1) + [Follow(it, links[m])]
  }

  /** The iterators after the one at `i` has followed its node's first `m + 1` links. */
  function AdvancedIterators(its: seq<Iterator>, i: nat, links: seq<Link>, m: nat): (its': seq<Iterator>)
    requires i < |its| && m < |links|
  {
    its[i := Follow(its[i], links[0])] + Followers(its[i], links, m)
  }

  lemma StepIsLive(goal: Goal, g: Graph, n: NodeRef, it: Iterator, path: Path, j: nat)
    requires IsAt(goal, g, n, it, path) && !Stops(goal, g, it) && it.node in g && j < |g[it.node].links|
    ensures IsAt(goal, g, n, Follow(it, g[it.node].links[j]), path + [j])
  {
    assert (path + [j])[..|path|] == path;
  }

  /** The links behind the first `m + 1` are skipped. */
  function Skips(path: Path, m: nat, last: nat): (skips: seq<Path>)
    requires m <= last
    ensures |skips| == last - m && forall k :: 0 <= k < |skips| ==> skips[k] == path + [m + 1 + k]
  {
    seq(last - m, k requires 0 <= k < last - m => path + [m + 1 + k])
  }

  /** An iterator goes on along its node's first links, and skips those there is no room for. */
  lemma IteratorAdvances(goal: Goal, g: Graph, n: NodeRef, its: seq<Iterator>, paths: seq<Path>, skipped: seq<Path>,
                         ends: seq<NodeRef>, first: nat, slices: seq<Slice>, found: seq<Path>, i: nat, m: nat)
    requires Popping(goal, g, n, its, paths, skipped, ends, first, slices, found) && i < |its|
    requires !Stops(goal, g, its[i]) && its[i].node in g && m < |g[its[i].node].links|
    ensures Popping(goal, g, n, AdvancedIterators(its, i, g[its[i].node].links, m), Advanced(paths, i, m),
                    skipped + Skips(paths[i], m, |g[its[i].node].links| - 1), ends, first, slices, found)
  {
    assert IsAt(goal, g, n, its[i], paths[i]);
    AdvancedApart(paths, i, m);
    AdvancedApartFrom(paths, found, i, m);
    AdvancedTracking(goal, g, n, its, paths, i, m);
    SkippingAdvanced(goal, g, n, its[i], paths, skipped, found, i, m);
    CompleteAdvanced(goal, g, n, its[i], paths, skipped, found, i, m);
  }

  lemma SkippingAdvanced(goal: Goal, g: Graph, n: NodeRef, it: Iterator, paths: seq<Path>, skipped: seq<Path>,
                         found: seq<Path>, i: nat, m: nat)
    requires Skipping(goal, g, n, paths, skipped, found) && Apart(paths) && ApartFrom(paths, found)
    requires i < |paths| && IsAt(goal, g, n, it, paths[i]) && !Stops(goal, g, it)
    requires it.node in g && m < |g[it.node].links|
    ensures Skipping(goal, g, n, Advanced(paths, i, m), skipped + Skips(paths[i], m, |g[it.node].links| - 1), found)
  {
    var skips := Skips(paths[i], m, |g[it.node].links| - 1);
    var paths', skipped' := Advanced(paths, i, m), skipped + skips;
    AdvancedApartFrom(paths, skipped, i, m);
    forall a, b | 0 <= a < |paths'| && 0 <= b < |skipped'|
      ensures Incomparable(paths'[a], skipped'[b])
    {
      if b >= |skipped| {
        SkipsApart(paths, i, m, |g[it.node].links| - 1, a, b - |skipped|);
      }
    }
    forall a, b | 0 <= a < |skipped'| && 0 <= b < |found|
      ensures Incomparable(skipped'[a], found[b])
    {
      if a >= |skipped| {
        LongerIsIncomparable(paths[i], found[b], m + 1 + a - |skipped|);
      }
    }
    forall k | 0 <= k < |skipped'|
      ensures Live(goal, g, n, skipped'[k])
    {
      if k >= |skipped| {
        StepIsLive(goal, g, n, it, paths[i], m + 1 + k - |skipped|);
      }
    }
  }

  lemma SkipsApart(paths: seq<Path>, i: nat, m: nat, last: nat, a: nat, b: nat)
    requires Apart(paths) && i < |paths| && m <= last && a < |paths| + m && b < last - m
    ensures |Advanced(paths, i, m)| == |paths| + m
    ensures Incomparable(Advanced(paths, i, m)[a], Skips(paths[i], m, last)[b])
  {
    AdvancedAt(paths, i, m, a);
    if a == i || a >= |paths| {
      ForksAreIncomparable(paths[i], if a == i then 0 else a - |paths| + 1, m + 1 + b);
    } else {
      assert Incomparable(paths[if a < i then a else i], paths[if a < i then i else a]);
      LongerIsIncomparable(paths[i], paths[a], m + 1 + b);
    }
  }

  lemma CompleteAdvanced(goal: Goal, g: Graph, n: NodeRef, it: Iterator, paths: seq<Path>, skipped: seq<Path>,
                         found: seq<Path>, i: nat, m: nat)
    requires Complete(goal, g, n, paths, skipped, found) && i < |paths| && IsAt(goal, g, n, it, paths[i])
    requires !Stops(goal, g, it) && it.node in g && m < |g[it.node].links|
    ensures Complete(goal, g, n, Advanced(paths, i, m), skipped + Skips(paths[i], m, |g[it.node].links| - 1), found)
  {
    var skips := Skips(paths[i], m, |g[it.node].links| - 1);
    forall path | Final(goal, g, n, path)
      ensures Reaches(Advanced(paths, i, m), found, path) || Cut(skipped + skips, path)
    {
      if k :| 0 <= k < |skipped| && skipped[k] <= path {
        assert (skipped + skips)[k] <= path;
      } else if path !in found {
        var k :| 0 <= k < |paths| && paths[k] <= path;
        if k == i {
          assert path == paths[i] ==> Stops(goal, g, it);
          NextIsFollowed(goal, g, n, it, paths, skipped, i, m, path);
        } else {
          AdvancedAt(paths, i, m, k);
          assert Advanced(paths, i, m)[k] <= path;
        }
      }
    }
  }

  lemma AdvancedIteratorAt(its: seq<Iterator>, i: nat, links: seq<Link>, m: nat, k: nat)
    requires i < |its| && m < |links| && k < |its| + m
    ensures |AdvancedIterators(its, i, links, m)| == |its| + m
    ensures AdvancedIterators(its, i, links, m)[k] ==
            if k == i then Follow(its[i], links[0])
            else if k < |its| then its[k]
            else Follow(its[i], links[k - |its| + 1])
  {
  }

  /** Who follows link `j` of the node: the iterator itself, or one pushed for it. */
  lemma FollowerAt(its: seq<Iterator>, paths: seq<Path>, i: nat, links: seq<Link>, m: nat, k: nat, j: nat)
    requires |its| == |paths| && i < |its| && m < |links| && j <= m
    requires k == if j == 0 then i else |its| + j - 1
    ensures |AdvancedIterators(its, i, links, m)| == |its| + m == |Advanced(paths, i, m)|
    ensures AdvancedIterators(its, i, links, m)[k] == Follow(its[i], links[j])
    ensures Advanced(paths, i, m)[k] == paths[i] + [j]
  {
    var its', paths' := AdvancedIterators(its, i, links, m), Advanced(paths, i, m);
    AdvancedAt(paths, i, m, k);
    AdvancedIteratorAt(its, i, links, m, k);
    if j > 0 {
      assert k - |its| + 1 == j;
      assert its'[k] == Follow(its[i], links[j]);
      assert paths'[k] == paths[i] + [j];
    } else {
      assert its'[i] == Follow(its[i], links[0]) && paths'[i] == paths[i] + [0];
    }
  }

  lemma AdvancedIsAt(goal: Goal, g: Graph, n: NodeRef, its: seq<Iterator>, paths: seq<Path>, i: nat, m: nat, k: nat)
    requires Tracking(goal, g, n, its, paths) && i < |its| && !Stops(goal, g, its[i])
    requires its[i].node in g && m < |g[its[i].node].links| && k < |its| + m
    ensures |AdvancedIterators(its, i, g[its[i].node].links, m)| == |its| + m == |Advanced(paths, i, m)|
    ensures IsAt(goal, g, n, AdvancedIterators(its, i, g[its[i].node].links, m)[k], Advanced(paths, i, m)[k])
  {
    var links := g[its[i].node].links;
    if k == i || k >= |its| {
      var j := if k == i then 0 else k - |its| + 1;
      FollowerAt(its, paths, i, links, m, k, j);
      assert IsAt(goal, g, n, its[i], paths[i]);
      StepIsLive(goal, g, n, its[i], paths[i], j);
    } else {
      AdvancedAt(paths, i, m, k);
      AdvancedIteratorAt(its, i, links, m, k);
      assert IsAt(goal, g, n, its[k], paths[k]);
    }
  }

  lemma AdvancedTracking(goal: Goal, g: Graph, n: NodeRef, its: seq<Iterator>, paths: seq<Path>, i: nat, m: nat)
    requires Tracking(goal, g, n, its, paths) && i < |its|
    requires !Stops(goal, g, its[i]) && its[i].node in g && m < |g[its[i].node].links|
    ensures Tracking(goal, g, n, AdvancedIterators(its, i, g[its[i].node].links, m), Advanced(paths, i, m))
  {
    var its', paths' := AdvancedIterators(its, i, g[its[i].node].links, m), Advanced(paths, i, m);
    forall k | 0 <= k < |its'|
      ensures IsAt(goal, g, n, its'[k], paths'[k])
    {
      AdvancedIsAt(goal, g, n, its, paths, i, m, k);
    }
  }

  /** Where a path goes on from an iterator, the iterator follows it or skips it. */
  lemma NextIsFollowed(goal: Goal, g: Graph, n: NodeRef, it: Iterator, paths: seq<Path>, skipped: seq<Path>, i: nat,
                       m: nat, path: Path)
    requires i < |paths| && IsAt(goal, g, n, it, paths[i]) && !Stops(goal, g, it) && it.node in g
    requires Live(goal, g, n, path) && paths[i] < path && m < |g[it.node].links|
    ensures || (exists k :: 0 <= k < |Advanced(paths, i, m)| && Advanced(paths, i, m)[k] <= path)
            || Cut(skipped + Skips(paths[i], m, |g[it.node].links| - 1), path)
  {
    NextStep(goal, g, n, it, paths[i], path);
    var j := path[|paths[i]|];
    if j <= m {
      var k := if j == 0 then i else |paths| + j - 1;
      AdvancedAt(paths, i, m, k);
      assert Advanced(paths, i, m)[k] <= path;
    } else {
      var skips := Skips(paths[i], m, |g[it.node].links| - 1);
      assert (skipped + skips)[|skipped| + j - m - 1] == paths[i] + [j];
    }
  }

  /** How a longer path goes on from an iterator. */
  lemma NextStep(goal: Goal, g: Graph, n: NodeRef, it: Iterator, path: Path, goalPath: Path)
    requires IsAt(goal, g, n, it, path) && !Stops(goal, g, it) && Live(goal, g, n, goalPath) && path < goalPath
    ensures it.node in g && goalPath[|path|] < |g[it.node].links| &&
            path + [goalPath[|path|]] <= goalPath
  {
    LivePrefix(goal, g, n, goalPath, |path|);
    var longer := goalPath[..|path| + 1];
    assert goalPath[..|path|] == path && longer[..|path|] == path;
    assert longer == path + [goalPath[|path|]];
  }

  // ---- One pass over the iterators ----

  /** In pass `pass` the iterators before `i`, and those pushed during it, have moved already. */
  ghost predicate InPass(paths: seq<Path>, i: nat, size: nat, pass: nat) {
    && i <= size <= |paths|
    && forall k :: 0 <= k < |paths| ==> |paths[k]| == if i <= k < size then pass else pass + 1
  }

  lemma PassErases(paths: seq<Path>, i: nat, size: nat, pass: nat)
    requires InPass(paths, i, size, pass) && i < size
    ensures InPass(Erased(paths, i), i, size - 1, pass)
  {
    assert forall k :: 0 <= k < |paths| - 1 ==> Erased(paths, i)[k] == paths[if k < i then k else k + 1];
  }

  lemma PassAdvances(paths: seq<Path>, i: nat, size: nat, pass: nat, m: nat)
    requires InPass(paths, i, size, pass) && i < size
    ensures InPass(Advanced(paths, i, m), i + 1, size, pass)
  {
    forall k | 0 <= k < |Advanced(paths, i, m)|
      ensures |Advanced(paths, i, m)[k]| == if i + 1 <= k < size then pass else pass + 1
    {
      AdvancedAt(paths, i, m, k);
    }
  }

  lemma PassIsBounded(goal: Goal, g: Graph, rank: NodeRef -> nat, n: NodeRef, its: seq<Iterator>, paths: seq<Path>,
                      pass: nat)
    requires Tracking(goal, g, n, its, paths) && Ranked(g, rank) && its != [] && InPass(paths, 0, |paths|, pass)
    ensures pass <= rank(n)
  {
    assert IsAt(goal, g, n, its[0], paths[0]);
    PathsAreShort(g, rank, n, paths[0]);
  }

  lemma NewEndsStored(goal: Goal, g: Graph, n: NodeRef, ends: seq<NodeRef>, first: nat, slices: seq<Slice>,
                      found: seq<Path>)
    requires Sliced(goal, g, n, ends, first, slices, found) && GraphOk(g) && n in g
    ensures forall v :: first <= v < |ends| ==> ends[v] in g
    ensures forall i :: 0 <= i < |slices| ==> first <= slices[i].version < |ends|
  {
    forall i | 0 <= i < |slices|
      ensures first <= slices[i].version < |ends| && ends[slices[i].version] in g
    {
      assert SliceOk(goal, g, n, ends, first, slices[i], found[i]);
      PathsAgree(g, n, found[i]);
    }
    forall v: nat | first <= v < |ends|
      ensures ends[v] in g
    {
      assert HasSlice(slices, v);
    }
  }
}
