/** Which paths a pop of the parse stack leaves out because it follows no more than 64 ways down at
    once. For stack.c:324-419. */
module PopWalks {
  import opened StackGraph
  import opened StackPops

  /** The ways down followed so far, in the middle of a pass over the first `size` of them, and
      those that were skipped. */
  datatype Walk = Walk(paths: seq<Path>, i: nat, size: nat, skipped: seq<Path>)

  /** How many more of those wanted there is room for. */
  function Room(count: nat, wanted: nat): (m: nat)
    ensures m <= wanted && (m < wanted ==> count + wanted > MAX_ITERATOR_COUNT)
    ensures count <= MAX_ITERATOR_COUNT ==> count + m <= MAX_ITERATOR_COUNT
  {
    if count + wanted <= MAX_ITERATOR_COUNT then wanted
    else if count >= MAX_ITERATOR_COUNT then 0 else MAX_ITERATOR_COUNT - count
  }

  /** One turn of the loop, with the cap or as it would be if there were room for every link. */
  ghost function WalkStep(capped: bool, goal: Goal, g: Graph, n: NodeRef, w: Walk): Walk {
    if w.i >= w.size || w.i >= |w.paths| || !IsPath(g, n, w.paths[w.i]) then w.(i := 0, size := |w.paths|)
    else
      var it := IterAt(g, n, w.paths[w.i]);
      if Stops(goal, g, it) || it.node !in g then w.(paths := Erased(w.paths, w.i), size := w.size - 1)
      else
        var last := |g[it.node].links| - 1;
        var m := if capped then Room(|w.paths|, last) else last;
        Walk(Advanced(w.paths, w.i, m), w.i + 1, w.size, w.skipped + Skips(w.paths[w.i], m, last))
  }

  const START := Walk([[]], 0, 1, [])

  ghost predicate TurnAt(capped: bool, goal: Goal, g: Graph, n: NodeRef, trace: seq<Walk>, j: nat) {
    j + 1 < |trace| ==> trace[j + 1] == WalkStep(capped, goal, g, n, trace[j])
  }

  /** The moments of a walk, turn after turn. */
  ghost predicate IsTrace(capped: bool, goal: Goal, g: Graph, n: NodeRef, trace: seq<Walk>) {
    && trace != [] && trace[0] == START
    && forall j: nat {:trigger TurnAt(capped, goal, g, n, trace, j)} :: TurnAt(capped, goal, g, n, trace, j)
  }

  ghost predicate IsTraceTo(capped: bool, goal: Goal, g: Graph, n: NodeRef, trace: seq<Walk>, w: Walk) {
    IsTrace(capped, goal, g, n, trace) && trace[|trace| - 1] == w
  }

  /** The walk comes by here. With the cap it is what a pop does. */
  ghost predicate OnCourse(capped: bool, goal: Goal, g: Graph, n: NodeRef, w: Walk) {
    exists trace :: IsTraceTo(capped, goal, g, n, trace, w)
  }

  lemma CourseStarts(capped: bool, goal: Goal, g: Graph, n: NodeRef)
    ensures OnCourse(capped, goal, g, n, START)
  {
    forall j: nat
      ensures TurnAt(capped, goal, g, n, [START], j)
    {
    }
    assert IsTraceTo(capped, goal, g, n, [START], START);
  }

  lemma TraceGrows(capped: bool, goal: Goal, g: Graph, n: NodeRef, trace: seq<Walk>, w: Walk)
    requires IsTrace(capped, goal, g, n, trace) && w == WalkStep(capped, goal, g, n, trace[|trace| - 1])
    ensures IsTrace(capped, goal, g, n, trace + [w])
  {
    forall j: nat
      ensures TurnAt(capped, goal, g, n, trace + [w], j)
    {
      assert TurnAt(capped, goal, g, n, trace, j);
    }
  }

  lemma CourseSteps(capped: bool, goal: Goal, g: Graph, n: NodeRef, w: Walk)
    requires OnCourse(capped, goal, g, n, w)
    ensures OnCourse(capped, goal, g, n, WalkStep(capped, goal, g, n, w))
  {
    var trace :| IsTraceTo(capped, goal, g, n, trace, w);
    var w' := WalkStep(capped, goal, g, n, w);
    TraceGrows(capped, goal, g, n, trace, w');
    assert IsTraceTo(capped, goal, g, n, trace + [w'], w');
  }

  lemma StepErases(goal: Goal, g: Graph, n: NodeRef, it: Iterator, w: Walk)
    requires w.i < w.size <= |w.paths| && IsAt(goal, g, n, it, w.paths[w.i]) && Stops(goal, g, it)
    ensures WalkStep(true, goal, g, n, w) == w.(paths := Erased(w.paths, w.i), size := w.size - 1)
  {
  }

  lemma StepAdvances(goal: Goal, g: Graph, n: NodeRef, it: Iterator, w: Walk, m: nat)
    requires w.i < w.size <= |w.paths| && IsAt(goal, g, n, it, w.paths[w.i])
    requires !Stops(goal, g, it) && it.node in g && m == Room(|w.paths|, |g[it.node].links| - 1)
    ensures WalkStep(true, goal, g, n, w) ==
            Walk(Advanced(w.paths, w.i, m), w.i + 1, w.size,
                 w.skipped + Skips(w.paths[w.i], m, |g[it.node].links| - 1))
  {
  }

  // ---- What is left out ----

  ghost predicate SkippedAt(goal: Goal, g: Graph, n: NodeRef, w: Walk, path: Path) {
    OnCourse(true, goal, g, n, w) && path in w.skipped
  }

  /** At some turn there was no room to follow this way. */
  ghost predicate IsSkipped(goal: Goal, g: Graph, n: NodeRef, path: Path) {
    exists w :: SkippedAt(goal, g, n, w, path)
  }

  ghost predicate LeftOut(goal: Goal, g: Graph, n: NodeRef, path: Path) {
    exists p {:trigger IsSkipped(goal, g, n, p)} :: p <= path && IsSkipped(goal, g, n, p)
  }

  lemma StepSkips(capped: bool, goal: Goal, g: Graph, n: NodeRef, w: Walk)
    ensures w.skipped <= WalkStep(capped, goal, g, n, w).skipped
    ensures w.paths == [] ==>
              WalkStep(capped, goal, g, n, w).paths == [] && WalkStep(capped, goal, g, n, w).skipped == w.skipped
  {
  }

  /** What was skipped stays so, and at the end nothing more is skipped. */
  lemma {:induction false} SkippedStay(capped: bool, goal: Goal, g: Graph, n: NodeRef, trace: seq<Walk>, i: nat, j: nat)
    requires IsTrace(capped, goal, g, n, trace) && i <= j < |trace|
    ensures trace[i].skipped <= trace[j].skipped
    ensures trace[i].paths == [] ==> trace[j].paths == [] && trace[j].skipped == trace[i].skipped
    decreases j - i
  {
    if i < j {
      SkippedStay(capped, goal, g, n, trace, i, j - 1);
      assert TurnAt(capped, goal, g, n, trace, j - 1);
      StepSkips(capped, goal, g, n, trace[j - 1]);
    }
  }

  lemma {:induction false} OneWalk(capped: bool, goal: Goal, g: Graph, n: NodeRef, a: seq<Walk>, b: seq<Walk>, j: nat)
    requires IsTrace(capped, goal, g, n, a) && IsTrace(capped, goal, g, n, b) && j < |a| && j < |b|
    ensures a[j] == b[j]
  {
    if j > 0 {
      OneWalk(capped, goal, g, n, a, b, j - 1);
      assert TurnAt(capped, goal, g, n, a, j - 1) && TurnAt(capped, goal, g, n, b, j - 1);
    }
  }

  /** Once the walk is over, all that was ever skipped is there. */
  lemma SkippedAtTheEnd(goal: Goal, g: Graph, n: NodeRef, w: Walk, path: Path)
    requires OnCourse(true, goal, g, n, w) && w.paths == []
    ensures IsSkipped(goal, g, n, path) <==> path in w.skipped
  {
    if path in w.skipped {
      assert SkippedAt(goal, g, n, w, path);
    }
    if v :| SkippedAt(goal, g, n, v, path) {
      var a :| IsTraceTo(true, goal, g, n, a, v);
      var b :| IsTraceTo(true, goal, g, n, b, w);
      if |a| <= |b| {
        OneWalk(true, goal, g, n, a, b, |a| - 1);
        SkippedStay(true, goal, g, n, b, |a| - 1, |b| - 1);
      } else {
        OneWalk(true, goal, g, n, a, b, |b| - 1);
        SkippedStay(true, goal, g, n, a, |b| - 1, |a| - 1);
      }
    }
  }

  lemma LeftOutIsCut(goal: Goal, g: Graph, n: NodeRef, w: Walk, path: Path)
    requires OnCourse(true, goal, g, n, w) && w.paths == []
    ensures LeftOut(goal, g, n, path) <==> Cut(w.skipped, path)
  {
    if Cut(w.skipped, path) {
      var k :| 0 <= k < |w.skipped| && w.skipped[k] <= path;
      SkippedAtTheEnd(goal, g, n, w, w.skipped[k]);
    }
    if p :| p <= path && IsSkipped(goal, g, n, p) {
      SkippedAtTheEnd(goal, g, n, w, p);
    }
  }

  /** The result of a pop: of the paths that meet the goal, exactly those that are not left out. */
  ghost predicate Popped(goal: Goal, g: Graph, n: NodeRef, ends: seq<NodeRef>, first: nat, slices: seq<Slice>,
                         found: seq<Path>) {
    && Sliced(goal, g, n, ends, first, slices, found)
    && forall path {:trigger FoundIff(goal, g, n, found, path)} :: FoundIff(goal, g, n, found, path)
  }

  ghost predicate FoundIff(goal: Goal, g: Graph, n: NodeRef, found: seq<Path>, path: Path) {
    path in found <==> Final(goal, g, n, path) && !LeftOut(goal, g, n, path)
  }

  lemma PoppingDone(goal: Goal, g: Graph, n: NodeRef, w: Walk, ends: seq<NodeRef>, first: nat, slices: seq<Slice>,
                    found: seq<Path>)
    requires Popping(goal, g, n, [], [], w.skipped, ends, first, slices, found)
    requires OnCourse(true, goal, g, n, w) && w.paths == []
    ensures Popped(goal, g, n, ends, first, slices, found)
  {
    forall path
      ensures FoundIff(goal, g, n, found, path)
    {
      LeftOutIsCut(goal, g, n, w, path);
      if path in found {
        var k :| 0 <= k < |found| && found[k] == path;
        assert SliceOk(goal, g, n, ends, first, slices[k], found[k]);
        assert forall j :: 0 <= j < |w.skipped| ==> Incomparable(w.skipped[j], found[k]);
      } else if Final(goal, g, n, path) {
        assert !Reaches([], found, path);
      }
    }
  }

  /** All slices of one version span the same text. */
  lemma SlicesOfOneVersionAgree(goal: Goal, g: Graph, n: NodeRef, ends: seq<NodeRef>, first: nat, slices: seq<Slice>,
                                found: seq<Path>, i: nat, j: nat)
    requires Popped(goal, g, n, ends, first, slices, found) && GraphOk(g) && n in g
    requires i < |slices| && j < |slices| && slices[i].version == slices[j].version
    ensures SumTrees(slices[i].subtrees) == SumTrees(slices[j].subtrees)
  {
    assert SliceOk(goal, g, n, ends, first, slices[i], found[i]) &&
           SliceOk(goal, g, n, ends, first, slices[j], found[j]);
    SliceSpans(g, n, found[i]);
    SliceSpans(g, n, found[j]);
  }

  // ---- When something is skipped ----

  ghost predicate OverflowsAt(goal: Goal, g: Graph, n: NodeRef, w: Walk) {
    OnCourse(false, goal, g, n, w) && |w.paths| > MAX_ITERATOR_COUNT
  }

  /** Without the cap there would be a moment with more ways down than there may be iterators. */
  ghost predicate Overflows(goal: Goal, g: Graph, n: NodeRef) {
    exists w :: OverflowsAt(goal, g, n, w)
  }

  lemma StepFits(goal: Goal, g: Graph, n: NodeRef, w: Walk)
    requires |w.paths| <= MAX_ITERATOR_COUNT
    ensures |WalkStep(true, goal, g, n, w).paths| <= MAX_ITERATOR_COUNT
  {
  }

  /** Until something is skipped the cap makes no difference; then the walk without it overflows. */
  lemma StepsTogether(goal: Goal, g: Graph, n: NodeRef, w: Walk)
    requires w.skipped == []
    ensures var w', w'' := WalkStep(true, goal, g, n, w), WalkStep(false, goal, g, n, w);
            if w'.skipped == [] then w' == w'' else |w''.paths| > MAX_ITERATOR_COUNT
  {
  }

  lemma {:induction false} CappedFits(goal: Goal, g: Graph, n: NodeRef, trace: seq<Walk>, j: nat)
    requires IsTrace(true, goal, g, n, trace) && j < |trace|
    ensures |trace[j].paths| <= MAX_ITERATOR_COUNT
  {
    if j > 0 {
      CappedFits(goal, g, n, trace, j - 1);
      assert TurnAt(true, goal, g, n, trace, j - 1);
      StepFits(goal, g, n, trace[j - 1]);
    }
  }

  lemma TogetherUntilSkipped(goal: Goal, g: Graph, n: NodeRef, trace: seq<Walk>)
    requires IsTrace(true, goal, g, n, trace) && trace[|trace| - 1].skipped == []
    ensures IsTrace(false, goal, g, n, trace)
  {
    forall j: nat
      ensures TurnAt(false, goal, g, n, trace, j)
    {
      if j + 1 < |trace| {
        SkippedStay(true, goal, g, n, trace, j, |trace| - 1);
        SkippedStay(true, goal, g, n, trace, j + 1, |trace| - 1);
        assert TurnAt(true, goal, g, n, trace, j);
        StepsTogether(goal, g, n, trace[j]);
      }
    }
  }

  lemma PrefixIsTrace(capped: bool, goal: Goal, g: Graph, n: NodeRef, trace: seq<Walk>, k: nat)
    requires IsTrace(capped, goal, g, n, trace) && 0 < k <= |trace|
    ensures IsTrace(capped, goal, g, n, trace[..k])
  {
    forall j: nat
      ensures TurnAt(capped, goal, g, n, trace[..k], j)
    {
      assert TurnAt(capped, goal, g, n, trace, j);
    }
  }

  lemma {:induction false} SkippedOverflows(goal: Goal, g: Graph, n: NodeRef, trace: seq<Walk>)
    requires IsTrace(true, goal, g, n, trace) && trace[|trace| - 1].skipped != []
    ensures Overflows(goal, g, n)
    decreases |trace|
  {
    var k := |trace| - 1;
    var init, w := trace[..k], trace[k - 1];
    PrefixIsTrace(true, goal, g, n, trace, k);
    if w.skipped != [] {
      SkippedOverflows(goal, g, n, init);
    } else {
      TogetherUntilSkipped(goal, g, n, init);
      assert TurnAt(true, goal, g, n, trace, k - 1) && IsTraceTo(false, goal, g, n, init, w);
      StepsTogether(goal, g, n, w);
      CourseSteps(false, goal, g, n, w);
      assert OverflowsAt(goal, g, n, WalkStep(false, goal, g, n, w));
    }
  }

  lemma {:induction false} TraceOf(capped: bool, goal: Goal, g: Graph, n: NodeRef, length: nat)
    returns (trace: seq<Walk>)
    requires length > 0
    ensures |trace| == length && IsTrace(capped, goal, g, n, trace)
  {
    if length == 1 {
      CourseStarts(capped, goal, g, n);
      trace := [START];
      assert forall j: nat :: TurnAt(capped, goal, g, n, trace, j);
    } else {
      trace := TraceOf(capped, goal, g, n, length - 1);
      var w := WalkStep(capped, goal, g, n, trace[|trace| - 1]);
      TraceGrows(capped, goal, g, n, trace, w);
      trace := trace + [w];
    }
  }

  lemma OverflowSkips(goal: Goal, g: Graph, n: NodeRef, w: Walk) returns (path: Path)
    requires OverflowsAt(goal, g, n, w)
    ensures IsSkipped(goal, g, n, path)
  {
    var b :| IsTraceTo(false, goal, g, n, b, w);
    var a := TraceOf(true, goal, g, n, |b|);
    var k := |a| - 1;
    CappedFits(goal, g, n, a, k);
    if a[k].skipped == [] {
      TogetherUntilSkipped(goal, g, n, a);
      OneWalk(false, goal, g, n, a, b, k);
    } else {
      path := a[k].skipped[0];
      assert IsTraceTo(true, goal, g, n, a, a[k]) && SkippedAt(goal, g, n, a[k], path);
    }
  }

  /** A link is skipped exactly if the walk without the cap overflows. */
  lemma SkipsIffOverflows(goal: Goal, g: Graph, n: NodeRef)
    ensures (exists p :: IsSkipped(goal, g, n, p)) <==> Overflows(goal, g, n)
  {
    if p :| IsSkipped(goal, g, n, p) {
      var w :| SkippedAt(goal, g, n, w, p);
      var trace :| IsTraceTo(true, goal, g, n, trace, w);
      SkippedOverflows(goal, g, n, trace);
    }
    if Overflows(goal, g, n) {
      var w :| OverflowsAt(goal, g, n, w);
      var path := OverflowSkips(goal, g, n, w);
    }
  }

  // ---- What the walks go through ----

  /** The ways down are genuine, none leads through another, and those of one moment are of one
      length, or of two that differ by one. */
  ghost predicate WalkOk(goal: Goal, g: Graph, n: NodeRef, w: Walk, pass: nat) {
    && InPass(w.paths, w.i, w.size, pass) && Apart(w.paths)
    && (forall k :: 0 <= k < |w.paths| ==> Live(goal, g, n, w.paths[k]))
    && forall k :: 0 <= k < |w.skipped| ==> Live(goal, g, n, w.skipped[k])
  }

  lemma WalkAdvancesOk(goal: Goal, g: Graph, n: NodeRef, w: Walk, pass: nat, it: Iterator, m: nat)
    requires WalkOk(goal, g, n, w, pass) && w.i < w.size && IsAt(goal, g, n, it, w.paths[w.i])
    requires !Stops(goal, g, it) && it.node in g && m < |g[it.node].links|
    ensures WalkOk(goal, g, n, Walk(Advanced(w.paths, w.i, m), w.i + 1, w.size,
                                    w.skipped + Skips(w.paths[w.i], m, |g[it.node].links| - 1)), pass)
  {
    PassAdvances(w.paths, w.i, w.size, pass, m);
    AdvancedApart(w.paths, w.i, m);
    forall k | 0 <= k < |w.paths| + m
      ensures Live(goal, g, n, Advanced(w.paths, w.i, m)[k])
    {
      AdvancedAt(w.paths, w.i, m, k);
      if k == w.i || k >= |w.paths| {
        StepIsLive(goal, g, n, it, w.paths[w.i], if k == w.i then 0 else k - |w.paths| + 1);
      }
    }
    var skips := Skips(w.paths[w.i], m, |g[it.node].links| - 1);
    forall k | 0 <= k < |skips|
      ensures Live(goal, g, n, skips[k])
    {
      StepIsLive(goal, g, n, it, w.paths[w.i], m + 1 + k);
    }
  }

  lemma WalkStepOk(capped: bool, goal: Goal, g: Graph, n: NodeRef, w: Walk, pass: nat) returns (pass': nat)
    requires WalkOk(goal, g, n, w, pass) && GraphOk(g) && n in g
    ensures WalkOk(goal, g, n, WalkStep(capped, goal, g, n, w), pass')
    ensures pass' == if w.i < w.size then pass else pass + 1
  {
    pass' := pass;
    if w.i >= w.size {
      pass' := pass + 1;
    } else {
      var it := IterAt(g, n, w.paths[w.i]);
      PathsAgree(g, n, w.paths[w.i]);
      if Stops(goal, g, it) {
        PassErases(w.paths, w.i, w.size, pass);
        ErasedApart(w.paths, [], w.i);
      } else {
        var last := |g[it.node].links| - 1;
        WalkAdvancesOk(goal, g, n, w, pass, it, if capped then Room(|w.paths|, last) else last);
      }
    }
  }

  lemma {:induction false} TraceIsOk(capped: bool, goal: Goal, g: Graph, n: NodeRef, trace: seq<Walk>, j: nat)
    returns (pass: nat)
    requires GraphOk(g) && n in g && IsTrace(capped, goal, g, n, trace) && j < |trace|
    ensures WalkOk(goal, g, n, trace[j], pass)
  {
    if j == 0 {
      pass := 0;
      assert START.paths[0] == [];
    } else {
      pass := TraceIsOk(capped, goal, g, n, trace, j - 1);
      assert TurnAt(capped, goal, g, n, trace, j - 1);
      pass := WalkStepOk(capped, goal, g, n, trace[j - 1], pass);
    }
  }

  lemma WalkIsOk(capped: bool, goal: Goal, g: Graph, n: NodeRef, w: Walk) returns (pass: nat)
    requires GraphOk(g) && n in g && OnCourse(capped, goal, g, n, w)
    ensures WalkOk(goal, g, n, w, pass)
  {
    var trace :| IsTraceTo(capped, goal, g, n, trace, w);
    pass := TraceIsOk(capped, goal, g, n, trace, |trace| - 1);
  }

  /** More than 64 ways down of almost one length, none of them through another. */
  ghost predicate Wide(goal: Goal, g: Graph, n: NodeRef, paths: seq<Path>, pass: nat) {
    && |paths| > MAX_ITERATOR_COUNT && Apart(paths)
    && forall k :: 0 <= k < |paths| ==> Live(goal, g, n, paths[k]) && pass <= |paths[k]| <= pass + 1
  }

  /** A stack overflows only if it is that wide at some depth, however deep it is. */
  lemma OverflowsOnlyIfWide(goal: Goal, g: Graph, n: NodeRef)
    requires Overflows(goal, g, n) && GraphOk(g) && n in g
    ensures exists paths, pass :: Wide(goal, g, n, paths, pass)
  {
    var w :| OverflowsAt(goal, g, n, w);
    var pass := WalkIsOk(false, goal, g, n, w);
    assert Wide(goal, g, n, w.paths, pass);
  }

  // ---- A crowd overflows ----

  ghost predicate HasPrefix(paths: seq<Path>, path: Path) {
    exists k :: 0 <= k < |paths| && paths[k] <= path
  }

  /** The walk is on its way to all that is at least `from` deep. */
  ghost predicate Covering(goal: Goal, g: Graph, n: NodeRef, w: Walk, from: nat) {
    forall path {:trigger Live(goal, g, n, path)} :: Live(goal, g, n, path) && |path| >= from ==>
      HasPrefix(w.paths, path)
  }

  lemma CoveringStep(goal: Goal, g: Graph, n: NodeRef, w: Walk, pass: nat)
    requires WalkOk(goal, g, n, w, pass) && Covering(goal, g, n, w, pass + 1) && GraphOk(g) && n in g
    ensures Covering(goal, g, n, WalkStep(false, goal, g, n, w), pass + 1)
  {
    var w' := WalkStep(false, goal, g, n, w);
    forall path | Live(goal, g, n, path) && |path| > pass
      ensures HasPrefix(w'.paths, path)
    {
      var k :| 0 <= k < |w.paths| && w.paths[k] <= path;
      if w.i < w.size {
        PathsAgree(g, n, w.paths[w.i]);
        StepKeepsPrefix(goal, g, n, w, path, k);
      }
    }
  }

  lemma StepKeepsPrefix(goal: Goal, g: Graph, n: NodeRef, w: Walk, path: Path, k: nat)
    requires w.i < w.size <= |w.paths| && IsPath(g, n, w.paths[w.i]) && EndOf(g, n, w.paths[w.i]) in g
    requires Live(goal, g, n, w.paths[w.i]) && Live(goal, g, n, path)
    requires k < |w.paths| && w.paths[k] <= path && |w.paths[w.i]| < |path|
    ensures HasPrefix(WalkStep(false, goal, g, n, w).paths, path)
  {
    var it, paths' := IterAt(g, n, w.paths[w.i]), WalkStep(false, goal, g, n, w).paths;
    if k == w.i {
      LivePrefix(goal, g, n, path, |w.paths[k]|);
      assert path[..|w.paths[k]|] == w.paths[k];
      var last := |g[it.node].links| - 1;
      NextIsFollowed(goal, g, n, it, w.paths, [], w.i, last, path);
    } else if Stops(goal, g, it) {
      assert paths'[if k < w.i then k else k - 1] == w.paths[k];
    } else {
      AdvancedAt(w.paths, w.i, |g[it.node].links| - 1, k);
      assert paths'[k] == w.paths[k];
    }
  }

  /** The start of a pass. */
  ghost predicate Begins(goal: Goal, g: Graph, n: NodeRef, w: Walk, pass: nat) {
    && OnCourse(false, goal, g, n, w) && w.i == 0 && w.size == |w.paths|
    && WalkOk(goal, g, n, w, pass) && Covering(goal, g, n, w, pass)
  }

  lemma {:induction false} PassEnds(goal: Goal, g: Graph, n: NodeRef, w: Walk, pass: nat) returns (w': Walk)
    requires GraphOk(g) && n in g && OnCourse(false, goal, g, n, w) && WalkOk(goal, g, n, w, pass)
    requires Covering(goal, g, n, w, pass + 1)
    ensures Begins(goal, g, n, w', pass + 1)
    decreases w.size - w.i
  {
    w' := WalkStep(false, goal, g, n, w);
    CourseSteps(false, goal, g, n, w);
    var pass' := WalkStepOk(false, goal, g, n, w, pass);
    CoveringStep(goal, g, n, w, pass);
    if w.i < w.size {
      StepIsProgress(goal, g, n, w);
      w' := PassEnds(goal, g, n, w', pass);
    }
  }

  lemma StepIsProgress(goal: Goal, g: Graph, n: NodeRef, w: Walk)
    requires w.i < w.size <= |w.paths| && IsPath(g, n, w.paths[w.i])
    ensures var w' := WalkStep(false, goal, g, n, w); 0 <= w'.size - w'.i < w.size - w.i
  {
  }

  lemma {:induction false} PassBegins(goal: Goal, g: Graph, n: NodeRef, pass: nat) returns (w: Walk)
    requires GraphOk(g) && n in g
    ensures Begins(goal, g, n, w, pass)
  {
    if pass == 0 {
      w := START;
      CourseStarts(false, goal, g, n);
      assert w.paths[0] == [];
      forall path | Live(goal, g, n, path)
        ensures HasPrefix(w.paths, path)
      {
        assert w.paths[0] <= path;
      }
    } else {
      w := PassBegins(goal, g, n, pass - 1);
      w := PassEnds(goal, g, n, w, pass - 1);
    }
  }

  lemma {:induction false} DistinctFit(crowd: seq<Path>, paths: seq<Path>)
    requires forall i, j :: 0 <= i < j < |crowd| ==> crowd[i] != crowd[j]
    requires forall i :: 0 <= i < |crowd| ==> crowd[i] in paths
    ensures |crowd| <= |paths|
    decreases |crowd|
  {
    if crowd != [] {
      var last := crowd[|crowd| - 1];
      var k :| 0 <= k < |paths| && paths[k] == last;
      var init, others := crowd[..|crowd| - 1], Erased(paths, k);
      forall i | 0 <= i < |init|
        ensures init[i] in others
      {
        var j :| 0 <= j < |paths| && paths[j] == crowd[i];
        assert others[if j < k then j else j - 1] == crowd[i];
      }
      DistinctFit(init, others);
    }
  }

  /** A stack overflows if more than 64 ways down of one length are still to be followed. */
  lemma CrowdOverflows(goal: Goal, g: Graph, n: NodeRef, crowd: seq<Path>, depth: nat)
    requires GraphOk(g) && n in g && |crowd| > MAX_ITERATOR_COUNT
    requires forall i, j :: 0 <= i < j < |crowd| ==> crowd[i] != crowd[j]
    requires forall i :: 0 <= i < |crowd| ==> Live(goal, g, n, crowd[i]) && |crowd[i]| == depth
    ensures Overflows(goal, g, n)
  {
    var w := PassBegins(goal, g, n, depth);
    forall i | 0 <= i < |crowd|
      ensures crowd[i] in w.paths
    {
      assert HasPrefix(w.paths, crowd[i]);
      var k :| 0 <= k < |w.paths| && w.paths[k] <= crowd[i];
      assert w.paths[k] == crowd[i];
    }
    DistinctFit(crowd, w.paths);
    assert OverflowsAt(goal, g, n, w);
  }

  // ---- A pop of everything ----

  /** Every path goes on to a bottom. */
  lemma {:induction false} ToTheBottom(g: Graph, rank: NodeRef -> nat, n: NodeRef, path: Path) returns (longer: Path)
    requires GraphOk(g) && Ranked(g, rank) && n in g && IsPath(g, n, path)
    ensures path <= longer && Final(Bottom, g, n, longer)
    decreases rank(EndOf(g, n, path))
  {
    PathsAgree(g, n, path);
    var end := EndOf(g, n, path);
    if g[end].links == [] {
      longer := path;
      BottomIsMetIff(g, n, path);
    } else {
      assert (path + [0])[..|path|] == path && Falls(g, rank, end, 0);
      longer := ToTheBottom(g, rank, n, path + [0]);
      assert path <= path + [0];
    }
  }

  /** A pop of everything leaves a path out exactly if the walk without the cap overflows. */
  lemma BottomLosesIff(g: Graph, n: NodeRef)
    requires GraphOk(g) && Acyclic(g) && n in g
    ensures (exists path {:trigger Final(Bottom, g, n, path)} ::
               Final(Bottom, g, n, path) && LeftOut(Bottom, g, n, path))
            <==> Overflows(Bottom, g, n)
  {
    SkipsIffOverflows(Bottom, g, n);
    if p :| IsSkipped(Bottom, g, n, p) {
      var w :| SkippedAt(Bottom, g, n, w, p);
      var pass := WalkIsOk(true, Bottom, g, n, w);
      var rank :| Ranked(g, rank);
      var path := ToTheBottom(g, rank, n, p);
      assert LeftOut(Bottom, g, n, path);
    }
  }

  /** ... so it finds all exactly if it does not. */
  lemma AllFoundIff(g: Graph, n: NodeRef, ends: seq<NodeRef>, first: nat, slices: seq<Slice>, found: seq<Path>)
    requires GraphOk(g) && Acyclic(g) && n in g && Popped(Bottom, g, n, ends, first, slices, found)
    ensures (forall path {:trigger Final(Bottom, g, n, path)} :: Final(Bottom, g, n, path) ==> path in found)
            <==> !Overflows(Bottom, g, n)
  {
    BottomLosesIff(g, n);
    forall path
      ensures Final(Bottom, g, n, path) ==> (path in found <==> !LeftOut(Bottom, g, n, path))
    {
      assert FoundIff(Bottom, g, n, found, path);
    }
  }

  // ---- A pop of some subtrees ----

  lemma {:induction false} CountsGrow(g: Graph, n: NodeRef, path: Path, k: nat)
    requires IsPath(g, n, path) && k <= |path|
    ensures IsPath(g, n, path[..k]) && CountedLinks(g, n, path[..k]) <= CountedLinks(g, n, path)
    decreases |path|
  {
    if k == |path| {
      assert path[..k] == path;
    } else {
      CountsGrow(g, n, path[..|path| - 1], k);
      assert path[..|path| - 1][..k] == path[..k];
    }
  }

  /** Where a path first has enough counted links. */
  lemma {:induction false} FirstEnough(g: Graph, n: NodeRef, path: Path, count: nat) returns (k: nat)
    requires IsPath(g, n, path) && CountedLinks(g, n, path) >= count
    ensures k <= |path| && Final(Count(count), g, n, path[..k])
    decreases |path|
  {
    if path == [] || CountedLinks(g, n, path[..|path| - 1]) < count {
      k := |path|;
      assert path[..k] == path;
      CountIsMetIff(g, n, path, count);
    } else {
      k := FirstEnough(g, n, path[..|path| - 1], count);
      assert path[..|path| - 1][..k] == path[..k];
    }
  }

  /** A pop of `count` subtrees leaves a path out exactly if a skipped way goes on, or could, for
      that many counted links in all. */
  lemma CountLosesIff(g: Graph, n: NodeRef, count: nat)
    requires GraphOk(g) && n in g
    ensures (exists path {:trigger Final(Count(count), g, n, path)} ::
               Final(Count(count), g, n, path) && LeftOut(Count(count), g, n, path))
            <==> exists path {:trigger CountedLinks(g, n, path)} ::
                   && IsPath(g, n, path) && CountedLinks(g, n, path) >= count
                   && LeftOut(Count(count), g, n, path)
  {
    var goal := Count(count);
    if path :| Final(goal, g, n, path) && LeftOut(goal, g, n, path) {
      CountIsMetIff(g, n, path, count);
      assert CountedLinks(g, n, path) >= count;
    }
    if path :| IsPath(g, n, path) && CountedLinks(g, n, path) >= count && LeftOut(goal, g, n, path) {
      var p :| p <= path && IsSkipped(goal, g, n, p);
      var w :| SkippedAt(goal, g, n, w, p);
      var pass := WalkIsOk(true, goal, g, n, w);
      var k := FirstEnough(g, n, path, count);
      EnoughIsBehind(g, n, path, p, count, k);
      assert LeftOut(goal, g, n, path[..k]);
    }
  }

  /** A walk that went on to `p` had not enough before. */
  lemma EnoughIsBehind(g: Graph, n: NodeRef, path: Path, p: Path, count: nat, k: nat)
    requires IsPath(g, n, path) && p <= path && Live(Count(count), g, n, p)
    requires k <= |path| && Final(Count(count), g, n, path[..k])
    ensures p <= path[..k]
  {
    if k < |p| {
      assert p[..k] == path[..k];
      LivePrefix(Count(count), g, n, p, k);
    }
  }
}
