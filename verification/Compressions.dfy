/** What compressing a chain leaves behind, exactly: each function here is one loop of the code as
    a value. On top of it, which repeat depths a compression keeps right and which parse states it
    takes away. For ts_subtree_compress (subtree.c:292-336) and ts_parser__balance_subtree
    (parser.c:1878-1933). */
module Compressions {
  import opened SyntaxTrees
  import opened Summaries
  import opened SubtreeMemory
  import opened Rotations
  import opened Fragility
  import opened Balancing

  // ---- Memory after each loop ----

  /** Three nodes are summarized, `c` first. */
  ghost function LinkSummarized(f: Summarizer, h: Nodes, x: Ref, c: Ref, g: Ref): Nodes {
    f.at(f.at(f.at(h, c), g), x)
  }

  /** One turn of the second loop: the three nodes of a link are summarized, lowest first. */
  ghost function UnwoundLink(f: Summarizer, h: Nodes, x: Ref): Nodes {
    if !FirstIsParent(h, x) then h
    else
      var c := First(h, x);
      var last := |h[c].children| - 1;
      if last < 0 || h[c].children[last].Inline? then h
      else LinkSummarized(f, h, x, h[c].children[last].ref, c)
  }

  /** The nodes rotated, in order: what the first loop leaves on the stack. */
  ghost function RotatedChain(h: Nodes, x: Ref, count: nat, symbol: Symbol): seq<Ref>
    decreases count
  {
    if count == 0 || !HasRotation(h, x, symbol) then []
    else
      var g := First(h, First(h, x));
      [x] + RotatedChain(Rotated(h, x, First(h, x), g), g, count - 1, symbol)
  }

  /** `h'` is `h` after one rotation at `x`, which put `g` below it. */
  ghost predicate IsStep(h: Nodes, x: Ref, symbol: Symbol, h': Nodes, g: Ref) {
    HasRotation(h, x, symbol) && g == First(h, First(h, x)) && h' == Rotated(h, x, First(h, x), g)
  }

  ghost predicate StepAt(trace: seq<Nodes>, xs: seq<Ref>, symbol: Symbol, j: nat) {
    j + 1 < |trace| && j + 1 < |xs| ==> IsStep(trace[j], xs[j], symbol, trace[j + 1], xs[j + 1])
  }

  /** The memories the first loop goes through: at `xs[j]` each is rotated into the next. */
  ghost predicate IsTrace(trace: seq<Nodes>, xs: seq<Ref>, symbol: Symbol) {
    |trace| == |xs| > 0 && forall j: nat {:trigger StepAt(trace, xs, symbol, j)} :: StepAt(trace, xs, symbol, j)
  }

  /** The first loop has led from `h0` to `h`; it rotated at all of `xs` but the last. */
  ghost predicate Traced(h0: Nodes, h: Nodes, xs: seq<Ref>, symbol: Symbol) {
    exists trace :: IsTraceFrom(trace, xs, symbol, h0, h)
  }

  ghost predicate IsTraceFrom(trace: seq<Nodes>, xs: seq<Ref>, symbol: Symbol, first: Nodes, last: Nodes) {
    IsTrace(trace, xs, symbol) && trace[0] == first && trace[|trace| - 1] == last
  }

  lemma TraceStarts(h: Nodes, x: Ref, symbol: Symbol)
    ensures Traced(h, h, [x], symbol)
  {
    var trace := [h];
    forall j: nat
      ensures StepAt(trace, [x], symbol, j)
    {
    }
    assert IsTraceFrom(trace, [x], symbol, h, h);
  }

  lemma TraceGrows(h0: Nodes, h: Nodes, xs: seq<Ref>, symbol: Symbol, h': Nodes, g: Ref)
    requires Traced(h0, h, xs, symbol) && xs != [] && IsStep(h, xs[|xs| - 1], symbol, h', g)
    ensures Traced(h0, h', xs + [g], symbol)
  {
    var trace :| IsTraceFrom(trace, xs, symbol, h0, h);
    var longer, ys := trace + [h'], xs + [g];
    forall j: nat
      ensures StepAt(longer, ys, symbol, j)
    {
      assert StepAt(trace, xs, symbol, j);
    }
    assert IsTraceFrom(longer, ys, symbol, h0, h');
  }

  lemma ChainUncons(xs: seq<Ref>)
    requires |xs| > 1
    ensures xs[..|xs| - 1] == [xs[0]] + xs[1..][..|xs| - 2]
  {
  }

  lemma PushedOn(below: seq<Ref>, xs: seq<Ref>, g: Ref)
    requires xs != []
    ensures below + xs[..|xs| - 1] + [xs[|xs| - 1]] == below + (xs + [g])[..|xs|]
  {
  }

  /** A loop that has gone through them and may not or can not go on has done what was asked. */
  lemma {:induction false} TraceIsComplete(trace: seq<Nodes>, xs: seq<Ref>, symbol: Symbol, count: nat)
    requires IsTrace(trace, xs, symbol) && |xs| <= count + 1
    requires |xs| <= count ==> !HasRotation(trace[|trace| - 1], xs[|xs| - 1], symbol)
    ensures trace[|trace| - 1] == RotatedTimes(trace[0], xs[0], count, symbol)
    ensures xs[..|xs| - 1] == RotatedChain(trace[0], xs[0], count, symbol)
    decreases |xs|
  {
    if |xs| > 1 {
      var rest, ys := trace[1..], xs[1..];
      assert StepAt(trace, xs, symbol, 0);
      forall j: nat
        ensures StepAt(rest, ys, symbol, j)
      {
        assert StepAt(trace, xs, symbol, j + 1);
      }
      TraceIsComplete(rest, ys, symbol, count - 1);
      ChainUncons(xs);
    }
  }

  /** The second loop, from the end of the chain to its start. */
  ghost function Unwound(f: Summarizer, h: Nodes, chain: seq<Ref>): Nodes {
    if chain == [] then h else UnwoundLink(f, Unwound(f, h, chain[1..]), chain[0])
  }

  lemma {:induction false} UnwoundLast(f: Summarizer, h: Nodes, chain: seq<Ref>)
    requires chain != []
    ensures Unwound(f, h, chain) == Unwound(f, UnwoundLink(f, h, chain[|chain| - 1]), chain[..|chain| - 1])
    decreases |chain|
  {
    var init := chain[..|chain| - 1];
    if |chain| == 1 {
      assert chain[1..] == [] && init == [];
    } else {
      UnwoundLast(f, h, chain[1..]);
      assert chain[1..][..|chain| - 2] == init[1..] && init[0] == chain[0];
    }
  }

  /** One pop: the stack loses the last node of the chain, whose link is then summarized. */
  lemma ChainPop(below: seq<Ref>, xs: seq<Ref>, n: nat)
    requires 0 < n <= |xs|
    ensures var stack := below + xs[..n];
            stack[|stack| - 1] == xs[n - 1] && stack[..|stack| - 1] == below + xs[..n - 1]
  {
  }

  ghost predicate UnwoundTo(k: Compression, goal: Nodes, h: Nodes, roots: Roots, n: nat) {
    && |k.xs| == |k.cs| + 1 && n <= |k.cs|
    && goal == Unwound(k.scope.summarizer, h, k.xs[..n]) && k.Holds(h, roots, StaleIn(k.xs, k.cs, n))
  }

  /** All links but the first `n` have been summarized; summarizing these leads to `goal`. */
  ghost predicate Unwinding(k: Compression, goal: Nodes, h: Nodes, roots: Roots, n: nat) {
    exists m: nat :: UnwoundTo(k, goal, h, roots, m) && m == n
  }

  lemma UnwindingStarts(k: Compression, h: Nodes, roots: Roots)
    requires |k.xs| == |k.cs| + 1 && k.Holds(h, roots, k.Stale())
    ensures Unwinding(k, Unwound(k.scope.summarizer, h, k.xs[..|k.cs|]), h, roots, |k.cs|)
  {
    assert UnwoundTo(k, Unwound(k.scope.summarizer, h, k.xs[..|k.cs|]), h, roots, |k.cs|);
  }

  /** The nodes of the next link. */
  lemma NextLink(k: Compression, goal: Nodes, h: Nodes, roots: Roots, n: nat)
    requires Unwinding(k, goal, h, roots, n) && 0 < n <= |k.cs| && |k.xs| == |k.cs| + 1
    ensures k.Holds(h, roots, StaleIn(k.xs, k.cs, n))
    ensures k.xs[n - 1] in h && h[k.xs[n - 1]].children != [] && h[k.xs[n - 1]].children[0] == Ptr(k.xs[n])
    ensures k.xs[n] in h && h[k.xs[n]].children != []
    ensures h[k.xs[n]].children[|h[k.xs[n]].children| - 1] == Ptr(k.cs[n - 1])
  {
    LinkAt(k, h, roots, StaleIn(k.xs, k.cs, n), n);
    assert SpineLink(h, k.xs, k.cs, n - 1);
  }

  lemma UnwindingStep(k: Compression, goal: Nodes, h: Nodes, h': Nodes, roots: Roots, n: nat)
    requires Unwinding(k, goal, h, roots, n) && 0 < n <= |k.cs| && |k.xs| == |k.cs| + 1
    requires h' == UnwoundLink(k.scope.summarizer, h, k.xs[n - 1]) && k.Holds(h', roots, StaleIn(k.xs, k.cs, n - 1))
    ensures Unwinding(k, goal, h', roots, n - 1)
  {
    UnwoundLast(k.scope.summarizer, h, k.xs[..n]);
    assert k.xs[..n][..n - 1] == k.xs[..n - 1];
    assert UnwoundTo(k, goal, h', roots, n - 1);
  }

  lemma UnwindingEnds(k: Compression, goal: Nodes, h: Nodes, roots: Roots)
    requires Unwinding(k, goal, h, roots, 0)
    ensures h == goal && k.Holds(h, roots, {})
  {
    assert StaleIn(k.xs, k.cs, 0) == {};
    assert k.xs[..0] == [];
  }

  /** ... and it has stopped because it had to. */
  ghost predicate Chained(h0: Nodes, h: Nodes, xs: seq<Ref>, count: nat, symbol: Symbol) {
    && Traced(h0, h, xs, symbol) && 0 < |xs| <= count + 1
    && (|xs| <= count ==> !HasRotation(h, xs[|xs| - 1], symbol))
  }

  lemma ChainedIsCompressed(f: Summarizer, h0: Nodes, h: Nodes, xs: seq<Ref>, count: nat, symbol: Symbol)
    requires Chained(h0, h, xs, count, symbol)
    ensures Unwound(f, h, xs[..|xs| - 1]) == Compressed(f, h0, xs[0], count, symbol)
  {
    var trace :| IsTraceFrom(trace, xs, symbol, h0, h);
    TraceIsComplete(trace, xs, symbol, count);
    CompressedIsUnwound(f, h0, xs[0], count, symbol);
  }

  /** Memory after a compression. */
  ghost function Compressed(f: Summarizer, h: Nodes, x: Ref, count: nat, symbol: Symbol): Nodes
    decreases count, 0
  {
    if count == 0 || !HasRotation(h, x, symbol) then h else CompressedBelow(f, h, x, count - 1, symbol)
  }

  /** ... after one rotation, all that comes below it, and the summaries of its link. */
  ghost function CompressedBelow(f: Summarizer, h: Nodes, x: Ref, left: nat, symbol: Symbol): Nodes
    requires HasRotation(h, x, symbol)
    decreases left, 1
  {
    var g := First(h, First(h, x));
    UnwoundLink(f, Compressed(f, Rotated(h, x, First(h, x), g), g, left, symbol), x)
  }

  /** Rotating all the way down and then summarizing all the way up is what that says. */
  lemma {:induction false} CompressedIsUnwound(f: Summarizer, h: Nodes, x: Ref, count: nat, symbol: Symbol)
    ensures Compressed(f, h, x, count, symbol) ==
            Unwound(f, RotatedTimes(h, x, count, symbol), RotatedChain(h, x, count, symbol))
    decreases count
  {
    if count > 0 && HasRotation(h, x, symbol) {
      var g := First(h, First(h, x));
      var h1 := Rotated(h, x, First(h, x), g);
      assert Compressed(f, h, x, count, symbol) == CompressedBelow(f, h, x, count - 1, symbol);
      CompressedIsUnwound(f, h1, g, count - 1, symbol);
      var rest := RotatedChain(h1, g, count - 1, symbol);
      assert ([x] + rest)[1..] == rest;
    }
  }

  /** Compressions by `count`, half of it, a quarter, and so on. */
  ghost function Halving(f: Summarizer, h: Nodes, x: Ref, count: nat, symbol: Symbol): Nodes
    decreases count
  {
    if count == 0 then h else Halving(f, Compressed(f, h, x, count, symbol), x, count / 2, symbol)
  }

  /** Memory before a compression, and by how much it is to be. */
  datatype Stage = Stage(h: Nodes, count: nat)

  ghost predicate StageAt(f: Summarizer, stages: seq<Stage>, x: Ref, symbol: Symbol, j: nat) {
    j + 1 < |stages| ==>
      && stages[j].count > 0
      && stages[j + 1] == Stage(Compressed(f, stages[j].h, x, stages[j].count, symbol), stages[j].count / 2)
  }

  ghost predicate IsHalving(f: Summarizer, stages: seq<Stage>, x: Ref, symbol: Symbol) {
    |stages| > 0 && forall j: nat {:trigger StageAt(f, stages, x, symbol, j)} :: StageAt(f, stages, x, symbol, j)
  }

  /** Halving from `count` in `h` has come to `count'` in `h'`. */
  ghost predicate HalvedTo(f: Summarizer, h: Nodes, x: Ref, count: nat, symbol: Symbol, h': Nodes, count': nat) {
    exists stages :: LeadsFrom(f, stages, x, symbol, Stage(h, count), Stage(h', count'))
  }

  ghost predicate LeadsFrom(f: Summarizer, stages: seq<Stage>, x: Ref, symbol: Symbol, first: Stage, last: Stage) {
    IsHalving(f, stages, x, symbol) && stages[0] == first && stages[|stages| - 1] == last
  }

  lemma HalvingStarts(f: Summarizer, h: Nodes, x: Ref, count: nat, symbol: Symbol)
    ensures HalvedTo(f, h, x, count, symbol, h, count)
  {
    var stages := [Stage(h, count)];
    forall j: nat
      ensures StageAt(f, stages, x, symbol, j)
    {
    }
    assert LeadsFrom(f, stages, x, symbol, Stage(h, count), Stage(h, count));
  }

  lemma HalvingGrows(f: Summarizer, h: Nodes, x: Ref, count: nat, symbol: Symbol, h': Nodes, count': nat)
    requires HalvedTo(f, h, x, count, symbol, h', count') && count' > 0
    ensures HalvedTo(f, h, x, count, symbol, Compressed(f, h', x, count', symbol), count' / 2)
  {
    var stages :| LeadsFrom(f, stages, x, symbol, Stage(h, count), Stage(h', count'));
    var longer := stages + [Stage(Compressed(f, h', x, count', symbol), count' / 2)];
    forall j: nat
      ensures StageAt(f, longer, x, symbol, j)
    {
      assert StageAt(f, stages, x, symbol, j);
    }
    assert LeadsFrom(f, longer, x, symbol, Stage(h, count), longer[|longer| - 1]);
  }

  lemma {:induction false} HalvingEnds(f: Summarizer, stages: seq<Stage>, x: Ref, symbol: Symbol)
    requires IsHalving(f, stages, x, symbol) && stages[|stages| - 1].count == 0
    ensures stages[|stages| - 1].h == Halving(f, stages[0].h, x, stages[0].count, symbol)
    decreases |stages|
  {
    if |stages| > 1 {
      var rest := stages[1..];
      assert StageAt(f, stages, x, symbol, 0);
      forall j: nat
        ensures StageAt(f, rest, x, symbol, j)
      {
        assert StageAt(f, stages, x, symbol, j + 1);
      }
      HalvingEnds(f, rest, x, symbol);
    }
  }

  ghost predicate IsHalved(f: Summarizer, h: Nodes, x: Ref, count: nat, symbol: Symbol, h': Nodes) {
    HalvedTo(f, h, x, count, symbol, h', 0)
  }

  /** Memory after the node at `x` has been balanced. */
  ghost function Balanced(f: Summarizer, h: Nodes, x: Ref): Nodes {
    if CanSummarize(h, x) then Halving(f, h, x, CompressionCount(h, x), h[x].info.symbol) else h
  }

  ghost predicate IsBalanced(f: Summarizer, h: Nodes, x: Ref, h': Nodes) {
    CanSummarize(h, x) && IsHalved(f, h, x, CompressionCount(h, x), h[x].info.symbol, h')
  }

  lemma NothingToHalve(f: Summarizer, h: Nodes, x: Ref, symbol: Symbol)
    ensures IsHalved(f, h, x, 0, symbol, h)
  {
    HalvingStarts(f, h, x, 0, symbol);
  }

  datatype WalkState = WalkState(h: Nodes, stack: seq<Ref>)

  /** One turn of the walk. */
  ghost function Turn(f: Summarizer, w: WalkState): WalkState {
    if w.stack == [] then w
    else
      var n := |w.stack| - 1;
      var x := w.stack[n];
      var h := Balanced(f, w.h, x);
      if CanSummarize(h, x) then WalkState(h, w.stack[..n] + UnsharedParents(h, h[x].children)) else w
  }

  ghost predicate TurnAt(f: Summarizer, states: seq<WalkState>, j: nat) {
    j + 1 < |states| ==> states[j + 1] == Turn(f, states[j])
  }

  ghost predicate IsRun(f: Summarizer, states: seq<WalkState>) {
    |states| > 0 && forall j: nat {:trigger TurnAt(f, states, j)} :: TurnAt(f, states, j)
  }

  /** Some number of turns leads from one state of the walk to the other. */
  ghost predicate RunsTo(f: Summarizer, w: WalkState, w': WalkState) {
    exists states :: IsRun(f, states) && states[0] == w && states[|states| - 1] == w'
  }

  lemma RunStarts(f: Summarizer, w: WalkState)
    ensures RunsTo(f, w, w)
  {
    var states := [w];
    forall j: nat
      ensures TurnAt(f, states, j)
    {
    }
    assert IsRun(f, states) && states[0] == w && states[|states| - 1] == w;
  }

  lemma RunGrows(f: Summarizer, w: WalkState, w1: WalkState, w2: WalkState)
    requires RunsTo(f, w, w1) && w2 == Turn(f, w1)
    ensures RunsTo(f, w, w2)
  {
    var states :| IsRun(f, states) && states[0] == w && states[|states| - 1] == w1;
    var longer := states + [w2];
    forall j: nat
      ensures TurnAt(f, longer, j)
    {
      assert TurnAt(f, states, j);
    }
    assert IsRun(f, longer) && longer[0] == w && longer[|longer| - 1] == w2;
  }

  /** The top of the stack has made room for its unshared parents. */
  ghost predicate IsVisit(h: Nodes, stack: seq<Ref>, x: Ref, stack': seq<Ref>) {
    && stack != [] && x == stack[|stack| - 1] && CanSummarize(h, x)
    && stack' == stack[..|stack| - 1] + UnsharedParents(h, h[x].children)
  }

  /** What the code does in one turn. */
  lemma TurnTaken(f: Summarizer, w: WalkState, h: Nodes, stack: seq<Ref>, x: Ref, h': Nodes, stack': seq<Ref>)
    requires RunsTo(f, w, WalkState(h, stack)) && IsBalanced(f, h, x, h') && IsVisit(h', stack, x, stack')
    ensures RunsTo(f, w, WalkState(h', stack'))
  {
    var count, symbol := CompressionCount(h, x), h[x].info.symbol;
    var stages :| LeadsFrom(f, stages, x, symbol, Stage(h, count), Stage(h', 0));
    HalvingEnds(f, stages, x, symbol);
    assert h' == Balanced(f, h, x);
    RunGrows(f, w, WalkState(h, stack), WalkState(h', stack'));
  }

  lemma OneLessLeft(nodes: set<Ref>, done: set<Ref>, x: Ref)
    requires x in nodes && x !in done
    ensures |nodes - (done + {x})| < |nodes - done|
  {
    assert nodes - (done + {x}) == (nodes - done) - {x};
  }

  // ---- One summary ----

  lemma SummarizerLinks(f: Summarizer, h: Nodes, r: Ref)
    requires f.Right()
    ensures SameLinks(h, f.at(h, r))
  {
    SummarizerSkips(f, h, r);
    if CanSummarize(h, r) {
      SummarizerIs(f, h, r);
      SummarizedLinks(f.lang, h, r, f.at(h, r));
    } else {
      SameLinksItself(h);
    }
  }

  lemma SummarizerValid(f: Summarizer, h: Nodes, roots: Roots, r: Ref)
    requires f.Right()
    requires SubtreeMemory.Valid(h, roots)
    ensures SubtreeMemory.Valid(f.at(h, r), roots)
  {
    SummarizerSkips(f, h, r);
    if CanSummarize(h, r) {
      var h' := f.at(h, r);
      SummarizerIs(f, h, r);
      forall y
        ensures TracksAt(h', h, {r}, y)
      {
      }
      SameShapeValid(h, h', roots, {r});
    }
  }

  lemma UnwoundLinkKeeps(f: Summarizer, h: Nodes, roots: Roots, x: Ref)
    requires f.Right()
    ensures SameLinks(h, UnwoundLink(f, h, x))
    ensures SubtreeMemory.Valid(h, roots) ==> SubtreeMemory.Valid(UnwoundLink(f, h, x), roots)
  {
    SameLinksItself(h);
    if FirstIsParent(h, x) {
      var c := First(h, x);
      var last := |h[c].children| - 1;
      if last >= 0 && h[c].children[last].Ptr? {
        ThreeSummarized(f, h, roots, h[c].children[last].ref, c, x);
      }
    }
  }

  lemma ThreeSummarized(f: Summarizer, h: Nodes, roots: Roots, a: Ref, b: Ref, c: Ref)
    requires f.Right()
    ensures var h' := f.at(f.at(f.at(h, a), b), c);
            SameLinks(h, h') && (SubtreeMemory.Valid(h, roots) ==> SubtreeMemory.Valid(h', roots))
  {
    var h1 := f.at(h, a);
    var h2 := f.at(h1, b);
    var h3 := f.at(h2, c);
    SummarizerLinks(f, h, a);
    SummarizerLinks(f, h1, b);
    SummarizerLinks(f, h2, c);
    SameLinksTransitive(h, h1, h2);
    SameLinksTransitive(h, h2, h3);
    if SubtreeMemory.Valid(h, roots) {
      SummarizerValid(f, h, roots, a);
      SummarizerValid(f, h1, roots, b);
      SummarizerValid(f, h2, roots, c);
    }
  }

  // ---- Which nodes a compression rewrites ----

  ghost function RotatedNodes(h: Nodes, x: Ref, count: nat, symbol: Symbol): set<Ref>
    decreases count
  {
    if count == 0 || !HasRotation(h, x, symbol) then {}
    else
      var c, g := First(h, x), First(h, First(h, x));
      {x, c, g} + RotatedNodes(Rotated(h, x, c, g), g, count - 1, symbol)
  }

  /** The links of a compression are those of its rotations, and memory stays valid. */
  lemma {:induction false} CompressedLinks(f: Summarizer, h: Nodes, roots: Roots, x: Ref, count: nat, symbol: Symbol)
    requires f.Right()
    requires SubtreeMemory.Valid(h, roots) && x in h && h[x].info.symbol == symbol
    ensures SubtreeMemory.Valid(Compressed(f, h, x, count, symbol), roots)
    ensures SameLinks(RotatedTimes(h, x, count, symbol), Compressed(f, h, x, count, symbol))
    decreases count
  {
    SameLinksItself(h);
    if count > 0 && HasRotation(h, x, symbol) {
      var c, g := First(h, x), First(h, First(h, x));
      var h1 := Rotated(h, x, c, g);
      RotatableCanRotate(h, roots, x, c, g, symbol);
      RotatedValid(h, roots, x, c, g);
      assert Compressed(f, h, x, count, symbol) == CompressedBelow(f, h, x, count - 1, symbol);
      CompressedLinks(f, h1, roots, g, count - 1, symbol);
      var h2 := Compressed(f, h1, g, count - 1, symbol);
      UnwoundLinkKeeps(f, h2, roots, x);
      SameLinksTransitive(RotatedTimes(h1, g, count - 1, symbol), h2, UnwoundLink(f, h2, x));
    }
  }

  /** A node that ranks above the chain is not on it. */
  lemma {:induction false} AboveUnrotated(h: Nodes, roots: Roots, rank: map<Ref, nat>, x: Ref, count: nat,
                                          symbol: Symbol, y: Ref)
    requires SubtreeMemory.Valid(h, roots) && x in h && h[x].info.symbol == symbol && Ranked(h, rank)
    requires y in rank && rank[y] > rank[x]
    ensures y !in RotatedNodes(h, x, count, symbol)
    decreases count
  {
    if count > 0 && HasRotation(h, x, symbol) {
      var c, g := First(h, x), First(h, First(h, x));
      RotatableCanRotate(h, roots, x, c, g, symbol);
      RotatedValid(h, roots, x, c, g);
      RotatedRanked(h, roots, rank, x, c, g);
      assert Descends(h, rank, x, 0) && Descends(h, rank, c, 0);
      AboveUnrotated(Rotated(h, x, c, g), roots, RotatedRank(rank, c, g), g, count - 1, symbol, y);
    }
  }

  lemma TwoSlots(h: Nodes, roots: Roots, a: Slot, b: Slot, k: Ref)
    requires Counts(h, roots, {}, multiset{}) && HasSlot(h, roots, a) && HasSlot(h, roots, b) && k in h
    requires At(h, roots, a) == Ptr(k) && At(h, roots, b) == Ptr(k) && h[k].refCount == 1
    ensures a == b
  {
    SoleOwner(h, roots, a);
    if a != b {
      NotAnOwner(h, roots, a, k, b);
    }
  }

  /** Neither is a node that has a place beside or above the chain. */
  lemma {:induction false} BesideUnrotated(h: Nodes, roots: Roots, rank: map<Ref, nat>, x: Ref, count: nat,
                                           symbol: Symbol, y: Ref, p: Ref, i: nat)
    requires SubtreeMemory.Valid(h, roots) && x in h && h[x].info.symbol == symbol && Ranked(h, rank)
    requires p in h && i < |h[p].children| && h[p].children[i] == Ptr(y) && y != x
    requires if p == x then i > 0 else rank[p] > rank[x]
    ensures y !in RotatedNodes(h, x, count, symbol)
    decreases count
  {
    if count > 0 && HasRotation(h, x, symbol) {
      var c, g := First(h, x), First(h, First(h, x));
      var h1 := Rotated(h, x, c, g);
      RotatableCanRotate(h, roots, x, c, g, symbol);
      assert Descends(h, rank, x, 0) && Descends(h, rank, c, 0);
      if y == c {
        TwoSlots(h, roots, Child(x, 0), Child(p, i), c);
      }
      if y == g {
        TwoSlots(h, roots, Child(c, 0), Child(p, i), g);
      }
      RotatedValid(h, roots, x, c, g);
      RotatedRanked(h, roots, rank, x, c, g);
      RotatedSlots(h, roots, x, c, g, Child(p, i));
      BesideUnrotated(h1, roots, RotatedRank(rank, c, g), g, count - 1, symbol, y, p, i);
    }
  }

  /** Memory as the three summaries of a link find it: the links are those the rotation made. */
  ghost predicate LinkReady(h: Nodes, h2: Nodes, roots: Roots, x: Ref, c: Ref, g: Ref) {
    && CanRotate(h, x, c, g) && SubtreeMemory.Valid(h2, roots) && x in h2 && c in h2 && g in h2
    && h2[x] == Rotated(h, x, c, g)[x] && h2[c] == Rotated(h, x, c, g)[c]
    && h2[g].refCount == 1 && h2[c].refCount == 1 && h2[g].info.symbol == h[g].info.symbol
    && h2[x].children[0] == Ptr(g) && |h2[g].children| == |h[g].children|
    && h2[g].children[|h2[g].children| - 1] == Ptr(c)
  }

  /** `c` and `g` hang in the link of `x`, and nowhere else. */
  ghost predicate IsLink(h: Nodes, x: Ref, c: Ref, g: Ref) {
    && x in h && c in h && g in h && x != c && c != g && x != g
    && h[x].children != [] && h[c].children != [] && h[g].children != []
    && h[g].refCount == 1 && h[c].refCount == 1
    && h[x].children[0] == Ptr(g) && h[g].children[|h[g].children| - 1] == Ptr(c)
  }

  lemma ReadyIsLink(h: Nodes, h2: Nodes, roots: Roots, x: Ref, c: Ref, g: Ref)
    requires LinkReady(h, h2, roots, x, c, g)
    ensures IsLink(h2, x, c, g)
  {
    RotationLists(h, x, c, g);
  }

  lemma LinkIsUnwound(f: Summarizer, h: Nodes, x: Ref, c: Ref, g: Ref)
    requires IsLink(h, x, c, g)
    ensures UnwoundLink(f, h, x) == LinkSummarized(f, h, x, c, g)
  {
  }

  /** Memory when everything below the first link has been compressed. */
  ghost function BelowCompressed(f: Summarizer, h: Nodes, x: Ref, c: Ref, g: Ref, count: nat, symbol: Symbol): Nodes
    requires Rotatable(h, x, c, g, symbol)
  {
    Compressed(f, Rotated(h, x, c, g), g, count, symbol)
  }

  lemma LinkFoundAt(h: Nodes, h1: Nodes, h2: Nodes, roots: Roots, x: Ref, c: Ref, g: Ref)
    requires CanRotate(h, x, c, g) && h1 == Rotated(h, x, c, g) && SubtreeMemory.Valid(h2, roots)
    requires x in h2 && c in h2 && g in h2 && h2[x] == h1[x] && h2[c] == h1[c]
    requires h2[g].refCount == h1[g].refCount && h2[g].info.symbol == h1[g].info.symbol
    requires |h2[g].children| == |h1[g].children| && h2[g].children[1..] == h1[g].children[1..]
    ensures LinkReady(h, h2, roots, x, c, g)
  {
    var last := |h1[g].children| - 1;
    assert h2[g].children[last] == h2[g].children[1..][last - 1] &&
           h1[g].children[last] == h1[g].children[1..][last - 1];
  }

  lemma {:induction false} LinkFound(f: Summarizer, h: Nodes, roots: Roots, rank: map<Ref, nat>, x: Ref, c: Ref, g: Ref,
                                     count: nat, symbol: Symbol)
    requires f.Right()
    requires SubtreeMemory.Valid(h, roots) && Ranked(h, rank) && x in h && h[x].info.symbol == symbol
    requires Rotatable(h, x, c, g, symbol)
    ensures LinkReady(h, BelowCompressed(f, h, x, c, g, count, symbol), roots, x, c, g)
    decreases count, 2
  {
    RotatableCanRotate(h, roots, x, c, g, symbol);
    RotatedValid(h, roots, x, c, g);
    RotatedRanked(h, roots, rank, x, c, g);
    var h1, rank1 := Rotated(h, x, c, g), RotatedRank(rank, c, g);
    assert h1[x].children[0] == Ptr(g) && h1[g].children[|h1[g].children| - 1] == Ptr(c) && h1[c].refCount == 1;
    assert Descends(h1, rank1, x, 0);
    CompressedLinks(f, h1, roots, g, count, symbol);
    AboveUnrotated(h1, roots, rank1, g, count, symbol, x);
    BesideUnrotated(h1, roots, rank1, g, count, symbol, c, g, |h1[g].children| - 1);
    CompressedElsewhere(f, h1, roots, rank1, g, count, symbol, x);
    CompressedElsewhere(f, h1, roots, rank1, g, count, symbol, c);
    FirstNodeKeepsRest(f, h1, roots, rank1, g, count, symbol);
    LinkFoundAt(h, h1, Compressed(f, h1, g, count, symbol), roots, x, c, g);
  }

  lemma ReadyKeepsRest(f: Summarizer, h: Nodes, h2: Nodes, roots: Roots, x: Ref, c: Ref, g: Ref)
    requires f.Right()
    requires LinkReady(h, h2, roots, x, c, g)
    ensures RestKept(h, UnwoundLink(f, h2, x), x)
  {
    UnwoundLinkKeeps(f, h2, roots, x);
    assert LinksKept(h2, UnwoundLink(f, h2, x), x);
    RotationLists(h, x, c, g);
  }

  lemma CompressedStep(f: Summarizer, h: Nodes, x: Ref, count: nat, symbol: Symbol) returns (c: Ref, g: Ref)
    requires count > 0 && HasRotation(h, x, symbol)
    ensures Rotatable(h, x, c, g, symbol)
    ensures Compressed(f, h, x, count, symbol) ==
            UnwoundLink(f, BelowCompressed(f, h, x, c, g, count - 1, symbol), x)
    ensures RotatedNodes(h, x, count, symbol) == {x, c, g} + RotatedNodes(Rotated(h, x, c, g), g, count - 1, symbol)
  {
    c, g := First(h, x), First(h, First(h, x));
    assert Compressed(f, h, x, count, symbol) == CompressedBelow(f, h, x, count - 1, symbol);
  }

  ghost predicate RestKept(h: Nodes, h': Nodes, x: Ref) {
    && x in h && x in h' && h'[x].refCount == h[x].refCount && h'[x].info.symbol == h[x].info.symbol
    && |h'[x].children| == |h[x].children| && (h[x].children != [] ==> h'[x].children[1..] == h[x].children[1..])
  }

  lemma {:induction false} StepKeepsRest(f: Summarizer, h: Nodes, roots: Roots, rank: map<Ref, nat>, x: Ref, c: Ref,
                                         g: Ref, count: nat, symbol: Symbol)
    requires f.Right()
    requires SubtreeMemory.Valid(h, roots) && Ranked(h, rank) && x in h && h[x].info.symbol == symbol
    requires Rotatable(h, x, c, g, symbol)
    ensures RestKept(h, UnwoundLink(f, BelowCompressed(f, h, x, c, g, count, symbol), x), x)
    decreases count, 3
  {
    LinkFound(f, h, roots, rank, x, c, g, count, symbol);
    ReadyKeepsRest(f, h, BelowCompressed(f, h, x, c, g, count, symbol), roots, x, c, g);
  }

  /** The first node of a chain exchanges its first child only. */
  lemma {:induction false} FirstNodeKeepsRest(f: Summarizer, h: Nodes, roots: Roots, rank: map<Ref, nat>, x: Ref,
                                              count: nat, symbol: Symbol)
    requires f.Right()
    requires SubtreeMemory.Valid(h, roots) && Ranked(h, rank) && x in h && h[x].info.symbol == symbol
    ensures RestKept(h, Compressed(f, h, x, count, symbol), x)
    decreases count, 0
  {
    if count > 0 && HasRotation(h, x, symbol) {
      var c, g := CompressedStep(f, h, x, count, symbol);
      StepKeepsRest(f, h, roots, rank, x, c, g, count - 1, symbol);
    }
  }

  lemma LinkElsewhere(f: Summarizer, h: Nodes, x: Ref, c: Ref, g: Ref, r: Ref)
    requires f.Right()
    requires r != x && r != c && r != g
    ensures r in LinkSummarized(f, h, x, c, g) <==> r in h
    ensures r in h ==> LinkSummarized(f, h, x, c, g)[r] == h[r]
  {
    SummarizerSkips(f, h, c);
    SummarizerSkips(f, f.at(h, c), g);
    SummarizerSkips(f, f.at(f.at(h, c), g), x);
  }

  lemma RotatedElsewhere(h: Nodes, x: Ref, c: Ref, g: Ref, r: Ref)
    requires CanRotate(h, x, c, g) && r != x && r != c && r != g
    ensures r in Rotated(h, x, c, g) <==> r in h
    ensures r in h ==> Rotated(h, x, c, g)[r] == h[r]
  {
  }

  ghost predicate SameAt(h: Nodes, h': Nodes, r: Ref) {
    (r in h' <==> r in h) && (r in h ==> h'[r] == h[r])
  }

  lemma {:induction false} StepElsewhere(f: Summarizer, h: Nodes, roots: Roots, rank: map<Ref, nat>, x: Ref, c: Ref,
                                         g: Ref, count: nat, symbol: Symbol, r: Ref)
    requires f.Right()
    requires SubtreeMemory.Valid(h, roots) && Ranked(h, rank) && x in h && h[x].info.symbol == symbol
    requires Rotatable(h, x, c, g, symbol)
    requires r !in {x, c, g} + RotatedNodes(Rotated(h, x, c, g), g, count, symbol)
    ensures SameAt(h, UnwoundLink(f, BelowCompressed(f, h, x, c, g, count, symbol), x), r)
    decreases count, 3
  {
    LinkFound(f, h, roots, rank, x, c, g, count, symbol);
    RotatedValid(h, roots, x, c, g);
    RotatedRanked(h, roots, rank, x, c, g);
    CompressedElsewhere(f, Rotated(h, x, c, g), roots, RotatedRank(rank, c, g), g, count, symbol, r);
    ReadyElsewhere(f, h, BelowCompressed(f, h, x, c, g, count, symbol), roots, x, c, g, r);
  }

  /** A compression rewrites nothing but the nodes it rotates. */
  lemma {:induction false} CompressedElsewhere(f: Summarizer, h: Nodes, roots: Roots, rank: map<Ref, nat>, x: Ref,
                                               count: nat, symbol: Symbol, r: Ref)
    requires f.Right()
    requires SubtreeMemory.Valid(h, roots) && Ranked(h, rank) && x in h && h[x].info.symbol == symbol
    requires r !in RotatedNodes(h, x, count, symbol)
    ensures SameAt(h, Compressed(f, h, x, count, symbol), r)
    decreases count, 1
  {
    if count > 0 && HasRotation(h, x, symbol) {
      var c, g := CompressedStep(f, h, x, count, symbol);
      StepElsewhere(f, h, roots, rank, x, c, g, count - 1, symbol, r);
    }
  }

  lemma ReadyElsewhere(f: Summarizer, h: Nodes, h2: Nodes, roots: Roots, x: Ref, c: Ref, g: Ref, r: Ref)
    requires f.Right()
    requires LinkReady(h, h2, roots, x, c, g) && r != x && r != c && r != g
    requires SameAt(Rotated(h, x, c, g), h2, r)
    ensures SameAt(h, UnwoundLink(f, h2, x), r)
  {
    ReadyIsLink(h, h2, roots, x, c, g);
    LinkIsUnwound(f, h2, x, c, g);
    LinkElsewhere(f, h2, x, c, g, r);
    RotatedElsewhere(h, x, c, g, r);
  }

  // ---- Repeat depths ----

  /** The node at `r` caches the repeat depth of its children. */
  ghost predicate DepthOk(h: Nodes, r: Ref) {
    r in h && h[r].children != [] ==>
      && AreNodes(h, h[r].children)
      && h[r].info.repeatDepth == RepeatDepthOf(h[r].info, InfosOf(h, h[r].children))
  }

  lemma ChildrenAreNodes(h: Nodes, roots: Roots, r: Ref)
    requires SubtreeMemory.Valid(h, roots) && r in h
    ensures AreNodes(h, h[r].children) && !IsChild(h, r, r)
  {
    var rank :| Ranked(h, rank);
    forall i | 0 <= i < |h[r].children|
      ensures h[r].children[i].Ptr? ==> h[r].children[i].ref in h
      ensures h[r].children[i] != Ptr(r)
    {
      assert NamesNode(h, roots, {}, Child(r, i)) && Descends(h, rank, r, i);
    }
  }

  /** A depth reads nothing but the children. */
  lemma DepthFrame(h: Nodes, h': Nodes, y: Ref)
    requires y in h && y in h' && h'[y].children == h[y].children && h[y].children != [] && AreNodes(h, h[y].children)
    requires Base(h'[y].info) == Base(h[y].info)
    requires h'[y].info.repeatDepth == RepeatDepthOf(h[y].info, InfosOf(h, h[y].children))
    requires forall i {:trigger h[y].children[i]} :: 0 <= i < |h[y].children| ==>
               var s := h[y].children[i]; (s.Ptr? ==> s.ref in h') && InfoOf(h', s) == InfoOf(h, s)
    ensures DepthOk(h', y)
  {
    var ss := h[y].children;
    assert InfosOf(h', ss) == InfosOf(h, ss);
    assert Base(h'[y].info).symbol == h'[y].info.symbol && Base(h[y].info).symbol == h[y].info.symbol;
  }

  /** A summary makes its node's depth right and disturbs nobody but the node's parents. */
  lemma SummarizedDepth(f: Summarizer, h: Nodes, roots: Roots, r: Ref, y: Ref)
    requires f.Right()
    requires SubtreeMemory.Valid(h, roots) && r in h && h[r].children != []
    requires !IsChild(h, y, r) && (y == r || DepthOk(h, y))
    ensures DepthOk(f.at(h, r), y)
  {
    ChildrenAreNodes(h, roots, r);
    var h' := f.at(h, r);
    SummarizerIs(f, h, r);
    SummarizerSkips(f, h, r);
    if y in h && h[y].children != [] {
      assert forall i :: 0 <= i < |h[y].children| ==> h[y].children[i] != Ptr(r);
      DepthFrame(h, h', y);
    }
  }

  lemma OnlyParent(h: Nodes, roots: Roots, q: Ref, i: nat, k: Ref, p: Ref)
    requires Counts(h, roots, {}, multiset{}) && q in h && i < |h[q].children| && h[q].children[i] == Ptr(k)
    requires k in h && h[k].refCount == 1 && IsChild(h, p, k)
    ensures p == q
  {
    var j :| 0 <= j < |h[p].children| && h[p].children[j] == Ptr(k);
    TwoSlots(h, roots, Child(q, i), Child(p, j), k);
  }

  lemma SameLinksChild(h: Nodes, h': Nodes, p: Ref, k: Ref)
    requires SameLinks(h, h')
    ensures IsChild(h', p, k) == IsChild(h, p, k)
  {
    assert LinksKept(h, h', p);
  }

  lemma SummarizedKeepsLink(f: Summarizer, h: Nodes, roots: Roots, x: Ref, c: Ref, g: Ref, r: Ref)
    requires f.Right()
    requires IsLink(h, x, c, g) && SubtreeMemory.Valid(h, roots)
    ensures IsLink(f.at(h, r), x, c, g) && SubtreeMemory.Valid(f.at(h, r), roots)
    ensures forall p, k :: IsChild(f.at(h, r), p, k) == IsChild(h, p, k)
  {
    var h' := f.at(h, r);
    SummarizerLinks(f, h, r);
    SummarizerValid(f, h, roots, r);
    assert LinksKept(h, h', x) && LinksKept(h, h', c) && LinksKept(h, h', g);
    forall p, k
      ensures IsChild(h', p, k) == IsChild(h, p, k)
    {
      SameLinksChild(h, h', p, k);
    }
  }

  /** The three summaries of a link make its depths right and leave all others right, but for the
      parents of its top. */
  lemma LinkDepths(f: Summarizer, h: Nodes, roots: Roots, x: Ref, c: Ref, g: Ref, r: Ref)
    requires f.Right()
    requires IsLink(h, x, c, g) && SubtreeMemory.Valid(h, roots)
    requires r in {x, c, g} || DepthOk(h, r)
    requires !IsChild(h, r, x)
    ensures DepthOk(LinkSummarized(f, h, x, c, g), r)
  {
    var h1 := f.at(h, c);
    var h2 := f.at(h1, g);
    SummarizedKeepsLink(f, h, roots, x, c, g, c);
    SummarizedKeepsLink(f, h1, roots, x, c, g, g);
    if r != x {
      if IsChild(h, r, g) {
        OnlyParent(h, roots, x, 0, g, r);
      }
      if r != g {
        if IsChild(h, r, c) {
          OnlyParent(h, roots, g, |h[g].children| - 1, c, r);
        }
        SummarizedDepth(f, h, roots, c, r);
      }
      SummarizedDepth(f, h1, roots, g, r);
    }
    SummarizedDepth(f, h2, roots, x, r);
  }

  lemma RotatedDepth(h: Nodes, x: Ref, c: Ref, g: Ref, r: Ref)
    requires CanRotate(h, x, c, g) && r != x && r != c && r != g && DepthOk(h, r)
    ensures DepthOk(Rotated(h, x, c, g), r)
  {
    var h' := Rotated(h, x, c, g);
    RotatedElsewhere(h, x, c, g, r);
    if r in h && h[r].children != [] {
      var ss := h[r].children;
      forall i | 0 <= i < |ss|
        ensures ss[i].Ptr? ==> ss[i].ref in h && ss[i].ref in h'
        ensures InfoOf(h', ss[i]) == InfoOf(h, ss[i])
      {
      }
      assert InfosOf(h', ss) == InfosOf(h, ss);
    }
  }

  lemma StepDepths(f: Summarizer, h: Nodes, h2: Nodes, roots: Roots, x: Ref, c: Ref, g: Ref, rest: set<Ref>, r: Ref)
    requires f.Right()
    requires LinkReady(h, h2, roots, x, c, g)
    requires DepthOk(h, r) || r in {x, c, g} + rest
    requires DepthOk(Rotated(h, x, c, g), r) || r in rest ==> IsChild(h2, r, g) || DepthOk(h2, r)
    ensures IsChild(UnwoundLink(f, h2, x), r, x) || DepthOk(UnwoundLink(f, h2, x), r)
  {
    ReadyIsLink(h, h2, roots, x, c, g);
    LinkIsUnwound(f, h2, x, c, g);
    UnwoundLinkKeeps(f, h2, roots, x);
    SameLinksChild(h2, UnwoundLink(f, h2, x), r, x);
    if r !in {x, c, g} {
      if r !in rest {
        RotatedDepth(h, x, c, g, r);
      }
      if IsChild(h2, r, g) {
        OnlyParent(h2, roots, x, 0, g, r);
      }
    }
    if !IsChild(h2, r, x) {
      LinkDepths(f, h2, roots, x, c, g, r);
    }
  }

  /** After a compression at `x` every repeat depth is right that was right before, and so are those
      of all nodes rotated; only a parent of `x` may have been left behind. */
  lemma {:induction false} CompressedDepths(f: Summarizer, h: Nodes, roots: Roots, rank: map<Ref, nat>, x: Ref,
                                            count: nat, symbol: Symbol, r: Ref)
    requires f.Right()
    requires SubtreeMemory.Valid(h, roots) && Ranked(h, rank) && x in h && h[x].info.symbol == symbol
    requires DepthOk(h, r) || r in RotatedNodes(h, x, count, symbol)
    ensures IsChild(Compressed(f, h, x, count, symbol), r, x) || DepthOk(Compressed(f, h, x, count, symbol), r)
    decreases count, 0
  {
    if count > 0 && HasRotation(h, x, symbol) {
      var c, g := CompressedStep(f, h, x, count, symbol);
      CompressedDepthsStep(f, h, roots, rank, x, c, g, count - 1, symbol, r);
    }
  }

  lemma {:induction false} BelowDepths(f: Summarizer, h: Nodes, roots: Roots, rank: map<Ref, nat>, x: Ref, c: Ref,
                                       g: Ref, count: nat, symbol: Symbol, r: Ref)
    requires f.Right()
    requires SubtreeMemory.Valid(h, roots) && Ranked(h, rank) && CanRotate(h, x, c, g) && h[x].info.symbol == symbol
    requires Rotatable(h, x, c, g, symbol)
    requires DepthOk(Rotated(h, x, c, g), r) || r in RotatedNodes(Rotated(h, x, c, g), g, count, symbol)
    ensures var h2 := BelowCompressed(f, h, x, c, g, count, symbol); IsChild(h2, r, g) || DepthOk(h2, r)
    decreases count, 1
  {
    RotatedValid(h, roots, x, c, g);
    RotatedRanked(h, roots, rank, x, c, g);
    CompressedDepths(f, Rotated(h, x, c, g), roots, RotatedRank(rank, c, g), g, count, symbol, r);
  }

  lemma {:induction false} CompressedDepthsStep(f: Summarizer, h: Nodes, roots: Roots, rank: map<Ref, nat>, x: Ref,
                                                c: Ref, g: Ref, count: nat, symbol: Symbol, r: Ref)
    requires f.Right()
    requires SubtreeMemory.Valid(h, roots) && Ranked(h, rank) && x in h && h[x].info.symbol == symbol
    requires Rotatable(h, x, c, g, symbol)
    requires DepthOk(h, r) || r in {x, c, g} + RotatedNodes(Rotated(h, x, c, g), g, count, symbol)
    ensures var h' := UnwoundLink(f, BelowCompressed(f, h, x, c, g, count, symbol), x);
            IsChild(h', r, x) || DepthOk(h', r)
    decreases count, 2
  {
    LinkFound(f, h, roots, rank, x, c, g, count, symbol);
    var rest := RotatedNodes(Rotated(h, x, c, g), g, count, symbol);
    if DepthOk(Rotated(h, x, c, g), r) || r in rest {
      BelowDepths(f, h, roots, rank, x, c, g, count, symbol, r);
    }
    StepDepths(f, h, BelowCompressed(f, h, x, c, g, count, symbol), roots, x, c, g, rest, r);
  }

  // ---- Parse states ----

  /** The node at `r` keeps its parse state, unless it is one of those touched and has an error child. */
  ghost predicate StateIs(h: Nodes, h': Nodes, touched: set<Ref>, r: Ref) {
    r in h ==>
      && r in h'
      && h'[r].info.parseState ==
         if r in touched && HasErrorKid(h', h'[r].children) then NO_PARSE_STATE else h[r].info.parseState
  }

  lemma SameLinksErrors(h: Nodes, h': Nodes, r: Ref)
    requires SameLinks(h, h') && r in h
    ensures r in h' && HasErrorKid(h', h'[r].children) == HasErrorKid(h, h[r].children)
  {
    assert LinksKept(h, h', r);
    forall s
      ensures IsError(h', s) == IsError(h, s)
    {
      assert s.Ptr? ==> LinksKept(h, h', s.ref);
    }
    SameErrors(h, h', h[r].children);
  }

  lemma StatesCompose(h: Nodes, h1: Nodes, h2: Nodes, a: set<Ref>, b: set<Ref>, r: Ref)
    requires StateIs(h, h1, a, r) && StateIs(h1, h2, b, r) && SameLinks(h1, h2)
    ensures StateIs(h, h2, a + b, r)
  {
    if r in h {
      SameLinksErrors(h1, h2, r);
    }
  }

  lemma SummarizedState(f: Summarizer, h: Nodes, r: Ref, y: Ref)
    requires f.Right()
    requires CanSummarize(h, r)
    ensures StateIs(h, f.at(h, r), {r}, y)
  {
    var h' := f.at(h, r);
    SummarizerIs(f, h, r);
    SummarizerLinks(f, h, r);
    SameLinksErrors(h, h', r);
    var ss, infos := h[r].children, InfosOf(h, h[r].children);
    ErrorBelowIff(infos, |infos|);
    assert forall i :: 0 <= i < |ss| ==> (infos[i].symbol == SYM_ERROR <==> IsError(h, ss[i]));
  }

  lemma ThreeStates(h: Nodes, h1: Nodes, h2: Nodes, h3: Nodes, x: Ref, c: Ref, g: Ref, r: Ref)
    requires StateIs(h, h1, {c}, r) && StateIs(h1, h2, {g}, r) && StateIs(h2, h3, {x}, r)
    requires SameLinks(h1, h2) && SameLinks(h2, h3)
    ensures StateIs(h, h3, {x, c, g}, r)
  {
    StatesCompose(h, h1, h2, {c}, {g}, r);
    StatesCompose(h, h2, h3, {c} + {g}, {x}, r);
    assert {c} + {g} + {x} == {x, c, g};
  }

  lemma ValidState(f: Summarizer, h: Nodes, roots: Roots, r: Ref, y: Ref)
    requires f.Right()
    requires SubtreeMemory.Valid(h, roots) && r in h && h[r].children != []
    ensures StateIs(h, f.at(h, r), {r}, y) && SameLinks(h, f.at(h, r))
  {
    ChildrenAreNodes(h, roots, r);
    SummarizedState(f, h, r, y);
    SummarizerLinks(f, h, r);
  }

  lemma LinkStates(f: Summarizer, h: Nodes, roots: Roots, x: Ref, c: Ref, g: Ref, r: Ref)
    requires f.Right()
    requires IsLink(h, x, c, g) && SubtreeMemory.Valid(h, roots)
    ensures StateIs(h, LinkSummarized(f, h, x, c, g), {x, c, g}, r)
    ensures SameLinks(h, LinkSummarized(f, h, x, c, g))
  {
    var h1 := f.at(h, c);
    var h2 := f.at(h1, g);
    SummarizedKeepsLink(f, h, roots, x, c, g, c);
    SummarizedKeepsLink(f, h1, roots, x, c, g, g);
    ValidState(f, h, roots, c, r);
    ValidState(f, h1, roots, g, r);
    ValidState(f, h2, roots, x, r);
    ThreeStates(h, h1, h2, f.at(h2, x), x, c, g, r);
    ThreeSummarized(f, h, roots, c, g, x);
  }

  lemma StepStates(f: Summarizer, h: Nodes, h2: Nodes, roots: Roots, x: Ref, c: Ref, g: Ref, rest: set<Ref>, r: Ref)
    requires f.Right()
    requires LinkReady(h, h2, roots, x, c, g) && StateIs(Rotated(h, x, c, g), h2, rest, r)
    ensures StateIs(h, UnwoundLink(f, h2, x), {x, c, g} + rest, r)
  {
    ReadyIsLink(h, h2, roots, x, c, g);
    LinkIsUnwound(f, h2, x, c, g);
    assert r in h ==> Rotated(h, x, c, g)[r].info == h[r].info;
    assert StateIs(h, h2, rest, r);
    LinkStates(f, h2, roots, x, c, g, r);
    StatesCompose(h, h2, LinkSummarized(f, h2, x, c, g), rest, {x, c, g}, r);
    assert rest + {x, c, g} == {x, c, g} + rest;
  }

  lemma {:induction false} CompressedStatesStep(f: Summarizer, h: Nodes, roots: Roots, rank: map<Ref, nat>, x: Ref,
                                                c: Ref, g: Ref, count: nat, symbol: Symbol, r: Ref)
    requires f.Right()
    requires SubtreeMemory.Valid(h, roots) && Ranked(h, rank) && x in h && h[x].info.symbol == symbol
    requires Rotatable(h, x, c, g, symbol)
    ensures StateIs(h, UnwoundLink(f, BelowCompressed(f, h, x, c, g, count, symbol), x),
                    {x, c, g} + RotatedNodes(Rotated(h, x, c, g), g, count, symbol), r)
    decreases count, 1
  {
    LinkFound(f, h, roots, rank, x, c, g, count, symbol);
    RotatedValid(h, roots, x, c, g);
    RotatedRanked(h, roots, rank, x, c, g);
    CompressedStates(f, Rotated(h, x, c, g), roots, RotatedRank(rank, c, g), g, count, symbol, r);
    StepStates(f, h, BelowCompressed(f, h, x, c, g, count, symbol), roots, x, c, g,
               RotatedNodes(Rotated(h, x, c, g), g, count, symbol), r);
  }

  /** A compression takes the parse state from exactly the nodes it rotates that have an error child. */
  lemma {:induction false} CompressedStates(f: Summarizer, h: Nodes, roots: Roots, rank: map<Ref, nat>, x: Ref,
                                            count: nat, symbol: Symbol, r: Ref)
    requires f.Right()
    requires SubtreeMemory.Valid(h, roots) && Ranked(h, rank) && x in h && h[x].info.symbol == symbol
    ensures StateIs(h, Compressed(f, h, x, count, symbol), RotatedNodes(h, x, count, symbol), r)
    decreases count, 0
  {
    if count > 0 && HasRotation(h, x, symbol) {
      var c, g := CompressedStep(f, h, x, count, symbol);
      CompressedStatesStep(f, h, roots, rank, x, c, g, count - 1, symbol, r);
    }
  }
}
