/** What a parent caches about its children. Models ts_subtree_summarize_children
    (subtree.c:338-475); fragile flags, column dependence and repeat depth are kept apart, since
    nothing else in a summary is computed from them. */
module Summaries {
  import opened Lengths
  import opened SyntaxTrees

  /** The grammar facts summaries need: aliases (0 for none) and which symbols are named. */
  datatype Language = Language(aliasAt: (nat, nat) -> Symbol, isNamed: Symbol -> bool)

  const COST_PER_RECOVERY: nat := 500
  const COST_PER_MISSING_TREE: nat := 110
  const COST_PER_SKIPPED_TREE: nat := 100
  const COST_PER_SKIPPED_LINE: nat := 30
  const COST_PER_SKIPPED_CHAR: nat := 1

  /** A node as its parent sees it. */
  datatype Kid = Kid(info: Info, isParent: bool, leafState: nat)

  /** The fields that do not depend on the children. */
  function Base(info: Info): Info {
    info.(parseState := 0, padding := ZERO, size := ZERO, lookaheadBytes := 0, errorCost := 0,
          fragileLeft := false, fragileRight := false, hasExternalTokens := false, hasStateChange := false,
          dependsOnColumn := false, visibleChildCount := 0, namedChildCount := 0, visibleDescendantCount := 0,
          repeatDepth := 0, firstLeafSymbol := 0, firstLeafState := 0)
  }

  /** The fields other nodes' summaries read. */
  function Outer(info: Info): Info {
    info.(parseState := 0, fragileLeft := false, fragileRight := false, dependsOnColumn := false, repeatDepth := 0)
  }

  function IsErrorSymbol(symbol: Symbol): bool {
    symbol == SYM_ERROR || symbol == SYM_ERROR_REPEAT
  }

  function ErrorCost(info: Info): nat {
    if info.isMissing then COST_PER_MISSING_TREE + COST_PER_RECOVERY else info.errorCost
  }

  function VisibleCount(k: Kid): nat {
    if k.info.visible then 1 else if k.isParent then k.info.visibleChildCount else 0
  }

  function NamedCount(k: Kid): nat {
    if k.info.visible then (if k.info.named then 1 else 0) else if k.isParent then k.info.namedChildCount else 0
  }

  function DescendantsBelow(k: Kid): nat {
    if k.isParent then k.info.visibleDescendantCount else 0
  }

  function LeafSymbol(k: Kid): Symbol {
    if k.isParent then k.info.firstLeafSymbol else k.info.symbol
  }

  /** What child `k` adds to the error cost of a parent whose symbol is `symbol`. */
  function CostIn(symbol: Symbol, k: Kid): nat {
    (if k.info.symbol != SYM_ERROR_REPEAT then ErrorCost(k.info) else 0) +
    (if IsErrorSymbol(symbol) && !k.info.extra && !(k.info.symbol == SYM_ERROR && !k.isParent) then
       (if k.info.visible then COST_PER_SKIPPED_TREE
        else if k.isParent then COST_PER_SKIPPED_TREE * k.info.visibleChildCount
        else 0)
     else 0)
  }

  function CostOfNode(symbol: Symbol, size: Length): nat {
    if IsErrorSymbol(symbol) then
      COST_PER_RECOVERY + COST_PER_SKIPPED_CHAR * size.bytes + COST_PER_SKIPPED_LINE * size.extent.row
    else 0
  }

  /** The running totals of the loop over the children. */
  datatype Tally = Tally(padding: Length, size: Length, lookaheadEnd: nat, cost: nat, visible: nat, named: nat,
                         descendants: nat, hasTokens: bool, changesState: bool, structuralIndex: nat)

  const EMPTY_TALLY := Tally(ZERO, ZERO, 0, 0, 0, 0, 0, false, false, 0)

  function Absorb(lang: Language, base: Info, t: Tally, k: Kid, isFirst: bool): Tally {
    var padding := if isFirst then k.info.padding else t.padding;
    var size := if isFirst then k.info.size else Add(t.size, TotalSize(k.info));
    var end := padding.bytes + size.bytes + k.info.lookaheadBytes;
    var alias := if !k.info.extra && k.info.symbol != SYM_END then lang.aliasAt(base.productionId, t.structuralIndex)
                 else 0;
    Tally(padding, size,
          if end > t.lookaheadEnd then end else t.lookaheadEnd,
          t.cost + CostIn(base.symbol, k),
          t.visible + (if alias != 0 then 1 else VisibleCount(k)),
          t.named + (if alias != 0 then (if lang.isNamed(alias) then 1 else 0) else NamedCount(k)),
          t.descendants + DescendantsBelow(k) + (if alias != 0 || k.info.visible then 1 else 0),
          t.hasTokens || k.info.hasExternalTokens,
          t.changesState || k.info.hasStateChange,
          t.structuralIndex + (if k.info.extra then 0 else 1))
  }

  function TallyOf(lang: Language, base: Info, kids: seq<Kid>): Tally {
    if kids == [] then EMPTY_TALLY
    else
      var n := |kids| - 1;
      Absorb(lang, base, TallyOf(lang, base, kids[..n]), kids[n], n == 0)
  }

  /** The fields a parent caches once its children have been tallied. */
  function Cached(base: Info, t: Tally, first: Kid): Info {
    base.(padding := t.padding, size := t.size,
          lookaheadBytes := Monus(t.lookaheadEnd, t.size.bytes + t.padding.bytes),
          errorCost := t.cost + CostOfNode(base.symbol, t.size),
          visibleChildCount := t.visible, namedChildCount := t.named, visibleDescendantCount := t.descendants,
          hasExternalTokens := t.hasTokens, hasStateChange := t.changesState,
          firstLeafSymbol := LeafSymbol(first), firstLeafState := first.leafState)
  }

  /** The summary a parent should cache, given its own fields and its children. */
  function Summary(lang: Language, base: Info, kids: seq<Kid>): Info
    requires kids != []
  {
    Cached(base, TallyOf(lang, base, kids), kids[0])
  }

  function SummaryKid(lang: Language, base: Info, kids: seq<Kid>): Kid
    requires kids != []
  {
    Kid(Summary(lang, base, kids), true, kids[0].leafState)
  }

  // ---- The flags that are kept apart ----

  const NO_PARSE_STATE: nat := 65535

  /** Is one of the first `n` children an error? */
  predicate ErrorBelow(kids: seq<Info>, n: nat)
    requires n <= |kids|
  {
    n > 0 && (ErrorBelow(kids, n - 1) || kids[n - 1].symbol == SYM_ERROR)
  }

  predicate HasError(kids: seq<Info>) {
    ErrorBelow(kids, |kids|)
  }

  /** The size of the children read so far; before the first it is whatever was cached. */
  function SizeBefore(stale: Length, kids: seq<Info>, n: nat): Length
    requires n <= |kids|
  {
    if n == 0 then stale
    else if n == 1 then kids[0].size
    else Add(SizeBefore(stale, kids, n - 1), TotalSize(kids[n - 1]))
  }

  predicate ColumnBelow(stale: Length, kids: seq<Info>, n: nat)
    requires n <= |kids|
  {
    n > 0 && (ColumnBelow(stale, kids, n - 1) ||
              (SizeBefore(stale, kids, n - 1).extent.row == 0 && kids[n - 1].dependsOnColumn))
  }

  /** A parent depends on its column if a child on its first row does. */
  predicate DependsOnColumn(stale: Length, kids: seq<Info>) {
    ColumnBelow(stale, kids, |kids|)
  }

  /** What the loop over the children has computed from the first `i` of them. */
  datatype Sums = Sums(tally: Tally, size: Length, dependsOnColumn: bool, hasError: bool)

  ghost predicate SumsAt(lang: Language, info: Info, kids: seq<Kid>, infos: seq<Info>, i: nat, sums: Sums) {
    && i <= |kids| == |infos|
    && sums.tally == TallyOf(lang, Base(info), kids[..i]) && sums.size == SizeBefore(info.size, infos, i)
    && sums.dependsOnColumn == ColumnBelow(info.size, infos, i) && sums.hasError == ErrorBelow(infos, i)
  }

  ghost predicate Tallying(lang: Language, info: Info, kids: seq<Kid>, infos: seq<Info>, i: nat, sums: Sums) {
    exists n: nat :: SumsAt(lang, info, kids, infos, n, sums) && n == i
  }

  lemma TallyingStarts(lang: Language, info: Info, kids: seq<Kid>, infos: seq<Info>)
    requires |kids| == |infos|
    ensures Tallying(lang, info, kids, infos, 0, Sums(EMPTY_TALLY, info.size, false, false))
  {
    assert SumsAt(lang, info, kids, infos, 0, Sums(EMPTY_TALLY, info.size, false, false));
  }

  lemma TallyingStep(lang: Language, info: Info, kids: seq<Kid>, infos: seq<Info>, i: nat, sums: Sums)
    requires i < |kids| && Tallying(lang, info, kids, infos, i, sums) && |kids| == |infos|
    ensures Tallying(lang, info, kids, infos, i + 1,
                     Sums(Absorb(lang, Base(info), sums.tally, kids[i], i == 0),
                          if i == 0 then infos[i].size else Add(sums.size, TotalSize(infos[i])),
                          sums.dependsOnColumn || (sums.size.extent.row == 0 && infos[i].dependsOnColumn),
                          sums.hasError || infos[i].symbol == SYM_ERROR))
  {
    assert kids[..i + 1][..i] == kids[..i];
    assert SumsAt(lang, info, kids, infos, i + 1,
                  Sums(Absorb(lang, Base(info), sums.tally, kids[i], i == 0),
                       if i == 0 then infos[i].size else Add(sums.size, TotalSize(infos[i])),
                       sums.dependsOnColumn || (sums.size.extent.row == 0 && infos[i].dependsOnColumn),
                       sums.hasError || infos[i].symbol == SYM_ERROR));
  }

  lemma TallyingEnds(lang: Language, info: Info, kids: seq<Kid>, infos: seq<Info>, sums: Sums)
    requires Tallying(lang, info, kids, infos, |kids|, sums)
    ensures sums.tally == TallyOf(lang, Base(info), kids)
    ensures sums.dependsOnColumn == DependsOnColumn(info.size, infos) && sums.hasError == HasError(infos)
  {
    assert kids[..|kids|] == kids;
  }

  function RepeatDepthFrom(info: Info, first: Info, last: Info, count: nat): nat {
    if count >= 2 && !info.visible && !info.named && first.symbol == info.symbol then
      1 + (if first.repeatDepth > last.repeatDepth then first.repeatDepth else last.repeatDepth)
    else 0
  }

  function RepeatDepthOf(info: Info, kids: seq<Info>): nat
    requires kids != []
  {
    RepeatDepthFrom(info, kids[0], kids[|kids| - 1], |kids|)
  }

  /** Are the edges of a node fragile? */
  datatype FlagSet = FlagSet(fragileLeft: bool, fragileRight: bool)

  function Flags(info: Info): FlagSet {
    FlagSet(info.fragileLeft, info.fragileRight)
  }

  /** Fragility only grows. */
  function FlagsAfter(flags: FlagSet, kids: seq<Info>): FlagSet
    requires kids != []
  {
    FlagSet(flags.fragileLeft || HasError(kids) || kids[0].fragileLeft,
            flags.fragileRight || HasError(kids) || kids[|kids| - 1].fragileRight)
  }

  /** An error child takes the parse state away. */
  function StateAfter(parseState: nat, kids: seq<Info>): nat {
    if HasError(kids) then NO_PARSE_STATE else parseState
  }

  /** A cached summary with the flags that are kept apart. */
  function Annotated(outer: Info, flags: FlagSet, parseState: nat, dependsOnColumn: bool, repeatDepth: nat): Info {
    outer.(parseState := parseState, fragileLeft := flags.fragileLeft, fragileRight := flags.fragileRight,
           dependsOnColumn := dependsOnColumn, repeatDepth := repeatDepth)
  }

  lemma AnnotatedFields(info: Info, t: Tally, first: Kid, flags: FlagSet, parseState: nat, dependsOnColumn: bool,
                        repeatDepth: nat)
    ensures var outer := Cached(Base(info), t, first);
            var all := Annotated(outer, flags, parseState, dependsOnColumn, repeatDepth);
            && Outer(all) == outer && Base(all) == Base(info) && Flags(all) == flags && all.parseState == parseState
            && all.dependsOnColumn == dependsOnColumn && all.repeatDepth == repeatDepth
  {
  }

  // ---- Hidden parents disappear from summaries ----

  /** A symbol that stands for a run of siblings: hidden, never aliased inside, never missing. */
  ghost predicate IsRepeat(lang: Language, info: Info) {
    && !info.visible && !info.isMissing && info.symbol != SYM_ERROR
    && (info.symbol == SYM_ERROR_REPEAT ==> !info.extra)
    && forall i :: lang.aliasAt(info.productionId, i) == 0
  }

  /** All that a run of children adds to the summary of a parent with no aliases. */
  datatype Essence = Essence(padding: Length, size: Length, end: nat, cost: nat, visible: nat, named: nat,
                             descendants: nat, hasTokens: bool, changesState: bool)

  function EssenceOf(symbol: Symbol, k: Kid): Essence {
    Essence(k.info.padding, k.info.size, TotalSize(k.info).bytes + k.info.lookaheadBytes,
            if symbol == SYM_ERROR_REPEAT then 0 else CostIn(symbol, k),
            VisibleCount(k), NamedCount(k), DescendantsBelow(k) + (if k.info.visible then 1 else 0),
            k.info.hasExternalTokens, k.info.hasStateChange)
  }

  function Combine(a: Essence, b: Essence): Essence {
    var end := a.padding.bytes + a.size.bytes + b.end;
    Essence(a.padding, Add(a.size, Add(b.padding, b.size)), if end > a.end then end else a.end,
            a.cost + b.cost, a.visible + b.visible, a.named + b.named, a.descendants + b.descendants,
            a.hasTokens || b.hasTokens, a.changesState || b.changesState)
  }

  lemma CombineAssociative(a: Essence, b: Essence, c: Essence)
    ensures Combine(Combine(a, b), c) == Combine(a, Combine(b, c))
  {
    AddIsMonoid(a.size, Add(b.padding, b.size), Add(c.padding, c.size));
    AddIsMonoid(b.padding, b.size, Add(c.padding, c.size));
  }

  function Fold(symbol: Symbol, kids: seq<Kid>): Essence
    requires kids != []
  {
    var n := |kids| - 1;
    if n == 0 then EssenceOf(symbol, kids[0]) else Combine(Fold(symbol, kids[..n]), EssenceOf(symbol, kids[n]))
  }

  lemma {:induction false} FoldAppend(symbol: Symbol, a: seq<Kid>, b: seq<Kid>)
    requires a != [] && b != []
    ensures Fold(symbol, a + b) == Combine(Fold(symbol, a), Fold(symbol, b))
    decreases |b|
  {
    var n := |b| - 1;
    assert (a + b)[..|a + b| - 1] == a + b[..n];
    if n == 0 {
      assert a + b[..n] == a;
    } else {
      FoldAppend(symbol, a, b[..n]);
      CombineAssociative(Fold(symbol, a), Fold(symbol, b[..n]), EssenceOf(symbol, b[n]));
    }
  }

  function CostSum(symbol: Symbol, kids: seq<Kid>): nat {
    if kids == [] then 0 else CostSum(symbol, kids[..|kids| - 1]) + CostIn(symbol, kids[|kids| - 1])
  }

  lemma {:induction false} CostSumAppend(symbol: Symbol, a: seq<Kid>, b: seq<Kid>)
    ensures CostSum(symbol, a + b) == CostSum(symbol, a) + CostSum(symbol, b)
    decreases |b|
  {
    if b == [] {
      assert a + b == a;
    } else {
      assert (a + b)[..|a + b| - 1] == a + b[..|b| - 1];
      CostSumAppend(symbol, a, b[..|b| - 1]);
    }
  }

  /** The running totals of the loop in a repeat are this essence, at this cost. */
  ghost predicate Agrees(symbol: Symbol, t: Tally, f: Essence, cost: nat) {
    && t.padding == f.padding && t.size == f.size && t.lookaheadEnd == f.end
    && t.padding.bytes + t.size.bytes <= t.lookaheadEnd
    && t.visible == f.visible && t.named == f.named && t.descendants == f.descendants
    && t.hasTokens == f.hasTokens && t.changesState == f.changesState
    && t.cost == cost && (symbol != SYM_ERROR_REPEAT ==> t.cost == f.cost)
  }

  lemma AbsorbAgrees(lang: Language, base: Info, t: Tally, f: Essence, cost: nat, k: Kid)
    requires IsRepeat(lang, base) && Agrees(base.symbol, t, f, cost)
    ensures Agrees(base.symbol, Absorb(lang, base, t, k, false), Combine(f, EssenceOf(base.symbol, k)),
                   cost + CostIn(base.symbol, k))
  {
  }

  lemma FirstAgrees(lang: Language, base: Info, k: Kid)
    requires IsRepeat(lang, base)
    ensures Agrees(base.symbol, Absorb(lang, base, EMPTY_TALLY, k, true), EssenceOf(base.symbol, k),
                   CostIn(base.symbol, k))
  {
  }

  /** In a repeat, the loop over the children computes their essence. */
  lemma {:induction false} TallyIsFold(lang: Language, base: Info, kids: seq<Kid>)
    requires IsRepeat(lang, base) && kids != []
    ensures Agrees(base.symbol, TallyOf(lang, base, kids), Fold(base.symbol, kids), CostSum(base.symbol, kids))
    decreases |kids|
  {
    var n := |kids| - 1;
    if n > 0 {
      TallyIsFold(lang, base, kids[..n]);
      AbsorbAgrees(lang, base, TallyOf(lang, base, kids[..n]), Fold(base.symbol, kids[..n]),
                   CostSum(base.symbol, kids[..n]), kids[n]);
    } else {
      assert kids[..0] == [];
      FirstAgrees(lang, base, kids[0]);
    }
  }

  /** A summarized repeat adds to its parent exactly what its children would. */
  lemma RepeatIsTransparent(lang: Language, base: Info, kids: seq<Kid>)
    requires IsRepeat(lang, base) && kids != []
    ensures EssenceOf(base.symbol, SummaryKid(lang, base, kids)) == Fold(base.symbol, kids)
  {
    TallyIsFold(lang, base, kids);
  }

  /** The three parents of a rotation: `x` over `c` over `g`, all repeats of one symbol. */
  ghost predicate IsSpine(lang: Language, x: Info, c: Info, g: Info) {
    && IsRepeat(lang, x) && IsRepeat(lang, c) && IsRepeat(lang, g)
    && x.symbol == c.symbol == g.symbol
  }

  /** Rotating `x[c[g[..., b], ...], ...]` into `x[g[..., c[b, ...]], ...]` leaves the first
      child's essence as it was. */
  lemma RotationKeepsEssence(lang: Language, x: Info, c: Info, g: Info, gInit: seq<Kid>, b: Kid, cRest: seq<Kid>)
    requires IsSpine(lang, x, c, g) && gInit != [] && cRest != []
    ensures var before := SummaryKid(lang, c, [SummaryKid(lang, g, gInit + [b])] + cRest);
            var after := SummaryKid(lang, g, gInit + [SummaryKid(lang, c, [b] + cRest)]);
            && EssenceOf(x.symbol, before) == EssenceOf(x.symbol, after)
            && LeafSymbol(before) == LeafSymbol(after) && before.leafState == after.leafState
            && CostIn(x.symbol, before) == CostIn(x.symbol, after)
  {
    var s := x.symbol;
    var oldG, newC := SummaryKid(lang, g, gInit + [b]), SummaryKid(lang, c, [b] + cRest);
    RepeatIsTransparent(lang, g, gInit + [b]);
    RepeatIsTransparent(lang, c, [oldG] + cRest);
    RepeatIsTransparent(lang, c, [b] + cRest);
    RepeatIsTransparent(lang, g, gInit + [newC]);
    FoldAppend(s, gInit, [b]);
    FoldAppend(s, [oldG], cRest);
    FoldAppend(s, [b], cRest);
    FoldAppend(s, gInit, [newC]);
    CombineAssociative(Fold(s, gInit), EssenceOf(s, b), Fold(s, cRest));
  }

  lemma FirstKidDecidesFold(symbol: Symbol, k1: Kid, k2: Kid, rest: seq<Kid>)
    requires EssenceOf(symbol, k1) == EssenceOf(symbol, k2) && CostIn(symbol, k1) == CostIn(symbol, k2) && rest != []
    ensures Fold(symbol, [k1] + rest) == Fold(symbol, [k2] + rest)
    ensures CostSum(symbol, [k1] + rest) == CostSum(symbol, [k2] + rest)
  {
    FoldAppend(symbol, [k1], rest);
    FoldAppend(symbol, [k2], rest);
    CostSumAppend(symbol, [k1], rest);
    CostSumAppend(symbol, [k2], rest);
    assert [k1][..0] == [] && [k2][..0] == [];
  }

  lemma SameFoldSameSummary(lang: Language, x: Info, a: seq<Kid>, b: seq<Kid>)
    requires IsRepeat(lang, x) && a != [] && b != []
    requires Fold(x.symbol, a) == Fold(x.symbol, b) && CostSum(x.symbol, a) == CostSum(x.symbol, b)
    requires LeafSymbol(a[0]) == LeafSymbol(b[0]) && a[0].leafState == b[0].leafState
    ensures Summary(lang, x, a) == Summary(lang, x, b)
  {
    TallyIsFold(lang, x, a);
    TallyIsFold(lang, x, b);
  }

  /** ... and therefore the summary of `x`. */
  lemma RotationKeepsSummary(lang: Language, x: Info, c: Info, g: Info, gInit: seq<Kid>, b: Kid, cRest: seq<Kid>,
                             xRest: seq<Kid>)
    requires IsSpine(lang, x, c, g) && gInit != [] && cRest != [] && xRest != []
    ensures var before := SummaryKid(lang, c, [SummaryKid(lang, g, gInit + [b])] + cRest);
            var after := SummaryKid(lang, g, gInit + [SummaryKid(lang, c, [b] + cRest)]);
            Summary(lang, x, [before] + xRest) == Summary(lang, x, [after] + xRest)
  {
    var before := SummaryKid(lang, c, [SummaryKid(lang, g, gInit + [b])] + cRest);
    var after := SummaryKid(lang, g, gInit + [SummaryKid(lang, c, [b] + cRest)]);
    RotationKeepsEssence(lang, x, c, g, gInit, b, cRest);
    FirstKidDecidesFold(x.symbol, before, after, xRest);
    SameFoldSameSummary(lang, x, [before] + xRest, [after] + xRest);
  }
}
