/** The visible nodes of a tree as lists, and the proof that the counts every parent caches are
    the lengths of these lists. For subtree.c:399-428, subtree.h:317-329. */
module VisibleLists {
  import opened SyntaxTrees
  import opened Summaries
  import opened VisibleTrees
  import opened TreePaths

  /** How many of the first `k` children the grammar counts. */
  function StructuralIndex(kids: seq<Tree>, k: nat): nat
    requires k <= |kids|
  {
    if k == 0 then 0 else StructuralIndex(kids, k - 1) + if kids[k - 1].info.extra then 0 else 1
  }

  function AliasAt(lang: Language, t: Tree, k: nat): Symbol
    requires k < |t.kids|
  {
    AliasOf(lang, t.info.productionId, t.kids[k].info, StructuralIndex(t.kids, k))
  }

  /** Does a client see the `k`th child, on its own account or under an alias? */
  function KidVisible(lang: Language): Shown {
    (t: Tree, k: nat) => k < |t.kids| && (t.kids[k].info.visible || AliasAt(lang, t, k) != 0)
  }

  /** All visible nodes below `t`, in document order. */
  function VisibleBelowList(lang: Language, t: Tree): seq<Path> {
    ListFrom(KidVisible(lang), t, 0)
  }

  /** The visible children of `t`: hidden children give way to their own visible children. */
  function ChildrenFrom(lang: Language, t: Tree, k: nat): seq<Path>
    decreases t, |t.kids| - k, 1
  {
    if k >= |t.kids| then [] else ChildrenOfKid(lang, t, k) + ChildrenFrom(lang, t, k + 1)
  }

  function ChildrenOfKid(lang: Language, t: Tree, k: nat): seq<Path>
    requires k < |t.kids|
    decreases t, |t.kids| - k, 0
  {
    if KidVisible(lang)(t, k) then [[k]] else Prefixed(k, ChildrenFrom(lang, t.kids[k], 0))
  }

  function VisibleChildren(lang: Language, t: Tree): seq<Path> {
    ChildrenFrom(lang, t, 0)
  }

  function ChildrenFirst(lang: Language, t: Tree, k: nat): nat
    requires k <= |t.kids|
  {
    if k == 0 then 0 else ChildrenFirst(lang, t, k - 1) + |ChildrenOfKid(lang, t, k - 1)|
  }

  lemma {:induction false} ChildrenSplit(lang: Language, t: Tree, k: nat)
    requires k <= |t.kids|
    ensures |VisibleChildren(lang, t)| == ChildrenFirst(lang, t, k) + |ChildrenFrom(lang, t, k)|
    ensures VisibleChildren(lang, t)[ChildrenFirst(lang, t, k)..] == ChildrenFrom(lang, t, k)
    decreases k
  {
    if k > 0 {
      ChildrenSplit(lang, t, k - 1);
    }
  }

  /** Every visible child is a valid path, and a visible node. */
  lemma {:induction false} ChildrenAreVisible(lang: Language, t: Tree, k: nat, i: nat)
    requires i < |ChildrenFrom(lang, t, k)|
    ensures var path := ChildrenFrom(lang, t, k)[i];
            ValidPath(t, path) && path != [] && path[0] >= k && ShownAt(KidVisible(lang), t, path)
    decreases t, |t.kids| - k
  {
    var path := ChildrenFrom(lang, t, k)[i];
    if i >= |ChildrenOfKid(lang, t, k)| {
      ChildrenAreVisible(lang, t, k + 1, i - |ChildrenOfKid(lang, t, k)|);
    } else if KidVisible(lang)(t, k) {
      assert path == [k] && path[1..] == [];
    } else {
      ChildrenAreVisible(lang, t.kids[k], 0, i);
      var rest := ChildrenFrom(lang, t.kids[k], 0)[i];
      assert path == [k] + rest && path[1..] == rest;
    }
  }

  // ---- Cached counts ----

  function KidOfTree(t: Tree): Kid {
    Kid(Outer(t.info), t.kids != [], if t.kids != [] then t.info.firstLeafState else t.info.parseState)
  }

  function KidsOfTrees(kids: seq<Tree>): (ks: seq<Kid>)
    ensures |ks| == |kids| && forall i :: 0 <= i < |kids| ==> ks[i] == KidOfTree(kids[i])
  {
    seq(|kids|, i requires 0 <= i < |kids| => KidOfTree(kids[i]))
  }

  ghost predicate EndHasNoAlias(lang: Language, t: Tree, k: nat) {
    k < |t.kids| && t.kids[k].info.symbol == SYM_END ==> AliasAt(lang, t, k) == 0
  }

  /** Every parent caches the right summary of its children, and gives the end of the file no
      alias. */
  ghost predicate CachesOk(lang: Language, t: Tree) {
    && (t.kids != [] ==> Outer(t.info) == Summary(lang, Base(t.info), KidsOfTrees(t.kids)))
    && (forall k: nat {:trigger EndHasNoAlias(lang, t, k)} :: EndHasNoAlias(lang, t, k))
    && forall k :: 0 <= k < |t.kids| ==> CachesOk(lang, t.kids[k])
  }

  function DescendantCount(t: Tree): nat {
    if t.kids == [] then 0 else t.info.visibleDescendantCount
  }

  function ChildCount(t: Tree): nat {
    if t.kids == [] then 0 else t.info.visibleChildCount
  }

  /** What one child adds to the counts. */
  lemma AbsorbCounts(lang: Language, base: Info, tally: Tally, kid: Tree, isFirst: bool)
    requires kid.info.symbol == SYM_END ==> AliasOf(lang, base.productionId, kid.info, tally.structuralIndex) == 0
    ensures var alias := AliasOf(lang, base.productionId, kid.info, tally.structuralIndex);
            var sum := Absorb(lang, base, tally, KidOfTree(kid), isFirst);
            && sum.descendants ==
               tally.descendants + DescendantCount(kid) + (if kid.info.visible || alias != 0 then 1 else 0)
            && sum.visible == tally.visible + (if kid.info.visible || alias != 0 then 1 else ChildCount(kid))
            && sum.structuralIndex == tally.structuralIndex + (if kid.info.extra then 0 else 1)
            && sum.padding == if isFirst then kid.info.padding else tally.padding
  {
    var outer := Outer(kid.info);
    assert outer.visible == kid.info.visible && outer.extra == kid.info.extra && outer.symbol == kid.info.symbol;
    assert outer.visibleChildCount == kid.info.visibleChildCount;
    assert outer.visibleDescendantCount == kid.info.visibleDescendantCount && outer.padding == kid.info.padding;
  }

  ghost predicate CountsRight(lang: Language, t: Tree) {
    DescendantCount(t) == |VisibleBelowList(lang, t)| && ChildCount(t) == |VisibleChildren(lang, t)|
  }

  /** The running totals say how much the first `k` children show. */
  ghost predicate Counted(lang: Language, t: Tree, k: nat, tally: Tally) {
    && k <= |t.kids|
    && tally.descendants == CountFirst(KidVisible(lang), t, k)
    && tally.visible == ChildrenFirst(lang, t, k)
    && tally.structuralIndex == StructuralIndex(t.kids, k)
    && (k > 0 ==> tally.padding == t.kids[0].info.padding)
  }

  ghost predicate CountedFirst(lang: Language, t: Tree, k: nat) {
    k <= |t.kids| && Counted(lang, t, k, TallyOf(lang, Base(t.info), KidsOfTrees(t.kids)[..k]))
  }

  lemma TallyGrows(lang: Language, t: Tree, k: nat)
    requires k < |t.kids|
    ensures var ks, base := KidsOfTrees(t.kids), Base(t.info);
            TallyOf(lang, base, ks[..k + 1]) ==
            Absorb(lang, base, TallyOf(lang, base, ks[..k]), KidOfTree(t.kids[k]), k == 0)
  {
    var ks := KidsOfTrees(t.kids);
    assert ks[..k + 1][..k] == ks[..k];
  }

  lemma AbsorbedCounts(lang: Language, t: Tree, k: nat, tally: Tally)
    requires k < |t.kids| && Counted(lang, t, k, tally) && EndHasNoAlias(lang, t, k) && CountsRight(lang, t.kids[k])
    ensures Counted(lang, t, k + 1, Absorb(lang, Base(t.info), tally, KidOfTree(t.kids[k]), k == 0))
  {
    assert Base(t.info).productionId == t.info.productionId;
    AbsorbCounts(lang, Base(t.info), tally, t.kids[k], k == 0);
  }

  lemma CountsStep(lang: Language, t: Tree, k: nat)
    requires k < |t.kids| && CountedFirst(lang, t, k) && EndHasNoAlias(lang, t, k) && CountsRight(lang, t.kids[k])
    ensures CountedFirst(lang, t, k + 1)
  {
    AbsorbedCounts(lang, t, k, TallyOf(lang, Base(t.info), KidsOfTrees(t.kids)[..k]));
    TallyGrows(lang, t, k);
  }

  lemma {:induction false} TallyCounts(lang: Language, t: Tree, k: nat)
    requires k <= |t.kids| && forall j: nat {:trigger EndHasNoAlias(lang, t, j)} :: EndHasNoAlias(lang, t, j)
    requires forall j :: 0 <= j < k ==> CountsRight(lang, t.kids[j])
    ensures CountedFirst(lang, t, k)
    decreases k
  {
    if k > 0 {
      TallyCounts(lang, t, k - 1);
      assert EndHasNoAlias(lang, t, k - 1);
      CountsStep(lang, t, k - 1);
    }
  }

  /** The cached counts are the lengths of the lists they stand for, and a parent begins where
      its first child does. */
  lemma {:induction false} CountsAreLengths(lang: Language, t: Tree)
    requires CachesOk(lang, t)
    ensures CountsRight(lang, t)
    ensures t.kids != [] ==> t.info.padding == t.kids[0].info.padding
    decreases t
  {
    forall j | 0 <= j < |t.kids|
      ensures CountsRight(lang, t.kids[j])
    {
      CountsAreLengths(lang, t.kids[j]);
    }
    if t.kids != [] {
      var n := |t.kids|;
      TallyCounts(lang, t, n);
      assert KidsOfTrees(t.kids)[..n] == KidsOfTrees(t.kids);
      ListSplits(KidVisible(lang), t, n);
      ChildrenSplit(lang, t, n);
      var cached := Summary(lang, Base(t.info), KidsOfTrees(t.kids));
      assert Outer(t.info).visibleChildCount == cached.visibleChildCount;
      assert Outer(t.info).visibleDescendantCount == cached.visibleDescendantCount;
      assert Outer(t.info).padding == cached.padding;
    }
  }

  lemma {:induction false} CachesOkAt(lang: Language, t: Tree, path: Path)
    requires CachesOk(lang, t) && ValidPath(t, path)
    ensures CachesOk(lang, NodeAt(t, path))
    decreases |path|
  {
    if path != [] {
      CachesOkAt(lang, t.kids[path[0]], path[1..]);
    }
  }
}
