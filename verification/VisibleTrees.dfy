/** The tree a client sees: hidden nodes are replaced by their children, and a parent's aliases
    make hidden children visible. Rebalancing must not change it. */
module VisibleTrees {
  import opened SyntaxTrees
  import opened Summaries

  /** A visible node with everything a client can ask about it. */
  datatype Visible = Visible(info: Info, alias: Symbol, kids: seq<Visible>)

  function AliasOf(lang: Language, productionId: nat, kid: Info, structuralIndex: nat): Symbol {
    if kid.extra then 0 else lang.aliasAt(productionId, structuralIndex)
  }

  /** What a child shows in a parent that gives it `alias`. */
  function Shown(lang: Language, kid: Tree, alias: Symbol): seq<Visible>
    decreases kid
  {
    var below := VisibleKids(lang, kid.info.productionId, kid.kids, 0);
    if kid.info.visible || alias != 0 then [Visible(Outer(kid.info), alias, below)] else below
  }

  function VisibleKids(lang: Language, productionId: nat, kids: seq<Tree>, structuralIndex: nat): seq<Visible>
    decreases kids
  {
    if kids == [] then []
    else
      Shown(lang, kids[0], AliasOf(lang, productionId, kids[0].info, structuralIndex)) +
      VisibleKids(lang, productionId, kids[1..], structuralIndex + if kids[0].info.extra then 0 else 1)
  }

  function Leaves(kids: seq<Tree>): seq<Info>
    decreases kids
  {
    if kids == [] then []
    else (if kids[0].kids == [] then [kids[0].info] else Leaves(kids[0].kids)) + Leaves(kids[1..])
  }

  function VisibleBelow(lang: Language, t: Tree): seq<Visible> {
    VisibleKids(lang, t.info.productionId, t.kids, 0)
  }

  function LeavesOf(t: Tree): seq<Info> {
    Leaves([t])
  }

  /** Two trees no client can tell apart. */
  ghost predicate Same(lang: Language, t: Tree, u: Tree) {
    && Outer(t.info) == Outer(u.info)
    && LeavesOf(t) == LeavesOf(u)
    && VisibleBelow(lang, t) == VisibleBelow(lang, u)
  }

  ghost predicate AllSame(lang: Language, ts: seq<Tree>, us: seq<Tree>) {
    |ts| == |us| && forall i {:trigger Same(lang, ts[i], us[i])} :: 0 <= i < |ts| ==> Same(lang, ts[i], us[i])
  }

  lemma AllSameTail(lang: Language, ts: seq<Tree>, us: seq<Tree>)
    requires AllSame(lang, ts, us) && ts != []
    ensures AllSame(lang, ts[1..], us[1..])
  {
    forall i | 0 <= i < |ts| - 1
      ensures Same(lang, ts[1..][i], us[1..][i])
    {
      assert Same(lang, ts[i + 1], us[i + 1]);
    }
  }

  lemma AllSameAppend(lang: Language, ts: seq<Tree>, us: seq<Tree>, vs: seq<Tree>, ws: seq<Tree>)
    requires AllSame(lang, ts, us) && AllSame(lang, vs, ws)
    ensures AllSame(lang, ts + vs, us + ws)
  {
    forall i | 0 <= i < |ts + vs|
      ensures Same(lang, (ts + vs)[i], (us + ws)[i])
    {
      if i < |ts| {
        assert Same(lang, ts[i], us[i]);
      } else {
        assert Same(lang, vs[i - |ts|], ws[i - |ts|]);
      }
    }
  }

  lemma AllSameOne(lang: Language, t: Tree, u: Tree)
    requires Same(lang, t, u)
    ensures AllSame(lang, [t], [u])
  {
  }

  lemma LeavesSplit(t: Tree, rest: seq<Tree>)
    ensures Leaves([t] + rest) == LeavesOf(t) + Leaves(rest)
    ensures t.kids != [] ==> LeavesOf(t) == Leaves(t.kids)
  {
    assert ([t] + rest)[1..] == rest;
    assert [t][1..] == [] && Leaves([]) == [];
    var own := if t.kids == [] then [t.info] else Leaves(t.kids);
    assert own + [] == own;
  }

  lemma {:induction false} LeavesAppend(a: seq<Tree>, b: seq<Tree>)
    ensures Leaves(a + b) == Leaves(a) + Leaves(b)
    decreases |a|
  {
    if a == [] {
      assert a + b == b;
    } else {
      assert a + b == [a[0]] + (a[1..] + b) && a == [a[0]] + a[1..];
      LeavesSplit(a[0], a[1..] + b);
      LeavesSplit(a[0], a[1..]);
      LeavesAppend(a[1..], b);
    }
  }

  lemma {:induction false} SameLeaves(lang: Language, ts: seq<Tree>, us: seq<Tree>)
    requires AllSame(lang, ts, us)
    ensures Leaves(ts) == Leaves(us)
    decreases |ts|
  {
    if ts != [] {
      assert ts == [ts[0]] + ts[1..] && us == [us[0]] + us[1..];
      LeavesSplit(ts[0], ts[1..]);
      LeavesSplit(us[0], us[1..]);
      assert Same(lang, ts[0], us[0]);
      AllSameTail(lang, ts, us);
      SameLeaves(lang, ts[1..], us[1..]);
    }
  }

  lemma {:induction false} SameVisible(lang: Language, productionId: nat, ts: seq<Tree>, us: seq<Tree>, index: nat)
    requires AllSame(lang, ts, us)
    ensures VisibleKids(lang, productionId, ts, index) == VisibleKids(lang, productionId, us, index)
    decreases |ts|
  {
    if ts != [] {
      assert Same(lang, ts[0], us[0]);
      assert Outer(ts[0].info).productionId == ts[0].info.productionId;
      assert ts[0].info.extra == us[0].info.extra by {
        assert Outer(ts[0].info).extra == Outer(us[0].info).extra;
      }
      assert ts[0].info.visible == us[0].info.visible by {
        assert Outer(ts[0].info).visible == Outer(us[0].info).visible;
      }
      AllSameTail(lang, ts, us);
      SameVisible(lang, productionId, ts[1..], us[1..], index + if ts[0].info.extra then 0 else 1);
    }
  }

  ghost predicate AliasFree(lang: Language, productionId: nat) {
    forall i :: lang.aliasAt(productionId, i) == 0
  }

  /** What a run of children shows in a parent without aliases. */
  function Plain(lang: Language, kids: seq<Tree>): seq<Visible> {
    if kids == [] then [] else Shown(lang, kids[0], 0) + Plain(lang, kids[1..])
  }

  lemma {:induction false} AliasFreeIsPlain(lang: Language, productionId: nat, kids: seq<Tree>, index: nat)
    requires AliasFree(lang, productionId)
    ensures VisibleKids(lang, productionId, kids, index) == Plain(lang, kids)
    decreases |kids|
  {
    if kids != [] {
      AliasFreeIsPlain(lang, productionId, kids[1..], index + if kids[0].info.extra then 0 else 1);
    }
  }

  lemma {:induction false} PlainAppend(lang: Language, a: seq<Tree>, b: seq<Tree>)
    ensures Plain(lang, a + b) == Plain(lang, a) + Plain(lang, b)
    decreases |a|
  {
    if a == [] {
      assert a + b == b;
    } else {
      assert (a + b)[1..] == a[1..] + b;
      PlainAppend(lang, a[1..], b);
    }
  }

  /** A hidden child whose production has no aliases is as good as its children. */
  lemma HiddenIsPlain(lang: Language, hidden: Tree)
    requires AliasFree(lang, hidden.info.productionId) && !hidden.info.visible
    ensures Plain(lang, [hidden]) == Plain(lang, hidden.kids)
  {
    AliasFreeIsPlain(lang, hidden.info.productionId, hidden.kids, 0);
    assert [hidden][1..] == [];
    assert Plain(lang, hidden.kids) + [] == Plain(lang, hidden.kids);
  }

  ghost predicate IsHidden(lang: Language, t: Tree) {
    !t.info.visible && AliasFree(lang, t.info.productionId) && t.kids != []
  }

  lemma HiddenLeaves(hidden: Tree)
    requires hidden.kids != []
    ensures Leaves([hidden]) == Leaves(hidden.kids)
  {
    LeavesSplit(hidden, []);
    assert [hidden] + [] == [hidden];
  }

  /** The rotation of Summaries.RotationKeepsSummary on whole trees: what `x` shows stays. */
  lemma RotationKeepsVisible(lang: Language, oldG: Tree, newC: Tree, before: Tree, after: Tree,
                             gInit: seq<Tree>, b: Tree, cRest: seq<Tree>, xRest: seq<Tree>)
    requires IsHidden(lang, oldG) && IsHidden(lang, newC) && IsHidden(lang, before) && IsHidden(lang, after)
    requires oldG.kids == gInit + [b] && newC.kids == [b] + cRest
    requires before.kids == [oldG] + cRest && after.kids == gInit + [newC]
    ensures Plain(lang, [before] + xRest) == Plain(lang, [after] + xRest)
  {
    PlainAppend(lang, [before], xRest);
    PlainAppend(lang, [after], xRest);
    HiddenIsPlain(lang, before);
    HiddenIsPlain(lang, after);
    HiddenIsPlain(lang, oldG);
    HiddenIsPlain(lang, newC);
    PlainAppend(lang, [oldG], cRest);
    PlainAppend(lang, gInit, [b]);
    PlainAppend(lang, gInit, [newC]);
    PlainAppend(lang, [b], cRest);
  }

  lemma RotationKeepsLeaves(oldG: Tree, newC: Tree, before: Tree, after: Tree,
                            gInit: seq<Tree>, b: Tree, cRest: seq<Tree>, xRest: seq<Tree>)
    requires oldG.kids == gInit + [b] && newC.kids == [b] + cRest
    requires before.kids == [oldG] + cRest && after.kids == gInit + [newC]
    ensures Leaves([before] + xRest) == Leaves([after] + xRest)
  {
    LeavesAppend([before], xRest);
    LeavesAppend([after], xRest);
    HiddenLeaves(before);
    HiddenLeaves(after);
    HiddenLeaves(oldG);
    HiddenLeaves(newC);
    LeavesAppend([oldG], cRest);
    LeavesAppend(gInit, [b]);
    LeavesAppend(gInit, [newC]);
    LeavesAppend([b], cRest);
  }
}
