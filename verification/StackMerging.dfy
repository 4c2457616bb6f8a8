/** What merging two nodes of the parse stack does to the graph: nothing is invented, and nothing is
    lost but what overflows a full node. For stack.c:184-264, 708-732. */
module StackMerging {
  import opened Options
  import opened StackGraph

  /** Where the parse goes from one key to another, and through which node. */
  datatype Edge = Edge(from: Key, subtree: Option<StackTree>, node: NodeRef, to: Key)

  function EdgeOf(g: Graph, n: NodeRef, link: Link): Edge
    requires n in g && link.node in g
  {
    Edge(KeyOf(g, n), link.subtree, link.node, KeyOf(g, link.node))
  }

  /** May the node at `n`, or any node with its key, hold this link? */
  ghost predicate LinkBelongs(g: Graph, edges: set<Edge>, n: NodeRef, link: Link) {
    LinkFits(g, n, link) && EdgeOf(g, n, link) in edges
  }

  ghost predicate LinkPlaced(g: Graph, edges: set<Edge>, n: NodeRef, i: nat) {
    n in g && i < |g[n].links| ==> LinkBelongs(g, edges, n, g[n].links[i]) && g[n].links[i].node != n
  }

  /** All links are among `edges`, and none leads from a node to itself. */
  ghost predicate Within(g: Graph, edges: set<Edge>) {
    forall n, i: nat {:trigger LinkPlaced(g, edges, n, i)} :: LinkPlaced(g, edges, n, i)
  }

  /** All the edges of a graph. */
  ghost function EdgesOf(g: Graph): set<Edge> {
    set n, i | n in g && 0 <= i < |g[n].links| && g[n].links[i].node in g :: EdgeOf(g, n, g[n].links[i])
  }

  lemma AcyclicIsWithin(g: Graph)
    requires GraphOk(g) && Acyclic(g)
    ensures Within(g, EdgesOf(g))
  {
    var rank :| Ranked(g, rank);
    forall n, i: nat
      ensures LinkPlaced(g, EdgesOf(g), n, i)
    {
      assert NodeOk(g, n) && Falls(g, rank, n, i);
    }
  }

  ghost predicate HasEdge(g: Graph, edge: Edge, m: NodeRef, k: nat) {
    m in g && k < |g[m].links| && g[m].links[k].node in g && EdgeOf(g, m, g[m].links[k]) == edge
  }

  lemma EdgesAreHad(g: Graph, edge: Edge)
    requires edge in EdgesOf(g)
    ensures exists m, k: nat :: HasEdge(g, edge, m, k)
  {
    assert exists m, k: nat {:trigger g[m].links[k]} :: m in g && k < |g[m].links| && HasEdge(g, edge, m, k);
  }

  // ---- Growth ----

  predicate Matches(a: Option<StackTree>, b: Option<StackTree>) {
    || (a.None? && b.None?)
    || (&& a.Some? && b.Some? && a.value.tree.info.symbol == b.value.tree.info.symbol
        && Span(a) == Span(b) && Cost(a) == Cost(b))
  }

  /** A link is only ever improved: an equivalent subtree of higher precedence takes its place. */
  ghost predicate LinkGrown(link: Link, link': Link) {
    && link'.node == link.node && link'.isPending == link.isPending
    && Matches(link.subtree, link'.subtree)
    && (link'.subtree == link.subtree || Precedence(link'.subtree) > Precedence(link.subtree))
  }

  ghost predicate NodeGrown(g: Graph, g': Graph, n: NodeRef) {
    && (n in g' <==> n in g)
    && (n in g ==>
          && g'[n].state == g[n].state && g'[n].position == g[n].position && g'[n].errorCost == g[n].errorCost
          && |g[n].links| <= |g'[n].links|
          && forall i :: 0 <= i < |g[n].links| ==> LinkGrown(g[n].links[i], g'[n].links[i]))
  }

  ghost predicate Grown(g: Graph, g': Graph) {
    forall n {:trigger NodeGrown(g, g', n)} :: NodeGrown(g, g', n)
  }

  lemma GrownItself(g: Graph)
    ensures Grown(g, g)
  {
    forall n
      ensures NodeGrown(g, g, n)
    {
    }
  }

  lemma GrownKeys(g: Graph, g': Graph)
    requires Grown(g, g')
    ensures g'.Keys == g.Keys
  {
    forall n
      ensures n in g <==> n in g'
    {
      assert NodeGrown(g, g', n);
    }
  }

  lemma GrownTransitive(g0: Graph, g1: Graph, g2: Graph)
    requires Grown(g0, g1) && Grown(g1, g2)
    ensures Grown(g0, g2)
  {
    forall n
      ensures NodeGrown(g0, g2, n)
    {
      assert NodeGrown(g0, g1, n) && NodeGrown(g1, g2, n);
    }
  }

  /** One node grows; everything else stays. */
  lemma OneNodeGrows(g: Graph, edges: set<Edge>, n: NodeRef, node: StackNode)
    requires GraphOk(g) && Within(g, edges) && n in g
    requires node.state == g[n].state && node.position == g[n].position && node.errorCost == g[n].errorCost
    requires |g[n].links| <= |node.links| <= MAX_LINK_COUNT
    requires forall i :: 0 <= i < |g[n].links| ==> LinkGrown(g[n].links[i], node.links[i])
    requires forall i :: 0 <= i < |node.links| ==> LinkBelongs(g, edges, n, node.links[i]) && node.links[i].node != n
    ensures GraphOk(g[n := node]) && Within(g[n := node], edges) && Grown(g, g[n := node])
  {
    var g' := g[n := node];
    assert forall m :: m in g ==> KeyOf(g', m) == KeyOf(g, m);
    forall m
      ensures NodeOk(g', m) && NodeGrown(g, g', m)
    {
      assert NodeOk(g, m);
    }
    forall m, i: nat
      ensures LinkPlaced(g', edges, m, i)
    {
      assert LinkPlaced(g, edges, m, i);
    }
  }

  /** Ranks of what has grown are ranks of what it was. */
  lemma RankedBefore(g: Graph, g': Graph, rank: NodeRef -> nat)
    requires Grown(g, g') && Ranked(g', rank)
    ensures Ranked(g, rank)
  {
    forall n, i: nat
      ensures Falls(g, rank, n, i)
    {
      assert NodeGrown(g, g', n) && Falls(g', rank, n, i);
      if n in g && i < |g[n].links| {
        assert LinkGrown(g[n].links[i], g'[n].links[i]);
      }
    }
  }

  /** What matters for circles is where the links lead. */
  lemma SameTargets(g: Graph, n: NodeRef, node: StackNode, rank: NodeRef -> nat)
    requires n in g && Ranked(g, rank) && |node.links| == |g[n].links|
    requires forall i :: 0 <= i < |node.links| ==> node.links[i].node == g[n].links[i].node
    ensures Ranked(g[n := node], rank)
  {
    var g' := g[n := node];
    forall m, i: nat
      ensures Falls(g', rank, m, i)
    {
      assert Falls(g, rank, m, i);
    }
  }

  // ---- Room for links ----

  ghost function FreeSlots(g: Graph): set<(NodeRef, nat)> {
    set n, i | n in g && |g[n].links| <= i < MAX_LINK_COUNT :: (n, i)
  }

  lemma GrownSlots(g: Graph, g': Graph)
    requires Grown(g, g')
    ensures FreeSlots(g') <= FreeSlots(g)
  {
    forall n, i | n in g' && |g'[n].links| <= i < MAX_LINK_COUNT
      ensures (n, i) in FreeSlots(g)
    {
      assert NodeGrown(g, g', n);
    }
  }

  /** Where no link has been added the old ranks are still good. */
  lemma SlotsKeepRanks(g: Graph, g': Graph, rank: NodeRef -> nat)
    requires Grown(g, g') && GraphOk(g') && FreeSlots(g') == FreeSlots(g) && Ranked(g, rank)
    ensures Ranked(g', rank)
  {
    forall n, i: nat
      ensures Falls(g', rank, n, i)
    {
      if n in g' && i < |g'[n].links| {
        assert NodeGrown(g, g', n) && NodeOk(g', n) && Falls(g, rank, n, i);
        assert |g[n].links| < MAX_LINK_COUNT ==> (n, |g[n].links|) in FreeSlots(g');
        assert LinkGrown(g[n].links[i], g'[n].links[i]);
      }
    }
  }

  /** Ranks for a graph without circles: the old ones, unless links have been added. */
  lemma RanksAfter(g: Graph, g': Graph, rank: NodeRef -> nat) returns (rank': NodeRef -> nat)
    requires Grown(g, g') && GraphOk(g') && Ranked(g, rank) && Acyclic(g')
    ensures Ranked(g', rank') && (FreeSlots(g') == FreeSlots(g) ==> rank' == rank)
  {
    if FreeSlots(g') == FreeSlots(g) {
      SlotsKeepRanks(g, g', rank);
      rank' := rank;
    } else {
      rank' :| Ranked(g', rank');
    }
  }

  function Larger(a: int, b: int): int {
    if a > b then a else b
  }

  /** The node with one more link. */
  function WithLink(g: Graph, n: NodeRef, link: Link): StackNode
    requires n in g && link.node in g
  {
    var count := g[link.node].nodeCount + NodeCount(link.subtree);
    g[n].(links := g[n].links + [link],
          nodeCount := if count > g[n].nodeCount then count else g[n].nodeCount,
          precedence := Larger(g[n].precedence, g[link.node].precedence + Precedence(link.subtree)))
  }

  /** The node with another subtree on its `i`th link. */
  function WithSubtree(g: Graph, n: NodeRef, i: nat, subtree: Option<StackTree>): StackNode
    requires n in g && i < |g[n].links| && g[n].links[i].node in g
  {
    g[n].(links := g[n].links[i := g[n].links[i].(subtree := subtree)],
          precedence := g[g[n].links[i].node].precedence + Precedence(subtree))
  }

  /** Would the new link be absorbed by this one: same nodes, or nodes that can be merged? */
  predicate Absorbs(g: Graph, existing: Link, link: Link)
    requires existing.node in g && link.node in g
  {
    IsEquivalent(existing.subtree, link.subtree) &&
    (existing.node == link.node || KeyOf(g, existing.node) == KeyOf(g, link.node))
  }

  ghost predicate AbsorbsAt(g: Graph, n: NodeRef, link: Link, i: nat) {
    n in g && link.node in g && i < |g[n].links| && g[n].links[i].node in g && Absorbs(g, g[n].links[i], link)
  }

  /** The first link that absorbs the new one, or none. */
  ghost predicate FirstAbsorbs(g: Graph, n: NodeRef, link: Link, i: nat) {
    && n in g && i <= |g[n].links|
    && (i < |g[n].links| ==> AbsorbsAt(g, n, link, i))
    && forall j: nat {:trigger AbsorbsAt(g, n, link, j)} :: j < i ==> !AbsorbsAt(g, n, link, j)
  }

  // ---- Completeness ----

  /** The link has a counterpart in the node at `a`: its `i`th link matches, and leads to the
      same node or to one that has taken over that node's links. `g0` is the graph before. */
  ghost predicate AbsorbedBy(g0: Graph, g: Graph, rank: NodeRef -> nat, a: NodeRef, link: Link, i: nat)
    decreases rank(a), 1
  {
    && a in g && i < |g[a].links| && Matches(g[a].links[i].subtree, link.subtree)
    && (|| (g[a].links[i].node == link.node && Precedence(g[a].links[i].subtree) >= Precedence(link.subtree))
        || TookOver(g0, g, rank, a, link.node, i))
  }

  ghost predicate TookOver(g0: Graph, g: Graph, rank: NodeRef -> nat, a: NodeRef, b: NodeRef, i: nat)
    requires a in g && i < |g[a].links|
    decreases rank(a), 0
  {
    var e := g[a].links[i].node;
    && e in g && b in g0 && rank(e) < rank(a) && KeyOf(g, e) == KeyOf(g0, b)
    && forall j :: 0 <= j < |g0[b].links| ==> Absorbed(g0, g, rank, e, g0[b].links[j])
  }

  /** The link is not lost for the node at `a`, unless that node is full: it is absorbed, or it is
      an empty step back to `a` itself. */
  ghost predicate Absorbed(g0: Graph, g: Graph, rank: NodeRef -> nat, a: NodeRef, link: Link)
    decreases rank(a), 2
  {
    && a in g
    && (|| link.node == a
        || |g[a].links| == MAX_LINK_COUNT
        || exists i: nat :: AbsorbedBy(g0, g, rank, a, link, i))
  }

  lemma {:induction false} StillAbsorbed(g0: Graph, g: Graph, g': Graph, rank: NodeRef -> nat, a: NodeRef, link: Link)
    requires Absorbed(g0, g, rank, a, link) && Grown(g, g') && GraphOk(g')
    ensures Absorbed(g0, g', rank, a, link)
    decreases rank(a)
  {
    assert NodeGrown(g, g', a) && NodeOk(g', a);
    if link.node != a && |g[a].links| != MAX_LINK_COUNT {
      var i: nat :| AbsorbedBy(g0, g, rank, a, link, i);
      var e := g[a].links[i].node;
      assert LinkGrown(g[a].links[i], g'[a].links[i]);
      if TookOver(g0, g, rank, a, link.node, i) {
        assert NodeGrown(g, g', e);
        forall j | 0 <= j < |g0[link.node].links|
          ensures Absorbed(g0, g', rank, e, g0[link.node].links[j])
        {
          StillAbsorbed(g0, g, g', rank, e, g0[link.node].links[j]);
        }
        assert TookOver(g0, g', rank, a, link.node, i);
      }
      assert AbsorbedBy(g0, g', rank, a, link, i);
    }
  }

  /** What absorbs a link absorbs what the link was before it grew. */
  lemma {:induction false} AbsorbedEarlier(g0: Graph, g1: Graph, g: Graph, rank: NodeRef -> nat, a: NodeRef,
                                           link: Link, link': Link)
    requires Absorbed(g1, g, rank, a, link') && Grown(g0, g1) && LinkGrown(link, link')
    ensures Absorbed(g0, g, rank, a, link)
    decreases rank(a)
  {
    if link.node != a && |g[a].links| != MAX_LINK_COUNT {
      var i: nat :| AbsorbedBy(g1, g, rank, a, link', i);
      var e := g[a].links[i].node;
      if TookOver(g1, g, rank, a, link.node, i) {
        assert NodeGrown(g0, g1, link.node);
        forall j | 0 <= j < |g0[link.node].links|
          ensures Absorbed(g0, g, rank, e, g0[link.node].links[j])
        {
          AbsorbedEarlier(g0, g1, g, rank, e, g0[link.node].links[j], g1[link.node].links[j]);
        }
        assert TookOver(g0, g, rank, a, link.node, i);
      }
      assert AbsorbedBy(g0, g, rank, a, link, i);
    }
  }

  /** The link is absorbed, whatever ranks show that the graph has no circle. */
  ghost predicate Kept(g0: Graph, g: Graph, a: NodeRef, link: Link) {
    forall rank: NodeRef -> nat {:trigger Ranked(g, rank)} :: Ranked(g, rank) ==> Absorbed(g0, g, rank, a, link)
  }

  lemma StillKept(g0: Graph, g: Graph, g': Graph, a: NodeRef, link: Link)
    requires Kept(g0, g, a, link) && Grown(g, g') && GraphOk(g')
    ensures Kept(g0, g', a, link)
  {
    forall rank: NodeRef -> nat | Ranked(g', rank)
      ensures Absorbed(g0, g', rank, a, link)
    {
      RankedBefore(g, g', rank);
      StillAbsorbed(g0, g, g', rank, a, link);
    }
  }

  lemma KeptEarlier(g0: Graph, g1: Graph, g: Graph, a: NodeRef, link: Link, link': Link)
    requires Kept(g1, g, a, link') && Grown(g0, g1) && LinkGrown(link, link')
    ensures Kept(g0, g, a, link)
  {
    forall rank: NodeRef -> nat | Ranked(g, rank)
      ensures Absorbed(g0, g, rank, a, link)
    {
      AbsorbedEarlier(g0, g1, g, rank, a, link, link');
    }
  }

  lemma AbsorbedIsKept(g0: Graph, g: Graph, a: NodeRef, link: Link, i: nat)
    requires a in g && i < |g[a].links| && Matches(g[a].links[i].subtree, link.subtree)
    requires g[a].links[i].node == link.node && Precedence(g[a].links[i].subtree) >= Precedence(link.subtree)
    ensures Kept(g0, g, a, link)
  {
    forall rank: NodeRef -> nat | Ranked(g, rank)
      ensures Absorbed(g0, g, rank, a, link)
    {
      assert AbsorbedBy(g0, g, rank, a, link, i);
    }
  }

  /** A link of one node may move to any other node with its key. */
  lemma LinkMoves(g: Graph, edges: set<Edge>, from: NodeRef, j: nat, into: NodeRef)
    requires GraphOk(g) && Within(g, edges) && from in g && j < |g[from].links| && into in g
    requires KeyOf(g, from) == KeyOf(g, into)
    ensures LinkBelongs(g, edges, into, g[from].links[j])
  {
    assert LinkPlaced(g, edges, from, j);
  }

  /** The `i`th link of `a` has absorbed the link once its node took over the other's links. */
  lemma TakenOver(g0: Graph, g: Graph, a: NodeRef, link: Link, i: nat)
    requires Grown(g0, g) && a in g0 && i < |g0[a].links| && link.node in g0
    requires Matches(g0[a].links[i].subtree, link.subtree)
    requires var e := g0[a].links[i].node;
             && e in g0 && KeyOf(g0, e) == KeyOf(g0, link.node)
             && forall j :: 0 <= j < |g0[link.node].links| ==> Kept(g0, g, e, g0[link.node].links[j])
    ensures a in g && link.node in g && Kept(g0, g, a, link)
  {
    var e := g0[a].links[i].node;
    assert NodeGrown(g0, g, a) && NodeGrown(g0, g, e) && NodeGrown(g0, g, link.node);
    assert LinkGrown(g0[a].links[i], g[a].links[i]);
    forall rank: NodeRef -> nat | Ranked(g, rank)
      ensures Absorbed(g0, g, rank, a, link)
    {
      assert Falls(g, rank, a, i);
      assert TookOver(g0, g, rank, a, link.node, i);
      assert AbsorbedBy(g0, g, rank, a, link, i);
    }
  }

  /** One more link of `from` has been absorbed. */
  lemma MergeAdvances(g0: Graph, g: Graph, g': Graph, into: NodeRef, from: NodeRef, j: nat)
    requires Grown(g0, g) && Grown(g, g') && GraphOk(g') && into in g && from in g && j < |g[from].links|
    requires from in g0 && KeyOf(g, into) == KeyOf(g, from)
    requires Kept(g, g', into, g[from].links[j])
    requires forall k :: 0 <= k < j && k < |g0[from].links| ==> Kept(g0, g, into, g0[from].links[k])
    ensures forall k :: 0 <= k <= j && k < |g0[from].links| ==> Kept(g0, g', into, g0[from].links[k])
  {
    assert NodeGrown(g0, g, from);
    forall k | 0 <= k <= j && k < |g0[from].links|
      ensures Kept(g0, g', into, g0[from].links[k])
    {
      if k < j {
        StillKept(g0, g, g', into, g0[from].links[k]);
      } else {
        KeptEarlier(g0, g, g', into, g0[from].links[j], g[from].links[j]);
      }
    }
  }

  // ---- What it means for whole paths ----

  predicate IsEmptyStep(s: Option<StackTree>) {
    Span(s) == 0 && Cost(s) == 0
  }

  /** `other` spells `word` with matching subtrees, leaving out only steps that span nothing. */
  ghost predicate Covers(word: seq<Option<StackTree>>, other: seq<Option<StackTree>>)
    decreases |word|
  {
    if word == [] then other == []
    else
      || (other != [] && Matches(word[0], other[0]) && Covers(word[1..], other[1..]))
      || (IsEmptyStep(word[0]) && Covers(word[1..], other))
  }

  lemma {:induction false} CoversGrown(word: seq<Option<StackTree>>, other: seq<Option<StackTree>>)
    requires |word| == |other| && forall k :: 0 <= k < |word| ==> Matches(word[k], other[k])
    ensures Covers(word, other)
    decreases |word|
  {
    if word != [] {
      CoversGrown(word[1..], other[1..]);
    }
  }

  /** A path survives growth as it is. */
  lemma {:induction false} PathGrown(g: Graph, g': Graph, n: NodeRef, path: Path)
    requires Grown(g, g') && IsPath(g, n, path)
    ensures IsPath(g', n, path) && EndOf(g', n, path) == EndOf(g, n, path)
    ensures |Spelled(g', n, path)| == |Spelled(g, n, path)|
    ensures forall k :: 0 <= k < |Spelled(g, n, path)| ==> Matches(Spelled(g, n, path)[k], Spelled(g', n, path)[k])
    decreases |path|
  {
    if path != [] {
      var init := path[..|path| - 1];
      PathGrown(g, g', n, init);
      assert NodeGrown(g, g', EndOf(g, n, init));
    }
  }

  /** Merging loses no path: as long as no node is full, whatever could be walked from `b` before
      can be walked from `a` afterwards, to an end with the same key. */
  lemma {:induction false} AbsorbedPath(g0: Graph, g: Graph, rank: NodeRef -> nat, a: NodeRef, b: NodeRef, path: Path)
    returns (path': Path)
    requires Grown(g0, g) && GraphOk(g0) && a in g && b in g0 && KeyOf(g, a) == KeyOf(g0, b) && IsPath(g0, b, path)
    requires forall n :: n in g ==> |g[n].links| < MAX_LINK_COUNT
    requires forall j :: 0 <= j < |g0[b].links| ==> Absorbed(g0, g, rank, a, g0[b].links[j])
    ensures IsPath(g, a, path') && EndOf(g0, b, path) in g0 && EndOf(g, a, path') in g
    ensures KeyOf(g, EndOf(g, a, path')) == KeyOf(g0, EndOf(g0, b, path))
    ensures Covers(Spelled(g0, b, path), Spelled(g, a, path'))
    decreases |path|
  {
    if path == [] {
      path' := [];
      return;
    }
    PathUncons(g0, b, path);
    var link, rest := g0[b].links[path[0]], path[1..];
    assert path == [path[0]] + rest;
    PathCons(g0, b, path[0], rest);
    assert NodeOk(g0, b) && LinkFits(g0, b, link) && NodeGrown(g0, g, a) && NodeGrown(g0, g, link.node);
    assert Absorbed(g0, g, rank, a, link);
    if link.node == a {
      path' := rest;
      KeptPath(g0, g, a, rest);
      CoversEmptyStep(link.subtree, Spelled(g0, a, rest), Spelled(g, a, rest));
    } else {
      var i: nat :| AbsorbedBy(g0, g, rank, a, link, i);
      var e := g[a].links[i];
      var tail;
      if e.node == link.node {
        KeptPath(g0, g, e.node, rest);
        tail := rest;
      } else {
        assert TookOver(g0, g, rank, a, link.node, i);
        tail := AbsorbedPath(g0, g, rank, e.node, link.node, rest);
      }
      path' := [i] + tail;
      PathCons(g, a, i, tail);
      CoversStep(link.subtree, e.subtree, Spelled(g0, link.node, rest), Spelled(g, e.node, tail));
    }
  }

  lemma CoversEmptyStep(s: Option<StackTree>, word: seq<Option<StackTree>>, other: seq<Option<StackTree>>)
    requires IsEmptyStep(s) && Covers(word, other)
    ensures Covers([s] + word, other)
  {
    assert ([s] + word)[1..] == word;
  }

  lemma CoversStep(s: Option<StackTree>, s': Option<StackTree>, word: seq<Option<StackTree>>,
                   other: seq<Option<StackTree>>)
    requires Matches(s', s) && Covers(word, other)
    ensures Covers([s] + word, [s'] + other)
  {
    assert ([s] + word)[1..] == word && ([s'] + other)[1..] == other;
  }

  lemma KeptPath(g0: Graph, g: Graph, n: NodeRef, path: Path)
    requires Grown(g0, g) && GraphOk(g0) && n in g0 && IsPath(g0, n, path)
    ensures IsPath(g, n, path) && EndOf(g0, n, path) in g0 && EndOf(g, n, path) in g
    ensures KeyOf(g, EndOf(g, n, path)) == KeyOf(g0, EndOf(g0, n, path))
    ensures Covers(Spelled(g0, n, path), Spelled(g, n, path))
  {
    PathsAgree(g0, n, path);
    PathGrown(g0, g, n, path);
    assert NodeGrown(g0, g, EndOf(g0, n, path));
    CoversGrown(Spelled(g0, n, path), Spelled(g, n, path));
  }

  // ---- Soundness ----

  ghost predicate GoesTo(edges: set<Edge>, edge: Edge, from: Key, subtree: Option<StackTree>, to: Key) {
    edge in edges && edge.from == from && edge.subtree == subtree && edge.to == to
  }

  /** The edges can be walked from one key to another, spelling `word`. */
  ghost predicate Spells(edges: set<Edge>, from: Key, word: seq<Option<StackTree>>, to: Key)
    decreases |word|
  {
    if word == [] then from == to
    else
      var n := |word| - 1;
      exists mid, edge :: Spells(edges, from, word[..n], mid) && GoesTo(edges, edge, mid, word[n], to)
  }

  /** Merging invents no path: every path of a graph walks along its edges. */
  lemma {:induction false} PathFollowsEdges(g: Graph, edges: set<Edge>, n: NodeRef, path: Path)
    requires GraphOk(g) && EdgesOf(g) <= edges && n in g && IsPath(g, n, path)
    ensures EndOf(g, n, path) in g
    ensures Spells(edges, KeyOf(g, n), Spelled(g, n, path), KeyOf(g, EndOf(g, n, path)))
    decreases |path|
  {
    if path != [] {
      var init := path[..|path| - 1];
      PathFollowsEdges(g, edges, n, init);
      var before, word := EndOf(g, n, init), Spelled(g, n, path);
      var link := g[before].links[path[|path| - 1]];
      assert NodeOk(g, before) && LinkFits(g, before, link);
      assert word[..|word| - 1] == Spelled(g, n, init);
      assert GoesTo(edges, EdgeOf(g, before, link), KeyOf(g, before), word[|word| - 1], KeyOf(g, link.node));
    }
  }
}
