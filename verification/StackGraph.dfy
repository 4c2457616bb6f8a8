/** The graph behind the parse stack: nodes with up to eight links to predecessors, each link
    carrying the subtree (or none) that was pushed. Models the data of stack.c:27-41, 138-264. */
module StackGraph {
  import opened Lengths
  import opened Options
  import opened SyntaxTrees
  import opened Summaries

  type NodeRef = nat
  type State = nat

  const MAX_LINK_COUNT: nat := 8
  const ERROR_STATE: State := 0

  /** A subtree with the two facts about it that only the stack compares. */
  datatype StackTree = StackTree(tree: Tree, precedence: int, scannerState: seq<char>)

  datatype Link = Link(node: NodeRef, subtree: Option<StackTree>, isPending: bool)

  datatype StackNode = StackNode(state: State, position: Length, links: seq<Link>, errorCost: nat, nodeCount: nat,
                                 precedence: int)

  type Graph = map<NodeRef, StackNode>

  function Span(s: Option<StackTree>): nat {
    if s.Some? then TotalBytes(s.value.tree) else 0
  }

  function Cost(s: Option<StackTree>): nat {
    if s.Some? then ErrorCost(s.value.tree.info) else 0
  }

  function Precedence(s: Option<StackTree>): int {
    if s.Some? && s.value.tree.kids != [] then s.value.precedence else 0
  }

  /** How much progress a subtree counts for. */
  function NodeCount(s: Option<StackTree>): nat {
    if s.None? then 0
    else
      var info := s.value.tree.info;
      (if s.value.tree.kids != [] then info.visibleDescendantCount else 0) +
      (if info.visible then 1 else 0) + (if info.symbol == SYM_ERROR_REPEAT then 1 else 0)
  }

  /** What two nodes must agree on to be merged. */
  datatype Key = Key(state: State, bytes: nat, cost: nat)

  function KeyOf(g: Graph, n: NodeRef): Key
    requires n in g
  {
    Key(g[n].state, g[n].position.bytes, g[n].errorCost)
  }

  /** The subtrees that need not both be kept (stack__subtree_is_equivalent). */
  predicate IsEquivalent(left: Option<StackTree>, right: Option<StackTree>) {
    || (left.None? && right.None?)
    || (&& left.Some? && right.Some?
        && var l, r := left.value.tree, right.value.tree;
        && l.info.symbol == r.info.symbol
        && (|| (ErrorCost(l.info) > 0 && ErrorCost(r.info) > 0)
            || (&& l.info.padding.bytes == r.info.padding.bytes && l.info.size.bytes == r.info.size.bytes
                && |l.kids| == |r.kids| && l.info.extra == r.info.extra
                && left.value.scannerState == right.value.scannerState)))
  }

  // ---- Consistency ----

  /** A link's node lies before it by exactly the bytes and the cost of its subtree. */
  ghost predicate LinkFits(g: Graph, n: NodeRef, link: Link) {
    && n in g && link.node in g
    && g[n].position.bytes == g[link.node].position.bytes + Span(link.subtree)
    && g[n].errorCost == g[link.node].errorCost + Cost(link.subtree)
  }

  ghost predicate NodeOk(g: Graph, n: NodeRef) {
    n in g ==>
      && |g[n].links| <= MAX_LINK_COUNT
      && (g[n].links == [] ==> g[n].position.bytes == 0 && g[n].errorCost == 0)
      && forall i :: 0 <= i < |g[n].links| ==> LinkFits(g, n, g[n].links[i])
  }

  ghost predicate GraphOk(g: Graph) {
    forall n {:trigger NodeOk(g, n)} :: NodeOk(g, n)
  }

  /** Ranks fall along the `i`th link of node `n`. */
  ghost predicate Falls(g: Graph, rank: NodeRef -> nat, n: NodeRef, i: nat) {
    n in g && i < |g[n].links| ==> rank(g[n].links[i].node) < rank(n)
  }

  ghost predicate Ranked(g: Graph, rank: NodeRef -> nat) {
    forall n, i: nat {:trigger Falls(g, rank, n, i)} :: Falls(g, rank, n, i)
  }

  ghost predicate Acyclic(g: Graph) {
    exists rank :: Ranked(g, rank)
  }

  /** A new node on top of an old one. */
  lemma PushKeepsGraph(g: Graph, n: NodeRef, node: StackNode)
    requires GraphOk(g) && Acyclic(g) && n !in g && |node.links| == 1 && node.links[0].node in g
    requires (forall m :: m in g ==> m < n) && LinkFits(g[n := node], n, node.links[0])
    ensures GraphOk(g[n := node]) && Acyclic(g[n := node])
  {
    var g' := g[n := node];
    forall m
      ensures NodeOk(g', m)
    {
      assert NodeOk(g, m);
      if m in g {
        forall i | 0 <= i < |g'[m].links|
          ensures LinkFits(g', m, g'[m].links[i])
        {
          assert LinkFits(g, m, g[m].links[i]);
        }
      }
    }
    var rank :| Ranked(g, rank);
    var rank' := (m: NodeRef) => if m == n then rank(node.links[0].node) + 1 else rank(m);
    forall m, i: nat
      ensures Falls(g', rank', m, i)
    {
      assert Falls(g, rank, m, i) && NodeOk(g, m);
    }
    assert Ranked(g', rank');
  }

  // ---- Paths ----

  /** A path is the list of the link indices it takes. */
  type Path = seq<nat>

  function EndOf(g: Graph, n: NodeRef, path: Path): NodeRef
    decreases |path|
  {
    if path == [] then n
    else
      var before := EndOf(g, n, path[..|path| - 1]);
      var i := path[|path| - 1];
      if before in g && i < |g[before].links| then g[before].links[i].node else before
  }

  predicate IsPath(g: Graph, n: NodeRef, path: Path)
    decreases |path|
  {
    path == [] ||
    (&& IsPath(g, n, path[..|path| - 1])
     && var before := EndOf(g, n, path[..|path| - 1]);
     && before in g && path[|path| - 1] < |g[before].links|)
  }

  function LastLink(g: Graph, n: NodeRef, path: Path): Link
    requires IsPath(g, n, path) && path != []
  {
    g[EndOf(g, n, path[..|path| - 1])].links[path[|path| - 1]]
  }

  /** The subtrees along a path, from the top down. */
  function Spelled(g: Graph, n: NodeRef, path: Path): (word: seq<Option<StackTree>>)
    requires IsPath(g, n, path)
    decreases |path|
  {
    if path == [] then [] else Spelled(g, n, path[..|path| - 1]) + [LastLink(g, n, path).subtree]
  }

  function SumSpans(word: seq<Option<StackTree>>): nat {
    if word == [] then 0 else SumSpans(word[..|word| - 1]) + Span(word[|word| - 1])
  }

  function SumCosts(word: seq<Option<StackTree>>): nat {
    if word == [] then 0 else SumCosts(word[..|word| - 1]) + Cost(word[|word| - 1])
  }

  lemma {:induction false} SumsSnoc(word: seq<Option<StackTree>>, s: Option<StackTree>)
    ensures SumSpans(word + [s]) == SumSpans(word) + Span(s)
    ensures SumCosts(word + [s]) == SumCosts(word) + Cost(s)
  {
    assert (word + [s])[..|word|] == word;
  }

  /** Path independence: however one walks down from a node, position and cost are accounted for. */
  lemma {:induction false} PathsAgree(g: Graph, n: NodeRef, path: Path)
    requires GraphOk(g) && n in g && IsPath(g, n, path)
    ensures EndOf(g, n, path) in g
    ensures g[n].position.bytes == g[EndOf(g, n, path)].position.bytes + SumSpans(Spelled(g, n, path))
    ensures g[n].errorCost == g[EndOf(g, n, path)].errorCost + SumCosts(Spelled(g, n, path))
    decreases |path|
  {
    if path != [] {
      var init := path[..|path| - 1];
      PathsAgree(g, n, init);
      assert NodeOk(g, EndOf(g, n, init)) && LinkFits(g, EndOf(g, n, init), LastLink(g, n, path));
      SumsSnoc(Spelled(g, n, init), LastLink(g, n, path).subtree);
    }
  }

  /** All paths from a node to the base spell the same number of bytes and the same cost. */
  lemma PathsToBaseAgree(g: Graph, n: NodeRef, path: Path)
    requires GraphOk(g) && n in g && IsPath(g, n, path) && EndOf(g, n, path) in g && g[EndOf(g, n, path)].links == []
    ensures SumSpans(Spelled(g, n, path)) == g[n].position.bytes
    ensures SumCosts(Spelled(g, n, path)) == g[n].errorCost
  {
    PathsAgree(g, n, path);
    assert NodeOk(g, EndOf(g, n, path));
  }

  lemma {:induction false} PathsAreShort(g: Graph, rank: NodeRef -> nat, n: NodeRef, path: Path)
    requires Ranked(g, rank) && IsPath(g, n, path)
    ensures |path| + rank(EndOf(g, n, path)) <= rank(n)
    decreases |path|
  {
    if path != [] {
      PathsAreShort(g, rank, n, path[..|path| - 1]);
      assert Falls(g, rank, EndOf(g, n, path[..|path| - 1]), path[|path| - 1]);
    }
  }

  /** A path read from its first link on. */
  lemma {:induction false} PathCons(g: Graph, n: NodeRef, i: nat, rest: Path)
    requires n in g && i < |g[n].links| && IsPath(g, g[n].links[i].node, rest)
    ensures IsPath(g, n, [i] + rest) && EndOf(g, n, [i] + rest) == EndOf(g, g[n].links[i].node, rest)
    ensures Spelled(g, n, [i] + rest) == [g[n].links[i].subtree] + Spelled(g, g[n].links[i].node, rest)
    decreases |rest|
  {
    var path := [i] + rest;
    if rest == [] {
      assert path == [i] && path[..0] == [];
      assert EndOf(g, n, []) == n && IsPath(g, n, []);
      assert IsPath(g, n, path) && Spelled(g, n, path[..0]) == [];
    } else {
      var init := rest[..|rest| - 1];
      assert path[..|path| - 1] == [i] + init;
      PathCons(g, n, i, init);
    }
  }

  /** The first link of a path, and what is left. */
  lemma {:induction false} PathUncons(g: Graph, n: NodeRef, path: Path)
    requires IsPath(g, n, path) && path != []
    ensures n in g && path[0] < |g[n].links| && IsPath(g, g[n].links[path[0]].node, path[1..])
    decreases |path|
  {
    var init := path[..|path| - 1];
    if |path| == 1 {
      assert init == [] && path[1..] == [];
    } else {
      PathUncons(g, n, init);
      assert init[0] == path[0] && init[1..] == path[1..][..|path| - 2];
      PathCons(g, n, path[0], init[1..]);
      assert [path[0]] + init[1..] == init;
    }
  }
}
