/** When merging closes a circle in the parse stack, and what keeps that from happening. The code
    does not check. For stack.c:200-264, 708-732. */
module StackCircles {
  import opened StackGraph
  import opened StackMerging

  /** Some path leads from `n` down to `m`. */
  ghost predicate Leads(g: Graph, n: NodeRef, m: NodeRef) {
    exists path :: IsPath(g, n, path) && EndOf(g, n, path) == m
  }

  lemma {:induction false} PathGoesDown(g: Graph, g': Graph, rank: NodeRef -> nat, n: NodeRef, path: Path)
    requires Ranked(g', rank) && IsPath(g, n, path)
    requires forall m :: m in g ==> m in g' && g[m].links <= g'[m].links
    ensures rank(EndOf(g, n, path)) <= rank(n)
    decreases |path|
  {
    if path != [] {
      PathGoesDown(g, g', rank, n, path[..|path| - 1]);
      assert Falls(g', rank, EndOf(g, n, path[..|path| - 1]), path[|path| - 1]);
    }
  }

  lemma RankedLeadsNotBack(g: Graph, n: NodeRef, link: Link, rank: NodeRef -> nat)
    requires n in g && link.node in g && Ranked(g[n := WithLink(g, n, link)], rank)
    ensures !Leads(g, link.node, n)
  {
    var g' := g[n := WithLink(g, n, link)];
    assert Falls(g', rank, n, |g[n].links|);
    if path :| IsPath(g, link.node, path) && EndOf(g, link.node, path) == n {
      PathGoesDown(g, g', rank, link.node, path);
    }
  }

  lemma LeadsOn(g: Graph, n: NodeRef, i: nat, m: NodeRef)
    requires n in g && i < |g[n].links| && Leads(g, g[n].links[i].node, m)
    ensures Leads(g, n, m)
  {
    var path :| IsPath(g, g[n].links[i].node, path) && EndOf(g, g[n].links[i].node, path) == m;
    PathCons(g, n, i, path);
  }

  /** Another link closes a circle exactly if its node already leads back. */
  lemma LinkClosesCircleIff(g: Graph, n: NodeRef, link: Link)
    requires Acyclic(g) && n in g && link.node in g
    ensures Acyclic(g[n := WithLink(g, n, link)]) <==> !Leads(g, link.node, n)
  {
    var g' := g[n := WithLink(g, n, link)];
    if rank :| Ranked(g', rank) {
      RankedLeadsNotBack(g, n, link, rank);
    }
    if !Leads(g, link.node, n) {
      var rank :| Ranked(g, rank);
      var rank' := (m: NodeRef) => rank(m) + if Leads(g, m, n) then rank(link.node) + 1 else 0;
      forall m, i: nat
        ensures Falls(g', rank', m, i)
      {
        if m in g && i < |g[m].links| {
          assert Falls(g, rank, m, i);
          if Leads(g, g[m].links[i].node, n) {
            LeadsOn(g, m, i, n);
          }
        } else if m == n && i == |g[n].links| {
          assert IsPath(g, n, []) && EndOf(g, n, []) == n;
        }
      }
      assert Ranked(g', rank');
    }
  }

  /** Does some path lead from `n` down to `m`? */
  function LeadsTo(g: Graph, n: NodeRef, m: NodeRef, ghost rank: NodeRef -> nat): (leads: bool)
    requires Ranked(g, rank)
    ensures leads <==> Leads(g, n, m)
    decreases rank(n)
  {
    LeadsIff(g, n, m);
    n == m ||
    (n in g &&
     exists i :: 0 <= i < |g[n].links| && (assert Falls(g, rank, n, i); LeadsTo(g, g[n].links[i].node, m, rank)))
  }

  lemma LeadsIff(g: Graph, n: NodeRef, m: NodeRef)
    ensures Leads(g, n, m) <==>
            n == m || (n in g && exists i :: 0 <= i < |g[n].links| && Leads(g, g[n].links[i].node, m))
  {
    if n == m {
      assert IsPath(g, n, []) && EndOf(g, n, []) == m;
    } else if path :| IsPath(g, n, path) && EndOf(g, n, path) == m {
      PathUncons(g, n, path);
      assert [path[0]] + path[1..] == path;
      PathCons(g, n, path[0], path[1..]);
      assert Leads(g, g[n].links[path[0]].node, m);
    }
    if n in g && exists i :: 0 <= i < |g[n].links| && Leads(g, g[n].links[i].node, m) {
      var i :| 0 <= i < |g[n].links| && Leads(g, g[n].links[i].node, m);
      LeadsOn(g, n, i, m);
    }
  }

  // ---- Merges that only append ----

  /** Another link at `n` opens no new way to `n`. */
  lemma LeadsAsBefore(g: Graph, n: NodeRef, link: Link, m: NodeRef)
    requires n in g && link.node in g
    ensures Leads(g[n := WithLink(g, n, link)], m, n) <==> Leads(g, m, n)
  {
    var g' := g[n := WithLink(g, n, link)];
    if path :| IsPath(g', m, path) && EndOf(g', m, path) == n {
      FirstArrival(g, n, link, m, path);
    }
    if path :| IsPath(g, m, path) && EndOf(g, m, path) == n {
      PathStays(g, n, link, m, path);
    }
  }

  lemma {:induction false} FirstArrival(g: Graph, n: NodeRef, link: Link, m: NodeRef, path: Path)
    requires n in g && link.node in g && IsPath(g[n := WithLink(g, n, link)], m, path)
    ensures Leads(g, m, n) || (IsPath(g, m, path) && EndOf(g, m, path) == EndOf(g[n := WithLink(g, n, link)], m, path))
    decreases |path|
  {
    if path != [] {
      FirstArrival(g, n, link, m, path[..|path| - 1]);
    }
  }

  lemma {:induction false} PathStays(g: Graph, n: NodeRef, link: Link, m: NodeRef, path: Path)
    requires n in g && link.node in g && IsPath(g, m, path)
    ensures IsPath(g[n := WithLink(g, n, link)], m, path)
    ensures EndOf(g[n := WithLink(g, n, link)], m, path) == EndOf(g, m, path)
    decreases |path|
  {
    if path != [] {
      PathStays(g, n, link, m, path[..|path| - 1]);
    }
  }

  ghost predicate NodesIn(g: Graph, links: seq<Link>) {
    forall k :: 0 <= k < |links| ==> links[k].node in g
  }

  /** The node at `n` with more links appended, as long as there is room. */
  function Appended(g: Graph, n: NodeRef, links: seq<Link>): (g': Graph)
    requires n in g && forall k :: 0 <= k < |links| ==> links[k].node in g
    ensures g'.Keys == g.Keys
  {
    if links == [] then g
    else
      var h, link := Appended(g, n, links[..|links| - 1]), links[|links| - 1];
      if link.node == n || |h[n].links| >= MAX_LINK_COUNT then h else h[n := WithLink(h, n, link)]
  }

  /** The `j`th link is appended, and its node already leads back. */
  ghost predicate ClosesAt(g: Graph, n: NodeRef, links: seq<Link>, j: nat) {
    && n in g && NodesIn(g, links) && j < |links| && links[j].node != n
    && |Appended(g, n, links[..j])[n].links| < MAX_LINK_COUNT
    && Leads(g, links[j].node, n)
  }

  lemma AppendedStep(g: Graph, n: NodeRef, links: seq<Link>, j: nat)
    requires n in g && NodesIn(g, links) && j < |links|
    ensures Appended(g, n, links[..j + 1]) ==
            (var h := Appended(g, n, links[..j]);
             if links[j].node == n || |h[n].links| >= MAX_LINK_COUNT then h else h[n := WithLink(h, n, links[j])])
  {
    assert links[..j + 1][..j] == links[..j];
  }

  lemma {:induction false} LeadsInAppended(g: Graph, n: NodeRef, links: seq<Link>, m: NodeRef)
    requires n in g && NodesIn(g, links)
    ensures Leads(Appended(g, n, links), m, n) <==> Leads(g, m, n)
    decreases |links|
  {
    if links != [] {
      var init, link := links[..|links| - 1], links[|links| - 1];
      LeadsInAppended(g, n, init, m);
      LeadsAsBefore(Appended(g, n, init), n, link, m);
    }
  }

  /** Appending links closes a circle exactly if one that there is room for leads back. */
  lemma {:induction false} AppendingClosesCircleIff(g: Graph, n: NodeRef, links: seq<Link>)
    requires Acyclic(g) && n in g && NodesIn(g, links)
    ensures Acyclic(Appended(g, n, links))
            <==> forall j: nat {:trigger ClosesAt(g, n, links, j)} :: !ClosesAt(g, n, links, j)
    decreases |links|
  {
    if links != [] {
      var last := |links| - 1;
      var init, link := links[..last], links[last];
      var h := Appended(g, n, init);
      AppendingClosesCircleIff(g, n, init);
      LeadsInAppended(g, n, init, link.node);
      forall j: nat
        ensures ClosesAt(g, n, links, j) <==> ClosesAt(g, n, init, j) || (j == last && ClosesAt(g, n, links, last))
      {
        assert j <= last ==> links[..j] == init[..j];
      }
      if Acyclic(h) {
        if link.node != n && |h[n].links| < MAX_LINK_COUNT {
          LinkClosesCircleIff(h, n, link);
          assert ClosesAt(g, n, links, last) <==> Leads(h, link.node, n);
        }
      } else if rank :| Ranked(Appended(g, n, links), rank) {
        LinksStay(h, n, link, rank);
      }
    }
  }

  lemma LinksStay(g: Graph, n: NodeRef, link: Link, rank: NodeRef -> nat)
    requires n in g && link.node in g && (Ranked(g, rank) || Ranked(g[n := WithLink(g, n, link)], rank))
    ensures Acyclic(g)
  {
    forall m, i: nat
      ensures Falls(g, rank, m, i)
    {
      assert Ranked(g, rank) ==> Falls(g, rank, m, i);
      assert Ranked(g[n := WithLink(g, n, link)], rank) ==> Falls(g[n := WithLink(g, n, link)], rank, m, i);
    }
    assert Ranked(g, rank);
  }

  /** No link of one node is equivalent to one of the other, nor two of the other's to each other. */
  ghost predicate NoneAlike(g: Graph, into: NodeRef, from: NodeRef) {
    && into in g && from in g
    && (forall i, j :: 0 <= i < |g[into].links| && 0 <= j < |g[from].links| ==>
          !IsEquivalent(g[into].links[i].subtree, g[from].links[j].subtree))
    && forall i, j :: 0 <= i < j < |g[from].links| ==>
         !IsEquivalent(g[from].links[i].subtree, g[from].links[j].subtree)
  }

  lemma {:induction false} AppendedLinks(g: Graph, n: NodeRef, links: seq<Link>, i: nat)
    requires n in g && NodesIn(g, links)
    requires i < |Appended(g, n, links)[n].links|
    ensures Appended(g, n, links)[n].links[i] in g[n].links || Appended(g, n, links)[n].links[i] in links
    decreases |links|
  {
    if links != [] {
      var init := links[..|links| - 1];
      var h := Appended(g, n, init);
      if i < |h[n].links| {
        AppendedLinks(g, n, init, i);
        assert h[n].links[i] in init ==> h[n].links[i] in links;
      }
    }
  }

  lemma {:induction false} AppendedElsewhere(g: Graph, n: NodeRef, links: seq<Link>, m: NodeRef)
    requires n in g && NodesIn(g, links) && m in g && m != n
    ensures Appended(g, n, links)[m] == g[m]
    decreases |links|
  {
    if links != [] {
      AppendedElsewhere(g, n, links[..|links| - 1], m);
    }
  }

  /** A merge that only appends has come to link `j`, and none before it closes a circle. */
  ghost predicate AppendingFrom(g0: Graph, g: Graph, into: NodeRef, links: seq<Link>, j: nat) {
    && into in g0 && NodesIn(g0, links) && j <= |links| && g == Appended(g0, into, links[..j])
    && forall k: nat {:trigger ClosesAt(g0, into, links, k)} :: k < j ==> !ClosesAt(g0, into, links, k)
  }

  ghost predicate Closes(g: Graph, into: NodeRef, links: seq<Link>) {
    exists j: nat :: ClosesAt(g, into, links, j)
  }

  /** Nothing absorbs the next link: it is appended if there is room, and may close a circle. */
  lemma AppendingStep(g0: Graph, g: Graph, into: NodeRef, from: NodeRef, j: nat, g': Graph, at: nat)
    requires NoneAlike(g0, into, from) && AppendingFrom(g0, g, into, g0[from].links, j) && j < |g0[from].links|
    requires into in g && |g[into].links| <= MAX_LINK_COUNT
    requires var link := g0[from].links[j];
             && (link.node == into ==> g' == g)
             && (link.node != into ==>
                   && FirstAbsorbs(g, into, link, at)
                   && (at == |g[into].links| ==>
                         g' == if at == MAX_LINK_COUNT then g else g[into := WithLink(g, into, link)]))
    ensures from in g && g[from] == g0[from]
    ensures var links := g0[from].links;
            && g' == Appended(g0, into, links[..j + 1]) && into in g
            && (links[j].node != into ==> at == |g[into].links|)
            && (ClosesAt(g0, into, links, j) <==>
                  links[j].node != into && at < MAX_LINK_COUNT && Leads(g, links[j].node, into))
  {
    var links := g0[from].links;
    var link := links[j];
    assert IsEquivalent(g0[from].links[j].subtree, link.subtree) && into != from;
    AppendedElsewhere(g0, into, links[..j], from);
    AppendedStep(g0, into, links, j);
    LeadsInAppended(g0, into, links[..j], link.node);
    if link.node != into && at < |g[into].links| {
      assert AbsorbsAt(g, into, link, at);
      AppendedLinks(g0, into, links[..j], at);
    }
  }

  ghost predicate MergingAt(g0: Graph, g: Graph, into: NodeRef, from: NodeRef, j: nat, edges: set<Edge>) {
    && GraphOk(g) && Within(g, edges) && Grown(g0, g)
    && into in g0 && from in g0 && into in g && from in g && KeyOf(g, into) == KeyOf(g, from)
    && j <= |g[from].links|
    && (forall k :: 0 <= k < j && k < |g0[from].links| ==> Kept(g0, g, into, g0[from].links[k]))
    && (NoneAlike(g0, into, from) ==> g[from] == g0[from] && AppendingFrom(g0, g, into, g0[from].links, j))
  }

  /** `into` has taken over the first `j` links of `from`. */
  ghost predicate Merging(g0: Graph, g: Graph, into: NodeRef, from: NodeRef, j: nat, edges: set<Edge>) {
    exists k: nat :: MergingAt(g0, g, into, from, k, edges) && k == j
  }

  lemma MergingStarts(g: Graph, into: NodeRef, from: NodeRef, edges: set<Edge>)
    requires GraphOk(g) && Within(g, edges) && into in g && from in g && KeyOf(g, into) == KeyOf(g, from)
    ensures Merging(g, g, into, from, 0, edges)
  {
    GrownItself(g);
    var links := g[from].links;
    assert NodeOk(g, from) && links[..0] == [];
    assert forall k :: 0 <= k < |links| ==> LinkFits(g, from, links[k]);
    assert MergingAt(g, g, into, from, 0, edges);
  }

  /** What adding the next link asks for. */
  lemma NextToMerge(g0: Graph, g: Graph, into: NodeRef, from: NodeRef, j: nat, edges: set<Edge>)
    requires Merging(g0, g, into, from, j, edges)
    ensures GraphOk(g) && Within(g, edges) && Grown(g0, g) && into in g && from in g && FreeSlots(g) <= FreeSlots(g0)
    ensures j <= |g[from].links| <= MAX_LINK_COUNT
    ensures j < |g[from].links| ==> LinkBelongs(g, edges, into, g[from].links[j])
  {
    assert NodeOk(g, from);
    GrownSlots(g0, g);
    if j < |g[from].links| {
      LinkMoves(g, edges, from, j, into);
    }
  }

  /** What is known once the next link has been added, or has closed a circle. */
  lemma LinkMerged(g0: Graph, g: Graph, into: NodeRef, from: NodeRef, j: nat, edges: set<Edge>, g': Graph, at: nat,
                   closed: bool)
    requires Merging(g0, g, into, from, j, edges) && into in g && from in g && j < |g[from].links|
    requires GraphOk(g') && Within(g', edges) && Grown(g, g') && (closed <==> !Acyclic(g'))
    requires !closed ==> Kept(g, g', into, g[from].links[j])
    requires var link := g[from].links[j];
             && link.node in g && (link.node == into ==> g' == g)
             && (link.node != into ==>
                   && FirstAbsorbs(g, into, link, at)
                   && (at == |g[into].links| ==>
                         && (closed <==> at < MAX_LINK_COUNT && Leads(g, link.node, into))
                         && g' == if at == MAX_LINK_COUNT then g else g[into := WithLink(g, into, link)]))
    requires Acyclic(g)
    ensures Grown(g0, g') && FreeSlots(g') <= FreeSlots(g)
    ensures !closed ==> Merging(g0, g', into, from, j + 1, edges)
    ensures from in g0
    ensures closed && NoneAlike(g0, into, from) ==> Closes(g0, into, g0[from].links)
  {
    GrownTransitive(g0, g, g');
    GrownSlots(g, g');
    assert NodeGrown(g, g', from) && NodeGrown(g, g', into) && NodeGrown(g0, g, from) && NodeOk(g, into);
    if NoneAlike(g0, into, from) {
      AppendingStep(g0, g, into, from, j, g', at);
      assert closed ==> ClosesAt(g0, into, g0[from].links, j);
    }
    if !closed {
      MergeAdvances(g0, g, g', into, from, j);
      assert MergingAt(g0, g', into, from, j + 1, edges);
    }
  }

  /** All links have been added. */
  lemma AllMerged(g0: Graph, g: Graph, into: NodeRef, from: NodeRef, edges: set<Edge>)
    requires from in g && Merging(g0, g, into, from, |g[from].links|, edges)
    ensures from in g0 && forall k :: 0 <= k < |g0[from].links| ==> Kept(g0, g, into, g0[from].links[k])
    ensures NoneAlike(g0, into, from) ==>
              AppendingFrom(g0, g, into, g0[from].links, |g0[from].links|) && !Closes(g0, into, g0[from].links)
  {
    assert NodeGrown(g0, g, from);
  }

  // ---- What keeps circles out ----

  /** A node may point to `m` if its key is `key`: either it is `m` itself, or it ranks above. */
  ghost predicate Below(g: Graph, rank: NodeRef -> nat, key: Key, m: NodeRef) {
    forall a :: a in g && KeyOf(g, a) == key ==> m == a || rank(m) < rank(a)
  }

  ghost predicate LayeredAt(g: Graph, rank: NodeRef -> nat, n: NodeRef, i: nat) {
    n in g && i < |g[n].links| ==> Below(g, rank, KeyOf(g, n), g[n].links[i].node)
  }

  /** Each link falls from every node with the key of the one that holds it. */
  ghost predicate Layered(g: Graph, rank: NodeRef -> nat) {
    forall n, i: nat {:trigger LayeredAt(g, rank, n, i)} :: LayeredAt(g, rank, n, i)
  }

  /** Then no merge closes a circle, because it invents no edge. */
  lemma LayeredStaysAcyclic(g: Graph, g': Graph, rank: NodeRef -> nat)
    requires Layered(g, rank) && Grown(g, g') && Within(g', EdgesOf(g))
    ensures Layered(g', rank) && Ranked(g', rank)
  {
    forall a | a in g'
      ensures a in g && KeyOf(g', a) == KeyOf(g, a)
    {
      assert NodeGrown(g, g', a);
    }
    forall n, i: nat
      ensures LayeredAt(g', rank, n, i) && Falls(g', rank, n, i)
    {
      if n in g' && i < |g'[n].links| {
        assert LinkPlaced(g', EdgesOf(g), n, i) && NodeGrown(g, g', n);
        var edge := EdgeOf(g', n, g'[n].links[i]);
        EdgesAreHad(g, edge);
        var m, k: nat :| HasEdge(g, edge, m, k);
        assert LayeredAt(g, rank, m, k);
        assert Below(g, rank, KeyOf(g, n), g'[n].links[i].node);
      }
    }
  }

  ghost predicate KeyFalls(g: Graph, order: Key -> nat, n: NodeRef, i: nat) {
    n in g && i < |g[n].links| ==>
      g[n].links[i].node in g && order(KeyOf(g, g[n].links[i].node)) < order(KeyOf(g, n))
  }

  /** An order of state, position and cost that falls along every link. */
  ghost predicate KeyRanked(g: Graph, order: Key -> nat) {
    forall n, i: nat {:trigger KeyFalls(g, order, n, i)} :: KeyFalls(g, order, n, i)
  }

  ghost function OrderAt(g: Graph, order: Key -> nat, n: NodeRef): nat {
    if n in g then order(KeyOf(g, n)) else 0
  }

  ghost function RankOf(g: Graph, order: Key -> nat): NodeRef -> nat {
    n => OrderAt(g, order, n)
  }

  lemma KeyRankedIsLayered(g: Graph, order: Key -> nat)
    requires KeyRanked(g, order)
    ensures Layered(g, RankOf(g, order))
  {
    forall n, i: nat
      ensures LayeredAt(g, RankOf(g, order), n, i)
    {
      assert KeyFalls(g, order, n, i);
    }
  }

  /** A push keeps such an order if the new node's key is higher than that of the node below. */
  lemma PushKeepsKeyRanks(g: Graph, n: NodeRef, node: StackNode, order: Key -> nat)
    requires KeyRanked(g, order) && n !in g && |node.links| == 1 && node.links[0].node in g
    requires order(KeyOf(g, node.links[0].node)) < order(KeyOf(g[n := node], n))
    ensures KeyRanked(g[n := node], order)
  {
    var g' := g[n := node];
    forall m, i: nat
      ensures KeyFalls(g', order, m, i)
    {
      assert KeyFalls(g, order, m, i);
    }
  }

  /** A merge keeps it, because it invents no edges between keys. */
  lemma EdgesKeepKeyRanks(g: Graph, g': Graph, order: Key -> nat)
    requires KeyRanked(g, order) && Within(g', EdgesOf(g))
    ensures KeyRanked(g', order)
  {
    forall n, i: nat
      ensures KeyFalls(g', order, n, i)
    {
      if n in g' && i < |g'[n].links| {
        assert LinkPlaced(g', EdgesOf(g), n, i);
        var edge := EdgeOf(g', n, g'[n].links[i]);
        EdgesAreHad(g, edge);
        var m, k: nat :| HasEdge(g, edge, m, k);
        assert KeyFalls(g, order, m, k);
      }
    }
  }

  /** All that a merge keeps, whatever the ranks or the order. */
  lemma NoCircles(g: Graph, g': Graph)
    requires Grown(g, g') && Within(g', EdgesOf(g))
    ensures forall rank :: Layered(g, rank) ==> Layered(g', rank) && Acyclic(g')
    ensures forall order :: KeyRanked(g, order) ==> KeyRanked(g', order) && Acyclic(g')
  {
    forall rank | Layered(g, rank)
      ensures Layered(g', rank) && Acyclic(g')
    {
      LayeredStaysAcyclic(g, g', rank);
    }
    forall order | KeyRanked(g, order)
      ensures KeyRanked(g', order) && Acyclic(g')
    {
      EdgesKeepKeyRanks(g, g', order);
      KeyRankedIsLayered(g, order);
      LayeredStaysAcyclic(g, g', RankOf(g, order));
    }
  }
}
