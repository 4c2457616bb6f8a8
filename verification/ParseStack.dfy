/** The graph-structured parse stack: versions that fork, merge and pop. Models stack.c. */
module ParseStack {
  import opened Lengths
  import opened Options
  import opened SyntaxTrees
  import opened StackGraph
  import opened StackMerging
  import opened StackCircles
  import opened StackPops
  import opened PopWalks

  datatype Status = Active | Paused | Halted

  datatype Head = Head(node: NodeRef, nodeCountAtLastError: nat, lastExternalToken: Option<StackTree>,
                       lookaheadWhenPaused: Option<StackTree>, status: Status)

  function ScannerState(token: Option<StackTree>): seq<char> {
    if token.Some? then token.value.scannerState else []
  }

  function Ends(heads: seq<Head>): (ends: seq<NodeRef>)
    ensures |ends| == |heads| && forall v :: 0 <= v < |heads| ==> ends[v] == heads[v].node
  {
    seq(|heads|, v requires 0 <= v < |heads| => heads[v].node)
  }

  /** A new version at `node`, forked from another. */
  function ForkedHead(head: Head, node: NodeRef): Head {
    Head(node, head.nodeCountAtLastError, head.lastExternalToken, None, Active)
  }

  /** The heads a pop started with, and behind them forks of the one that was popped. */
  ghost predicate Forks(heads0: seq<Head>, version: nat, heads: seq<Head>) {
    && version < |heads0| <= |heads| && heads[..|heads0|] == heads0
    && forall v :: |heads0| <= v < |heads| ==> heads[v] == ForkedHead(heads0[version], heads[v].node)
  }

  class ParseStack {
    var nodes: Graph
    var heads: seq<Head>
    var slices: seq<Slice>
    var iterators: seq<Iterator>
    var baseNode: NodeRef
    /** Addresses from `brk` on have never been handed out. */
    var brk: NodeRef

    ghost predicate Valid()
      reads this
    {
      && GraphOk(nodes) && Acyclic(nodes)
      && (forall n :: n in nodes ==> n < brk)
      && baseNode in nodes
      && forall v :: 0 <= v < |heads| ==> heads[v].node in nodes
    }

    constructor ()
      ensures Valid() && heads == [Head(baseNode, 0, None, None, Active)]
      ensures nodes == map[baseNode := StackNode(1, ZERO, [], 0, 0, 0)]
    {
      nodes, baseNode, brk := map[0 := StackNode(1, ZERO, [], 0, 0, 0)], 0, 1;
      heads, slices, iterators := [Head(0, 0, None, None, Active)], [], [];
      assert forall n :: NodeOk(map[0 := StackNode(1, ZERO, [], 0, 0, 0)], n);
      assert Ranked(map[0 := StackNode(1, ZERO, [], 0, 0, 0)], n => 0);
    }

    /** Puts a subtree, or an empty error step, on top of a version (ts_stack_push). */
    method Push(version: nat, subtree: Option<StackTree>, pending: bool, state: State)
      requires Valid() && version < |heads|
      modifies this
      ensures Valid() && baseNode == old(baseNode)
      ensures nodes.Keys == old(nodes.Keys) + {old(brk)} && old(brk) !in old(nodes)
      ensures forall n :: n in old(nodes) ==> nodes[n] == old(nodes)[n]
      ensures var below, node := old(nodes)[old(heads)[version].node], nodes[old(brk)];
              && node.state == state && node.links == [Link(old(heads)[version].node, subtree, pending)]
              && node.position.bytes == below.position.bytes + Span(subtree)
              && node.errorCost == below.errorCost + Cost(subtree)
              && node.nodeCount == below.nodeCount + NodeCount(subtree)
      ensures heads == old(heads)[version := old(heads)[version].(node := old(brk),
                nodeCountAtLastError := if subtree.None? then nodes[old(brk)].nodeCount
                                        else old(heads)[version].nodeCountAtLastError)]
      ensures forall order {:trigger KeyRanked(nodes, order)} :: KeyRanked(old(nodes), order) ==>
                order(KeyOf(old(nodes), old(heads)[version].node)) < order(KeyOf(nodes, old(brk))) ==>
                KeyRanked(nodes, order)
    {
      var head := heads[version];
      var previous := nodes[head.node];
      var node := StackNode(state,
                            if subtree.Some? then Add(previous.position, TotalSize(subtree.value.tree.info))
                            else previous.position,
                            [Link(head.node, subtree, pending)],
                            previous.errorCost + Cost(subtree),
                            previous.nodeCount + NodeCount(subtree),
                            previous.precedence + Precedence(subtree));
      PushKeepsGraph(nodes, brk, node);
      forall order | KeyRanked(nodes, order) &&
                     order(KeyOf(nodes, head.node)) < order(KeyOf(nodes[brk := node], brk))
        ensures KeyRanked(nodes[brk := node], order)
      {
        PushKeepsKeyRanks(nodes, brk, node, order);
      }
      nodes := nodes[brk := node];
      heads := heads[version := head.(node := brk,
        nodeCountAtLastError := if subtree.None? then node.nodeCount else head.nodeCountAtLastError)];
      brk := brk + 1;
    }

    /** Adds a link to the node at `self`, or lets an equivalent link absorb it
        (stack_node_add_link): `at` is the first link that does. One to the same node keeps the
        subtree of higher precedence; one to a node with the same key has the nodes merged. If
        that closes a circle, which the code does not check, the rest is not followed. */
    method AddLink(self: NodeRef, link: Link, ghost rank: NodeRef -> nat, ghost edges: set<Edge>)
      returns (closed: bool, ghost at: nat)
      requires GraphOk(nodes) && Within(nodes, edges) && Ranked(nodes, rank) && self in nodes
      requires LinkBelongs(nodes, edges, self, link)
      modifies this`nodes
      ensures GraphOk(nodes) && Within(nodes, edges) && Grown(old(nodes), nodes)
      ensures closed <==> !Acyclic(nodes)
      ensures !closed ==> Kept(old(nodes), nodes, self, link)
      ensures link.node == self ==> nodes == old(nodes)
      ensures link.node != self ==>
                && FirstAbsorbs(old(nodes), self, link, at)
                && var links := old(nodes)[self].links;
                && (at == |links| ==>
                      && (closed <==> at < MAX_LINK_COUNT && Leads(old(nodes), link.node, self))
                      && nodes == if at == MAX_LINK_COUNT then old(nodes)
                                  else old(nodes)[self := WithLink(old(nodes), self, link)])
                && (at < |links| && links[at].node == link.node ==>
                      nodes == if Precedence(link.subtree) > Precedence(links[at].subtree)
                               then old(nodes)[self := WithSubtree(old(nodes), self, at, link.subtree)] else old(nodes))
      decreases FreeSlots(nodes), rank(link.node), 2
    {
      GrownItself(nodes);
      at, closed := 0, false;
      if link.node == self {
        return;
      }
      var links := nodes[self].links;
      var i := 0;
      while i < |links|
        invariant i <= |links| && nodes == old(nodes)
        invariant forall j: nat {:trigger AbsorbsAt(nodes, self, link, j)} :: j < i ==> !AbsorbsAt(nodes, self, link, j)
      {
        var existing := links[i];
        assert NodeOk(nodes, self) && LinkPlaced(nodes, edges, self, i);
        if IsEquivalent(existing.subtree, link.subtree) {
          if existing.node == link.node {
            ImproveLink(self, i, link, rank, edges);
            return false, i;
          }
          var left, right := nodes[existing.node], nodes[link.node];
          if
            left.state == right.state && left.position.bytes == right.position.bytes &&
            left.errorCost == right.errorCost
          {
            closed := MergeBelow(self, i, link, rank, edges);
            return closed, i;
          }
        }
        i := i + 1;
      }
      at := i;
      assert NodeOk(nodes, self);
      if |links| == MAX_LINK_COUNT {
        return;
      }
      closed := AppendLink(self, link, rank, edges);
      AbsorbedIsKept(old(nodes), nodes, self, link, |links|);
    }

    /** Of two subtrees between the same nodes the one of higher precedence stays. */
    method ImproveLink(self: NodeRef, i: nat, link: Link, ghost rank: NodeRef -> nat, ghost edges: set<Edge>)
      requires GraphOk(nodes) && Within(nodes, edges) && Ranked(nodes, rank) && self in nodes
      requires i < |nodes[self].links| && nodes[self].links[i].node == link.node != self
      requires LinkBelongs(nodes, edges, self, link) && IsEquivalent(nodes[self].links[i].subtree, link.subtree)
      modifies this`nodes
      ensures GraphOk(nodes) && Within(nodes, edges) && Grown(old(nodes), nodes) && Ranked(nodes, rank)
      ensures Kept(old(nodes), nodes, self, link)
      ensures nodes == if Precedence(link.subtree) > Precedence(old(nodes)[self].links[i].subtree)
                       then old(nodes)[self := WithSubtree(old(nodes), self, i, link.subtree)] else old(nodes)
    {
      assert LinkPlaced(nodes, edges, self, i) && NodeOk(nodes, self);
      GrownItself(nodes);
      if Precedence(link.subtree) > Precedence(nodes[self].links[i].subtree) {
        var node := nodes[self];
        node := node.(links := node.links[i := node.links[i].(subtree := link.subtree)],
                      precedence := nodes[link.node].precedence + Precedence(link.subtree));
        forall k | 0 <= k < |node.links|
          ensures LinkBelongs(nodes, edges, self, node.links[k]) && node.links[k].node != self
        {
          assert LinkPlaced(nodes, edges, self, k);
        }
        OneNodeGrows(nodes, edges, self, node);
        SameTargets(nodes, self, node, rank);
        nodes := nodes[self := node];
      }
      AbsorbedIsKept(old(nodes), nodes, self, link, i);
    }

    /** Merges the new link's node into the node below the `i`th link. */
    method MergeBelow(self: NodeRef, i: nat, link: Link, ghost rank: NodeRef -> nat, ghost edges: set<Edge>)
      returns (closed: bool)
      requires GraphOk(nodes) && Within(nodes, edges) && Ranked(nodes, rank) && self in nodes
      requires i < |nodes[self].links| && LinkBelongs(nodes, edges, self, link) && link.node != self
      requires nodes[self].links[i].node in nodes && IsEquivalent(nodes[self].links[i].subtree, link.subtree)
      requires KeyOf(nodes, nodes[self].links[i].node) == KeyOf(nodes, link.node)
      modifies this`nodes
      ensures GraphOk(nodes) && Within(nodes, edges) && Grown(old(nodes), nodes)
      ensures closed <==> !Acyclic(nodes)
      ensures !closed ==> Kept(old(nodes), nodes, self, link)
      ensures self in nodes && link.node in nodes
      ensures !closed ==> nodes[self].precedence >= nodes[link.node].precedence + Precedence(link.subtree)
      decreases FreeSlots(nodes), rank(link.node), 1
    {
      assert NodeOk(nodes, self) && LinkFits(nodes, self, nodes[self].links[i]);
      closed := MergeLinks(nodes[self].links[i].node, link.node, rank, edges);
      assert NodeGrown(old(nodes), nodes, self) && NodeGrown(old(nodes), nodes, link.node);
      if closed {
        return;
      }
      TakenOver(old(nodes), nodes, self, link, i);
      var precedence := nodes[link.node].precedence + Precedence(link.subtree);
      if precedence > nodes[self].precedence {
        SetPrecedence(old(nodes), self, precedence, link, edges);
      }
    }

    /** Adds every link of `from` to `into`. Where none is equivalent to another, a circle is closed
        exactly if the node of a link that there is room for leads back. */
    method MergeLinks(into: NodeRef, from: NodeRef, ghost rank: NodeRef -> nat, ghost edges: set<Edge>)
      returns (closed: bool)
      requires GraphOk(nodes) && Within(nodes, edges) && Ranked(nodes, rank) && into in nodes && from in nodes
      requires KeyOf(nodes, into) == KeyOf(nodes, from)
      modifies this`nodes
      ensures GraphOk(nodes) && Within(nodes, edges) && Grown(old(nodes), nodes)
      ensures closed <==> !Acyclic(nodes)
      ensures !closed ==> forall j :: 0 <= j < |old(nodes)[from].links| ==>
                Kept(old(nodes), nodes, into, old(nodes)[from].links[j])
      ensures NoneAlike(old(nodes), into, from) ==>
                (closed <==> Closes(old(nodes), into, old(nodes)[from].links))
      ensures NoneAlike(old(nodes), into, from) && !closed ==>
                AppendingFrom(old(nodes), nodes, into, old(nodes)[from].links, |old(nodes)[from].links|)
      decreases FreeSlots(nodes), rank(from), 0
    {
      ghost var g0, r := nodes, rank;
      MergingStarts(nodes, into, from, edges);
      closed := false;
      var j := 0;
      while j < |nodes[from].links|
        invariant into in nodes && from in nodes && Merging(g0, nodes, into, from, j, edges)
        invariant Ranked(nodes, r) && (FreeSlots(nodes) == FreeSlots(g0) ==> r == rank)
        decreases MAX_LINK_COUNT - j
      {
        ghost var g := nodes;
        NextToMerge(g0, nodes, into, from, j, edges);
        assert Falls(nodes, r, from, j);
        ghost var at;
        closed, at := AddLink(into, nodes[from].links[j], r, edges);
        LinkMerged(g0, g, into, from, j, edges, nodes, at, closed);
        if closed {
          return;
        }
        r := RanksAfter(g, nodes, r);
        j := j + 1;
        NextToMerge(g0, nodes, into, from, j, edges);
      }
      NextToMerge(g0, nodes, into, from, j, edges);
      AllMerged(g0, nodes, into, from, edges);
    }

    method AppendLink(self: NodeRef, link: Link, ghost rank: NodeRef -> nat, ghost edges: set<Edge>)
      returns (closed: bool)
      requires GraphOk(nodes) && Within(nodes, edges) && Ranked(nodes, rank) && self in nodes
      requires LinkBelongs(nodes, edges, self, link) && link.node != self && |nodes[self].links| < MAX_LINK_COUNT
      modifies this`nodes
      ensures GraphOk(nodes) && Within(nodes, edges) && Grown(old(nodes), nodes) && self in nodes
      ensures closed <==> Leads(old(nodes), link.node, self)
      ensures closed <==> !Acyclic(nodes)
      ensures nodes == old(nodes)[self := WithLink(old(nodes), self, link)]
    {
      closed := LeadsTo(nodes, link.node, self, rank);
      LinkClosesCircleIff(nodes, self, link);
      var node, previous := nodes[self], nodes[link.node];
      var nodeCount, precedence := previous.nodeCount + NodeCount(link.subtree),
          previous.precedence + Precedence(link.subtree);
      node := node.(links := node.links + [link],
                    nodeCount := if nodeCount > node.nodeCount then nodeCount else node.nodeCount,
                    precedence := if precedence > node.precedence then precedence else node.precedence);
      forall k | 0 <= k < |node.links|
        ensures LinkBelongs(nodes, edges, self, node.links[k]) && node.links[k].node != self
      {
        assert LinkPlaced(nodes, edges, self, k);
      }
      OneNodeGrows(nodes, edges, self, node);
      nodes := nodes[self := node];
    }

    method SetPrecedence(ghost g0: Graph, self: NodeRef, precedence: int, ghost link: Link, ghost edges: set<Edge>)
      requires GraphOk(nodes) && Within(nodes, edges) && Acyclic(nodes) && self in nodes
      requires Grown(g0, nodes) && Kept(g0, nodes, self, link)
      modifies this`nodes
      ensures GraphOk(nodes) && Within(nodes, edges) && Acyclic(nodes) && Grown(g0, nodes)
      ensures Kept(g0, nodes, self, link)
      ensures self in old(nodes) && nodes == old(nodes)[self := old(nodes)[self].(precedence := precedence)]
    {
      ghost var g := nodes;
      var node := nodes[self].(precedence := precedence);
      assert NodeOk(nodes, self);
      forall k | 0 <= k < |node.links|
        ensures LinkBelongs(nodes, edges, self, node.links[k]) && node.links[k].node != self
      {
        assert LinkPlaced(nodes, edges, self, k);
      }
      OneNodeGrows(nodes, edges, self, node);
      ghost var rank: NodeRef -> nat :| Ranked(nodes, rank);
      SameTargets(nodes, self, node, rank);
      nodes := nodes[self := node];
      GrownTransitive(g0, g, nodes);
      StillKept(g0, g, nodes, self, link);
    }

    // ---- Popping ----

    /** Files a popped run of subtrees under the version at `node`, making one if this pop has
        none there yet (ts_stack__add_slice). */
    method AddSlice(original: nat, node: NodeRef, subtrees: seq<StackTree>, ghost first: nat)
      returns (ghost version: nat, ghost pos: nat)
      requires original < first <= |heads|
      requires forall i :: 0 <= i < |slices| ==> first <= slices[i].version < |heads|
      modifies this`heads, this`slices
      ensures SlicePlaced(Ends(old(heads)), old(slices), node, Ends(heads), version, pos) && first <= version
      ensures slices == Inserted(old(slices), pos, Slice(subtrees, version))
      ensures heads == old(heads) || heads == old(heads) + [ForkedHead(old(heads)[original], node)]
    {
      var i := |slices|;
      while i > 0
        invariant slices == old(slices) && heads == old(heads) && 0 <= i <= |slices|
        invariant forall k :: 0 <= k < |slices| ==> first <= slices[k].version < |heads|
        invariant forall k :: i <= k < |slices| ==> heads[slices[k].version].node != node
      {
        version := slices[i - 1].version;
        if heads[slices[i - 1].version].node == node {
          pos := i;
          slices := slices[..i] + [Slice(subtrees, slices[i - 1].version)] + slices[i..];
          assert slices == Inserted(old(slices), pos, Slice(subtrees, version));
          return;
        }
        i := i - 1;
      }
      version, pos := |heads|, |slices|;
      heads := heads + [ForkedHead(heads[original], node)];
      slices := slices + [Slice(subtrees, |heads| - 1)];
      assert Ends(heads) == Ends(old(heads)) + [node];
      assert slices == Inserted(old(slices), pos, Slice(subtrees, version));
    }

    /** Moves the iterator at `i` on along every link of its node, the first link last. */
    method AdvanceIterator(i: nat) returns (ghost m: nat)
      requires i < |iterators| && iterators[i].node in nodes && nodes[iterators[i].node].links != []
      modifies this`iterators
      ensures m == Room(|old(iterators)|, |nodes[old(iterators)[i].node].links| - 1)
      ensures iterators == AdvancedIterators(old(iterators), i, nodes[old(iterators)[i].node].links, m)
    {
      var links := nodes[iterators[i].node].links;
      ghost var its, current := iterators, iterators[i];
      m := 0;
      var j := 1;
      while j < |links|
        invariant 1 <= j <= |links| && m == Room(|its|, j - 1)
        invariant iterators == its + Followers(current, links, m)
      {
        if |iterators| < MAX_ITERATOR_COUNT {
          iterators := iterators + [Follow(iterators[i], links[j])];
          m := m + 1;
          assert its + (Followers(current, links, m - 1) + [Follow(current, links[m])]) == iterators;
        }
        j := j + 1;
      }
      iterators := iterators[i := Follow(iterators[i], links[0])];
    }

    /** An iterator that meets the goal leaves its slice behind. */
    method PopIterator(version: nat, goal: Goal, i: nat, ghost n: NodeRef, ghost heads0: seq<Head>, ghost w: Walk,
                       ghost found: seq<Path>)
      returns (ghost found': seq<Path>)
      requires GraphOk(nodes) && n in nodes && i < |iterators| && Forks(heads0, version, heads)
      requires Popping(goal, nodes, n, iterators, w.paths, w.skipped, Ends(heads), |heads0|, slices, found)
      modifies this`heads, this`slices
      ensures Forks(heads0, version, heads)
      ensures if Pops(goal, nodes, iterators[i])
              then Popping(goal, nodes, n, Erased(iterators, i), Erased(w.paths, i), w.skipped, Ends(heads), |heads0|,
                           slices, found')
              else heads == old(heads) && slices == old(slices) && found' == found
    {
      found' := found;
      var it := iterators[i];
      if Pops(goal, nodes, it) {
        NewEndsStored(goal, nodes, n, Ends(heads), |heads0|, slices, found);
        ghost var ends, before := Ends(heads), slices;
        ghost var v, pos := AddSlice(version, it.node, Reversed(it.subtrees), |heads0|);
        found' := Inserted(found, pos, w.paths[i]);
        SliceFound(goal, nodes, n, iterators, w.paths, w.skipped, ends, |heads0|, before, found, i, Ends(heads), v,
                   pos);
      }
    }

    /** An iterator that has to stop is taken away. */
    method StopIterator(version: nat, goal: Goal, i: nat, ghost n: NodeRef, ghost heads0: seq<Head>, ghost w: Walk,
                        ghost found: seq<Path>)
      returns (ghost found': seq<Path>)
      requires GraphOk(nodes) && n in nodes && i < |iterators| && Forks(heads0, version, heads)
      requires Popping(goal, nodes, n, iterators, w.paths, w.skipped, Ends(heads), |heads0|, slices, found)
      requires Stops(goal, nodes, iterators[i])
      modifies this`heads, this`slices, this`iterators
      ensures Forks(heads0, version, heads)
      ensures Popping(goal, nodes, n, iterators, Erased(w.paths, i), w.skipped, Ends(heads), |heads0|, slices, found')
    {
      found' := PopIterator(version, goal, i, n, heads0, w, found);
      if !Pops(goal, nodes, iterators[i]) {
        IteratorStops(goal, nodes, n, iterators, w.paths, w.skipped, Ends(heads), |heads0|, slices, found, i);
      }
      iterators := Erased(iterators, i);
    }

    /** An iterator that need not stop moves on along the links there is room for. */
    method MoveIterator(goal: Goal, i: nat, ghost n: NodeRef, ghost first: nat, ghost w: Walk, ghost found: seq<Path>)
      returns (ghost m: nat)
      requires GraphOk(nodes) && n in nodes && i < |iterators| && iterators[i].node in nodes
      requires Popping(goal, nodes, n, iterators, w.paths, w.skipped, Ends(heads), first, slices, found)
      requires !Stops(goal, nodes, iterators[i])
      modifies this`iterators
      ensures var last := |nodes[old(iterators)[i].node].links| - 1;
              && m == Room(|w.paths|, last)
              && Popping(goal, nodes, n, iterators, Advanced(w.paths, i, m), w.skipped + Skips(w.paths[i], m, last),
                         Ends(heads), first, slices, found)
    {
      ghost var its := iterators;
      m := AdvanceIterator(i);
      IteratorAdvances(goal, nodes, n, its, w.paths, w.skipped, Ends(heads), first, slices, found, i, m);
    }

    /** One turn of the inner loop: the iterator at `i` pops, stops, or moves on. */
    method IterateOne(version: nat, goal: Goal, i: nat, ghost n: NodeRef, ghost heads0: seq<Head>, ghost w: Walk,
                      ghost found: seq<Path>)
      returns (erased: bool, ghost w': Walk, ghost found': seq<Path>, ghost m: nat)
      requires GraphOk(nodes) && n in nodes && Forks(heads0, version, heads)
      requires Popping(goal, nodes, n, iterators, w.paths, w.skipped, Ends(heads), |heads0|, slices, found)
      requires w.i == i < w.size <= |w.paths|
      modifies this`heads, this`slices, this`iterators
      ensures Forks(heads0, version, heads)
      ensures w' == WalkStep(true, goal, nodes, n, w)
      ensures Popping(goal, nodes, n, iterators, w'.paths, w'.skipped, Ends(heads), |heads0|, slices, found')
      ensures if erased then w'.paths == Erased(w.paths, i) && w'.i == i && w'.size == w.size - 1
              else w'.paths == Advanced(w.paths, i, m) && w'.i == i + 1 && w'.size == w.size
    {
      var it := iterators[i];
      assert IsAt(goal, nodes, n, it, w.paths[i]);
      PathsAgree(nodes, n, w.paths[i]);
      found', m := found, 0;
      erased := Stops(goal, nodes, it);
      if erased {
        StepErases(goal, nodes, n, it, w);
        found' := StopIterator(version, goal, i, n, heads0, w, found);
        w' := w.(paths := Erased(w.paths, i), size := w.size - 1);
      } else {
        m := MoveIterator(goal, i, n, |heads0|, w, found);
        StepAdvances(goal, nodes, n, it, w, m);
        w' := Walk(Advanced(w.paths, i, m), i + 1, w.size,
                   w.skipped + Skips(w.paths[i], m, |nodes[it.node].links| - 1));
      }
    }

    /** Follows all ways down from a version until each has met the goal or ended
        (stack__iter). `found` names the paths the slices were popped along. */
    method Iterate(version: nat, goal: Goal) returns (ghost found: seq<Path>)
      requires Valid() && version < |heads|
      modifies this`heads, this`slices, this`iterators
      ensures Valid() && Forks(old(heads), version, heads)
      ensures Popped(goal, nodes, heads[version].node, Ends(heads), |old(heads)|, slices, found)
    {
      ghost var heads0, n := heads, heads[version].node;
      ghost var rank: NodeRef -> nat :| Ranked(nodes, rank);
      slices, iterators := [], [Iterator(heads[version].node, [], 0, true)];
      ghost var w := START;
      found := [];
      PoppingStarts(goal, nodes, n, Ends(heads));
      CourseStarts(true, goal, nodes, n);
      ghost var pass: nat := 0;
      while |iterators| > 0
        invariant Forks(heads0, version, heads) && n in nodes
        invariant Popping(goal, nodes, n, iterators, w.paths, w.skipped, Ends(heads), |heads0|, slices, found)
        invariant OnCourse(true, goal, nodes, n, w) && w.i == 0 && w.size == |w.paths|
        invariant InPass(w.paths, 0, |w.paths|, pass) && (iterators != [] ==> pass <= rank(n))
        decreases rank(n) + 1 - pass, |iterators|
      {
        w, found := IteratePass(version, goal, n, heads0, w, found, pass);
        pass := pass + 1;
        if iterators != [] {
          PassIsBounded(goal, nodes, rank, n, iterators, w.paths, pass);
        }
      }
      PoppingDone(goal, nodes, n, w, Ends(heads), |heads0|, slices, found);
      NewEndsStored(goal, nodes, n, Ends(heads), |heads0|, slices, found);
    }

    /** Moves every iterator there is at the start by one link. */
    method IteratePass(version: nat, goal: Goal, ghost n: NodeRef, ghost heads0: seq<Head>, ghost w: Walk,
                       ghost found: seq<Path>, ghost pass: nat)
      returns (ghost w': Walk, ghost found': seq<Path>)
      requires GraphOk(nodes) && n in nodes && Forks(heads0, version, heads)
      requires Popping(goal, nodes, n, iterators, w.paths, w.skipped, Ends(heads), |heads0|, slices, found)
      requires OnCourse(true, goal, nodes, n, w) && w.i == 0 && w.size == |w.paths|
      requires InPass(w.paths, 0, |w.paths|, pass)
      modifies this`heads, this`slices, this`iterators
      ensures Forks(heads0, version, heads)
      ensures Popping(goal, nodes, n, iterators, w'.paths, w'.skipped, Ends(heads), |heads0|, slices, found')
      ensures OnCourse(true, goal, nodes, n, w') && w'.i == 0 && w'.size == |w'.paths|
      ensures InPass(w'.paths, 0, |w'.paths|, pass + 1)
    {
      w', found' := w, found;
      var i, size := 0, |iterators|;
      while i < size
        invariant Forks(heads0, version, heads)
        invariant Popping(goal, nodes, n, iterators, w'.paths, w'.skipped, Ends(heads), |heads0|, slices, found')
        invariant OnCourse(true, goal, nodes, n, w') && w'.i == i <= size == w'.size && InPass(w'.paths, i, size, pass)
        decreases size - i
      {
        ghost var before := w';
        var erased;
        ghost var m;
        erased, w', found', m := IterateOne(version, goal, i, n, heads0, w', found');
        CourseSteps(true, goal, nodes, n, before);
        if erased {
          PassErases(before.paths, i, size, pass);
          size := size - 1;
        } else {
          PassAdvances(before.paths, i, size, pass, m);
          i := i + 1;
        }
      }
      CourseSteps(true, goal, nodes, n, w');
      w' := WalkStep(true, goal, nodes, n, w');
    }

    /** Pops `count` subtrees, extras between them not counted, along every path there is
        (ts_stack_pop_count). */
    method PopCount(version: nat, count: nat) returns (ghost found: seq<Path>)
      requires Valid() && version < |heads|
      modifies this`heads, this`slices, this`iterators
      ensures Valid() && Forks(old(heads), version, heads)
      ensures Popped(Count(count), nodes, heads[version].node, Ends(heads), |old(heads)|, slices, found)
    {
      found := Iterate(version, Count(count));
    }

    /** Pops everything (ts_stack_pop_all). */
    method PopAll(version: nat) returns (ghost found: seq<Path>)
      requires Valid() && version < |heads|
      modifies this`heads, this`slices, this`iterators
      ensures Valid() && Forks(old(heads), version, heads)
      ensures Popped(Bottom, nodes, heads[version].node, Ends(heads), |old(heads)|, slices, found)
    {
      found := Iterate(version, Bottom);
    }

    // ---- Versions ----

    predicate CanMerge(version1: nat, version2: nat)
      requires version1 < |heads| && version2 < |heads|
      requires heads[version1].node in nodes && heads[version2].node in nodes
      reads this
    {
      var head1, head2 := heads[version1], heads[version2];
      && head1.status == Active && head2.status == Active
      && nodes[head1.node].state == nodes[head2.node].state
      && nodes[head1.node].position.bytes == nodes[head2.node].position.bytes
      && nodes[head1.node].errorCost == nodes[head2.node].errorCost
      && ScannerState(head1.lastExternalToken) == ScannerState(head2.lastExternalToken)
    }

    /** Merges the second version into the first, if they agree on their keys and on the state of
        the external scanner (ts_stack_merge). If a circle is closed the merge is not followed any
        further, since nothing bounds what the code then does. */
    method Merge(version1: nat, version2: nat) returns (merged: bool, closed: bool)
      requires Valid() && version1 < |heads| && version2 < |heads|
      modifies this`nodes, this`heads
      ensures merged == old(CanMerge(version1, version2))
      ensures !merged ==> nodes == old(nodes) && heads == old(heads) && !closed
      ensures GraphOk(nodes) && Grown(old(nodes), nodes) && Within(nodes, EdgesOf(old(nodes)))
      ensures closed <==> !Acyclic(nodes)
      ensures closed ==> heads == old(heads)
      ensures !closed ==> Valid()
      ensures var into, from := old(heads)[version1].node, old(heads)[version2].node;
              && (merged && NoneAlike(old(nodes), into, from) ==>
                    (closed <==> Closes(old(nodes), into, old(nodes)[from].links)))
              && (merged && !closed ==> forall j :: 0 <= j < |old(nodes)[from].links| ==>
                    Kept(old(nodes), nodes, into, old(nodes)[from].links[j]))
      ensures forall rank :: Layered(old(nodes), rank) ==> Layered(nodes, rank) && !closed
      ensures forall order :: KeyRanked(old(nodes), order) ==> KeyRanked(nodes, order) && !closed
      ensures merged && !closed ==>
                var head := old(heads)[version1];
                && head.node in nodes
                && heads == Erased(old(heads)[version1 := head.(nodeCountAtLastError :=
                     if nodes[head.node].state == ERROR_STATE then nodes[head.node].nodeCount
                     else head.nodeCountAtLastError)], version2)
    {
      GrownItself(nodes);
      AcyclicIsWithin(nodes);
      merged, closed := CanMerge(version1, version2), false;
      if !merged {
        return;
      }
      ghost var rank: NodeRef -> nat :| Ranked(nodes, rank);
      var head1, head2 := heads[version1], heads[version2];
      closed := MergeLinks(head1.node, head2.node, rank, EdgesOf(nodes));
      NoCircles(old(nodes), nodes);
      if closed {
        return;
      }
      assert NodeGrown(old(nodes), nodes, head1.node);
      if nodes[head1.node].state == ERROR_STATE {
        head1 := head1.(nodeCountAtLastError := nodes[head1.node].nodeCount);
      }
      heads := heads[version1 := head1];
      GrownKeys(old(nodes), nodes);
      RemoveVersion(version2);
    }

    method RemoveVersion(version: nat)
      requires Valid() && version < |heads|
      modifies this`heads
      ensures Valid() && heads == Erased(old(heads), version)
    {
      heads := Erased(heads, version);
    }

    /** Version `v1` takes the place of `v2` (ts_stack_renumber_version). */
    method RenumberVersion(v1: nat, v2: nat)
      requires Valid() && v1 < |heads| && v2 <= v1
      modifies this`heads
      ensures Valid()
      ensures heads == if v1 == v2 then old(heads) else Erased(old(heads)[v2 := old(heads)[v1]], v1)
    {
      if v1 != v2 {
        heads := Erased(heads[v2 := heads[v1]], v1);
      }
    }

    method CopyVersion(version: nat) returns (copy: nat)
      requires Valid() && version < |heads|
      modifies this`heads
      ensures Valid() && copy == |old(heads)| && heads == old(heads) + [old(heads)[version]]
    {
      heads := heads + [heads[version]];
      copy := |heads| - 1;
    }
  }
}
