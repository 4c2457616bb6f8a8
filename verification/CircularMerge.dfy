/** A parse that goes from one state to another and back on tokens without text, and then merges with
    the version it came from: the merge closes a circle. For stack.c:512-523, 697-720. */
module CircularMerge {
  import opened Options
  import opened SyntaxTrees
  import opened StackGraph
  import opened StackCircles
  import opened ParseStack

  type Token = Option<StackTree>

  /** A token without text and without errors, such as an external scanner may produce. */
  ghost predicate IsEmptyToken(token: Token) {
    token.Some? && Span(token) == 0 && Cost(token) == 0
  }

  /** Three of them that no link could absorb for another. */
  ghost predicate AreDifferent(a: Token, b: Token, c: Token) {
    && IsEmptyToken(a) && IsEmptyToken(b) && IsEmptyToken(c)
    && a.value.tree.info.symbol != c.value.tree.info.symbol
  }

  lemma ThereAreTokens() returns (a: Token, b: Token, c: Token)
    ensures AreDifferent(a, b, c)
  {
    a := Some(StackTree(PlainToken(1, 0), 0, []));
    b := a;
    c := Some(StackTree(PlainToken(2, 0), 0, []));
  }

  /** The version at `last` came to where `first` is by way of `between`. */
  ghost predicate IsRound(g: Graph, first: NodeRef, between: NodeRef, last: NodeRef, a: Token, b: Token, c: Token) {
    && first in g && between in g && last in g && first != between
    && g[last].links == [Link(between, c, false)] && g[between].links == [Link(first, b, false)]
    && |g[first].links| == 1 && g[first].links[0].subtree == a
  }

  lemma RoundCloses(g: Graph, first: NodeRef, between: NodeRef, last: NodeRef, a: Token, b: Token, c: Token)
    requires IsRound(g, first, between, last, a, b, c) && AreDifferent(a, b, c)
    ensures NoneAlike(g, first, last) && Closes(g, first, g[last].links)
  {
    assert IsPath(g, first, []) && EndOf(g, first, []) == first;
    LeadsOn(g, between, 0, first);
    assert g[last].links[..0] == [];
    assert ClosesAt(g, first, g[last].links, 0);
  }

  /** The node has come to a state on an empty token, without text or errors so far. */
  ghost predicate IsReached(g: Graph, n: NodeRef, state: State, below: NodeRef, token: Token) {
    n in g && KeyOf(g, n) == Key(state, 0, 0) && g[n].links == [Link(below, token, false)]
  }

  ghost predicate IsPlain(head: Head) {
    head.status == Active && head.lastExternalToken == None
  }

  method PushEmpty(stack: ParseStack, version: nat, token: Token, state: State)
    requires stack.Valid() && version < |stack.heads| && IsPlain(stack.heads[version]) && IsEmptyToken(token)
    requires var g, n := stack.nodes, stack.heads[version].node; g[n].position.bytes == 0 && g[n].errorCost == 0
    modifies stack
    ensures stack.Valid() && |stack.heads| == |old(stack.heads)| && IsPlain(stack.heads[version])
    ensures forall v :: 0 <= v < |stack.heads| && v != version ==> stack.heads[v] == old(stack.heads)[v]
    ensures forall n :: n in old(stack.nodes) ==> n in stack.nodes && stack.nodes[n] == old(stack.nodes)[n]
    ensures stack.heads[version].node !in old(stack.nodes)
    ensures IsReached(stack.nodes, stack.heads[version].node, state, old(stack.heads)[version].node, token)
  {
    stack.Push(version, token, false, state);
  }

  /** Only pushes and a copy: state 2 is reached by an empty token; a second version leaves it for
      state 3 by another and reaches it again by a third. */
  method GoRound(a: Token, b: Token, c: Token) returns (stack: ParseStack)
    requires AreDifferent(a, b, c)
    ensures fresh(stack) && stack.Valid() && |stack.heads| == 2 && stack.CanMerge(0, 1)
    ensures exists between :: IsRound(stack.nodes, stack.heads[0].node, between, stack.heads[1].node, a, b, c)
  {
    stack := new ParseStack();
    ghost var base := stack.heads[0].node;
    PushEmpty(stack, 0, a, 2);
    ghost var first := stack.heads[0].node;
    var copy := stack.CopyVersion(0);
    PushEmpty(stack, 1, b, 3);
    ghost var between := stack.heads[1].node;
    PushEmpty(stack, 1, c, 2);
    assert IsReached(stack.nodes, first, 2, base, a) && IsReached(stack.nodes, between, 3, first, b);
    assert IsRound(stack.nodes, first, between, stack.heads[1].node, a, b, c);
  }

  /** Merging the two versions closes a circle. */
  method CloseCircle(a: Token, b: Token, c: Token) returns (stack: ParseStack, merged: bool, closed: bool)
    requires AreDifferent(a, b, c)
    ensures fresh(stack) && merged && closed && !Acyclic(stack.nodes)
  {
    stack := GoRound(a, b, c);
    ghost var between :| IsRound(stack.nodes, stack.heads[0].node, between, stack.heads[1].node, a, b, c);
    RoundCloses(stack.nodes, stack.heads[0].node, between, stack.heads[1].node, a, b, c);
    merged, closed := stack.Merge(0, 1);
  }
}
