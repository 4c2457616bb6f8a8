/** The value of a syntax tree: what a Subtree means once pointers are followed.
    Models the node layout and the accessors of subtree.h. */
module SyntaxTrees {
  import opened Lengths

  type Symbol = nat

  const SYM_END: Symbol := 0
  const SYM_ERROR: Symbol := 65535
  const SYM_ERROR_REPEAT: Symbol := 65534

  /** The fields of one node. `isInline` tells the pointer-sized leaf layout from the heap layout. */
  datatype Info = Info(
    isInline: bool,
    symbol: Symbol,
    parseState: nat,
    padding: Length,
    size: Length,
    lookaheadBytes: nat,
    visible: bool,
    named: bool,
    extra: bool,
    hasChanges: bool,
    isMissing: bool,
    errorCost: nat,
    fragileLeft: bool,
    fragileRight: bool,
    hasExternalTokens: bool,
    hasStateChange: bool,
    dependsOnColumn: bool,
    visibleChildCount: nat,
    namedChildCount: nat,
    visibleDescendantCount: nat,
    repeatDepth: nat,
    productionId: nat,
    firstLeafSymbol: Symbol,
    firstLeafState: nat)

  datatype Tree = Tree(info: Info, kids: seq<Tree>)

  function TotalSize(info: Info): Length {
    Add(info.padding, info.size)
  }

  /** What a hidden token of `bytes` bytes caches, or a parent before it is summarized. */
  function PlainInfo(isInline: bool, symbol: Symbol, bytes: nat): Info {
    Info(isInline, symbol, 0, ZERO, Length(bytes, Point(0, bytes)), 0, false, false, false, false, false, 0, false,
         false, false, false, false, 0, 0, 0, 0, 0, 0, 0)
  }

  /** A token as the stack knows it. */
  function PlainToken(symbol: Symbol, bytes: nat): Tree {
    Tree(PlainInfo(true, symbol, bytes), [])
  }

  function TotalBytes(t: Tree): nat {
    TotalSize(t.info).bytes
  }

  function SumBytes(kids: seq<Tree>): nat {
    if kids == [] then 0 else TotalBytes(kids[0]) + SumBytes(kids[1..])
  }

  lemma {:induction false} SumBytesAppend(a: seq<Tree>, b: seq<Tree>)
    ensures SumBytes(a + b) == SumBytes(a) + SumBytes(b)
  {
    if a == [] {
      assert a + b == b;
    } else {
      assert (a + b)[1..] == a[1..] + b;
      SumBytesAppend(a[1..], b);
    }
  }

  /** Bytes of the children before child `i`: where child `i` begins inside its parent. */
  function Offset(kids: seq<Tree>, i: nat): nat
    requires i <= |kids|
  {
    SumBytes(kids[..i])
  }

  lemma {:induction false} OffsetStep(kids: seq<Tree>, i: nat)
    requires i < |kids|
    ensures Offset(kids, i + 1) == Offset(kids, i) + TotalBytes(kids[i])
    ensures Offset(kids, i + 1) + SumBytes(kids[i + 1..]) == SumBytes(kids)
  {
    assert kids[..i + 1] == kids[..i] + [kids[i]];
    SumBytesAppend(kids[..i], [kids[i]]);
    assert kids == kids[..i + 1] + kids[i + 1..];
    SumBytesAppend(kids[..i + 1], kids[i + 1..]);
  }

  lemma {:induction false} OffsetMonotone(kids: seq<Tree>, i: nat, j: nat)
    requires i <= j <= |kids|
    ensures Offset(kids, i) <= Offset(kids, j) <= SumBytes(kids)
  {
    assert kids[..j] == kids[..i] + kids[i..j];
    SumBytesAppend(kids[..i], kids[i..j]);
    assert kids == kids[..j] + kids[j..];
    SumBytesAppend(kids[..j], kids[j..]);
  }

  /** Every parent spans exactly its children, and its leading padding is its first child's. */
  ghost predicate Consistent(t: Tree) {
    && (t.kids != [] ==>
          TotalBytes(t) == SumBytes(t.kids) && t.info.padding.bytes == t.kids[0].info.padding.bytes)
    && forall i :: 0 <= i < |t.kids| ==> Consistent(t.kids[i])
  }

  /** A path names a node by child indices from the root. */
  type Path = seq<nat>

  ghost predicate ValidPath(t: Tree, path: Path)
    decreases |path|
  {
    path != [] ==> path[0] < |t.kids| && ValidPath(t.kids[path[0]], path[1..])
  }

  ghost function NodeAt(t: Tree, path: Path): Tree
    requires ValidPath(t, path)
    decreases |path|
  {
    if path == [] then t else NodeAt(t.kids[path[0]], path[1..])
  }

  /** The byte at which a node's padding begins, relative to the root. */
  ghost function StartAt(t: Tree, path: Path): nat
    requires ValidPath(t, path)
    decreases |path|
  {
    if path == [] then 0 else Offset(t.kids, path[0]) + StartAt(t.kids[path[0]], path[1..])
  }
}
