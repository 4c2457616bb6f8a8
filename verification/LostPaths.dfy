/** A small stack from which a pop of everything does not find all paths: a node with eight links to
    one with eight links to one with two. For stack.c:366-393. */
module LostPaths {
  import opened Lengths
  import opened Options
  import opened SyntaxTrees
  import opened StackGraph
  import opened StackPops
  import opened PopWalks

  /** A way on with one byte of text, told from its neighbours by its symbol. */
  function Way(node: NodeRef, k: nat): Link {
    Link(node, Some(StackTree(PlainToken(k + 1, 1), 0, [])), false)
  }

  function Ways(node: NodeRef, count: nat): (links: seq<Link>)
    ensures |links| == count && forall k :: 0 <= k < count ==> links[k] == Way(node, k)
  {
    seq(count, k requires 0 <= k < count => Way(node, k))
  }

  function At(depth: nat, links: seq<Link>): StackNode {
    StackNode(depth + 1, Length(depth, Point(0, depth)), links, 0, 0, 0)
  }

  /** The base, and above it nodes with two, eight and eight links. */
  function Lattice(): Graph {
    map[0 := At(0, []), 1 := At(1, Ways(0, 2)), 2 := At(2, Ways(1, 8)), 3 := At(3, Ways(2, 8))]
  }

  lemma LatticeIsGood()
    ensures GraphOk(Lattice()) && Acyclic(Lattice())
  {
    var g, rank := Lattice(), (n: NodeRef) => n;
    forall n
      ensures NodeOk(g, n)
    {
      if n in g {
        forall i | 0 <= i < |g[n].links|
          ensures LinkFits(g, n, g[n].links[i])
        {
          assert g[n].links[i] == Way(n - 1, i);
        }
      }
    }
    forall n, i: nat
      ensures Falls(g, rank, n, i)
    {
      assert n in g && i < |g[n].links| ==> g[n].links[i] == Way(n - 1, i);
    }
    assert Ranked(g, rank);
  }

  /** The 128 ways from the top to the base. */
  function WayDown(k: nat): Path
    requires k < 128
  {
    [k % 8, k / 8 % 8, k / 64]
  }

  lemma WayDownIsPath(k: nat)
    requires k < 128
    ensures IsPath(Lattice(), 3, WayDown(k)) && EndOf(Lattice(), 3, WayDown(k)) == 0
  {
    var g, a, b, c := Lattice(), k % 8, k / 8 % 8, k / 64;
    assert [a][..0] == [] && [a, b][..1] == [a] && [a, b, c][..2] == [a, b];
    assert g[3].links[a] == Way(2, a) && g[2].links[b] == Way(1, b) && g[1].links[c] == Way(0, c);
    assert IsPath(g, 3, []) && EndOf(g, 3, []) == 3;
    assert IsPath(g, 3, [a]) && EndOf(g, 3, [a]) == 2;
    assert IsPath(g, 3, [a, b]) && EndOf(g, 3, [a, b]) == 1;
  }

  /** A pop of everything leaves some of them out. */
  lemma LatticeLosesPaths()
    ensures GraphOk(Lattice()) && Acyclic(Lattice())
    ensures exists path {:trigger Final(Bottom, Lattice(), 3, path)} ::
              Final(Bottom, Lattice(), 3, path) && LeftOut(Bottom, Lattice(), 3, path)
  {
    LatticeIsGood();
    var crowd := seq(128, k requires 0 <= k < 128 => WayDown(k));
    forall k | 0 <= k < 128
      ensures Live(Bottom, Lattice(), 3, crowd[k]) && |crowd[k]| == 3
    {
      WayDownIsPath(k);
      AnyPathIsLiveToTheBottom(Lattice(), 3, WayDown(k));
    }
    forall i, j | 0 <= i < j < 128
      ensures crowd[i] != crowd[j]
    {
      assert i == WayDown(i)[0] + 8 * WayDown(i)[1] + 64 * WayDown(i)[2];
      assert j == WayDown(j)[0] + 8 * WayDown(j)[1] + 64 * WayDown(j)[2];
    }
    CrowdOverflows(Bottom, Lattice(), 3, crowd, 3);
    BottomLosesIff(Lattice(), 3);
  }

  /** ... whatever versions there are. */
  lemma NotAllFound(ends: seq<NodeRef>, first: nat, slices: seq<Slice>, found: seq<Path>)
    requires Popped(Bottom, Lattice(), 3, ends, first, slices, found)
    ensures exists path {:trigger Final(Bottom, Lattice(), 3, path)} ::
              Final(Bottom, Lattice(), 3, path) && path !in found
  {
    LatticeLosesPaths();
    var path :| Final(Bottom, Lattice(), 3, path) && LeftOut(Bottom, Lattice(), 3, path);
    assert FoundIff(Bottom, Lattice(), 3, found, path);
  }
}
