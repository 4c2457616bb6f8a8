/** A tree handle: a slot of the store for the root, and included ranges of its own. Models the
    struct TSTree and tree.c:6-36, 55-93. */
module TreeHandles {
  import opened SyntaxTrees
  import opened EditSpec
  import opened SubtreeMemory
  import opened RangeDifferences
  import opened IncludedRanges
  import opened TreeStore

  class TreeHandle {
    const store: TreeStore
    const id: TreeId
    const includedRanges: array<Range>

    ghost predicate Valid()
      reads this, store
    {
      store.Valid() && id in store.roots
    }

    /** Every handle has its own copy of the ranges (ts_tree_new). */
    constructor (store: TreeStore, id: TreeId, ranges: seq<Range>)
      requires store.Valid() && id in store.roots
      ensures Valid() && this.store == store && this.id == id && fresh(includedRanges) && includedRanges[..] == ranges
    {
      this.store, this.id := store, id;
      var copied := new Range[|ranges|](i requires 0 <= i < |ranges| => ranges[i]);
      includedRanges := copied;
      new;
      assert includedRanges[..] == ranges;
    }

    /** Another handle on the same tree, with the same ranges (ts_tree_copy). */
    method Copy(newId: TreeId) returns (copy: TreeHandle)
      requires Valid() && newId !in store.roots
      modifies store
      ensures Valid() && copy.Valid() && fresh(copy) && fresh(copy.includedRanges)
      ensures copy.store == store && copy.id == newId && copy.includedRanges[..] == includedRanges[..]
      ensures store.roots == old(store.roots)[newId := old(store.roots)[id]]
      ensures SameContents(old(store.nodes), store.nodes)
    {
      store.TreeCopy(id, newId);
      copy := new TreeHandle(store, newId, includedRanges[..]);
    }

    /** Moves the included ranges and edits the tree (ts_tree_edit). */
    method Edit(e: Edit)
      requires Valid()
      modifies store, includedRanges
      ensures Valid() && includedRanges[..] == EditedRanges(old(includedRanges[..]), e)
      ensures forall t :: Denotes(old(store.nodes), old(store.roots)[id], t) ==>
                Denotes(store.nodes, store.roots[id], EditTree(t, e))
      ensures store.roots.Keys == old(store.roots.Keys)
      ensures forall k, t :: k in store.roots && k != id && Denotes(old(store.nodes), old(store.roots)[k], t) ==>
                Denotes(store.nodes, store.roots[k], t)
    {
      EditRanges(includedRanges, e);
      store.TreeEdit(id, e);
    }

    /** An edit made to a copy is seen neither in the tree nor in the ranges of the original. */
    method EditCopy(newId: TreeId, e: Edit) returns (copy: TreeHandle)
      requires Valid() && newId !in store.roots
      modifies store
      ensures Valid() && copy.Valid() && copy.store == store && copy.id == newId
      ensures copy.includedRanges[..] == EditedRanges(includedRanges[..], e)
      ensures forall t :: Denotes(old(store.nodes), old(store.roots)[id], t) ==>
                && Denotes(store.nodes, store.roots[id], t)
                && Denotes(store.nodes, store.roots[newId], EditTree(t, e))
    {
      ghost var h := store.nodes;
      copy := Copy(newId);
      ghost var copied := store.nodes;
      forall t | Denotes(h, store.roots[id], t)
        ensures Denotes(copied, store.roots[id], t)
      {
        SameContentsDenote(h, copied, store.roots[id], t);
      }
      copy.Edit(e);
    }

    /** Drops the handle (ts_tree_delete): what is left is what the other handles reach. */
    method Delete()
      requires Valid()
      modifies store
      ensures store.Valid() && store.roots == old(store.roots) - {id}
      ensures forall r :: r in store.nodes <==> Reachable(old(store.nodes), store.roots, r)
    {
      store.TreeDelete(id);
    }
  }

  lemma {:induction false} SameContentsDenote(h: Nodes, h': Nodes, s: Subtree, t: Tree)
    requires SameContents(h, h') && Denotes(h, s, t)
    ensures Denotes(h', s, t)
    decreases t
  {
    if s.Ptr? {
      forall i | 0 <= i < |t.kids|
        ensures Denotes(h', h'[s.ref].children[i], t.kids[i])
      {
        SameContentsDenote(h, h', h[s.ref].children[i], t.kids[i]);
      }
    }
  }
}
