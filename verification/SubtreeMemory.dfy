/** The memory subtrees live in: heap nodes that hold child slots, tree handles that hold root
    slots, and reference counts. A reference is an address; freed nodes leave the map, so a
    dangling slot is one that names no node. Models the heap layout of subtree.h. */
module SubtreeMemory {
  import opened SyntaxTrees
  import opened EditSpec

  type Ref = nat
  type TreeId = nat

  datatype Subtree = Inline(leaf: Info) | Ptr(ref: Ref)

  datatype HeapData = HeapData(refCount: nat, info: Info, children: seq<Subtree>)

  type Nodes = map<Ref, HeapData>
  type Roots = map<TreeId, Subtree>

  function InfoOf(h: Nodes, s: Subtree): Info
    requires s.Ptr? ==> s.ref in h
  {
    match s
    case Inline(leaf) => leaf
    case Ptr(r) => h[r].info
  }

  function ChildrenOf(h: Nodes, s: Subtree): seq<Subtree>
    requires s.Ptr? ==> s.ref in h
  {
    match s
    case Inline(_) => []
    case Ptr(r) => h[r].children
  }

  /** A place that holds a subtree: a handle's root or a child position. */
  datatype Slot = Root(id: TreeId) | Child(parent: Ref, index: nat)

  ghost predicate HasSlot(h: Nodes, roots: Roots, slot: Slot) {
    match slot
    case Root(id) => id in roots
    case Child(p, i) => p in h && i < |h[p].children|
  }

  ghost function At(h: Nodes, roots: Roots, slot: Slot): Subtree
    requires HasSlot(h, roots, slot)
  {
    match slot
    case Root(id) => roots[id]
    case Child(p, i) => h[p].children[i]
  }

  ghost function SlotsOf(h: Nodes, p: Ref): set<Slot>
    requires p in h
  {
    set i | 0 <= i < |h[p].children| :: Child(p, i)
  }

  ghost function AllSlots(h: Nodes, roots: Roots): (slots: set<Slot>)
    ensures forall slot :: slot in slots <==> HasSlot(h, roots, slot)
  {
    (set id | id in roots :: Root(id)) + (set p, i | p in h && 0 <= i < |h[p].children| :: Child(p, i))
  }

  /** The slots that own the node at `r`: all that point to it, except those in `dead`, which
      gave their reference up. */
  ghost function Owners(h: Nodes, roots: Roots, dead: set<Slot>, r: Ref): set<Slot> {
    set slot | slot in AllSlots(h, roots) && slot !in dead && At(h, roots, slot) == Ptr(r)
  }

  /** The count of `r` is its number of owners plus the references held by local variables. */
  ghost predicate IsExact(h: Nodes, roots: Roots, dead: set<Slot>, held: multiset<Ref>, r: Ref) {
    r in h ==> h[r].refCount == |Owners(h, roots, dead, r)| + held[r]
  }

  ghost predicate Counts(h: Nodes, roots: Roots, dead: set<Slot>, held: multiset<Ref>) {
    forall r {:trigger IsExact(h, roots, dead, held, r)} :: IsExact(h, roots, dead, held, r)
  }

  ghost predicate NamesNode(h: Nodes, roots: Roots, dead: set<Slot>, slot: Slot) {
    HasSlot(h, roots, slot) && slot !in dead && At(h, roots, slot).Ptr? ==> At(h, roots, slot).ref in h
  }

  /** No live slot dangles. */
  ghost predicate Closed(h: Nodes, roots: Roots, dead: set<Slot>) {
    forall slot {:trigger NamesNode(h, roots, dead, slot)} :: NamesNode(h, roots, dead, slot)
  }

  ghost predicate Descends(h: Nodes, rank: map<Ref, nat>, p: Ref, i: nat) {
    p in h && i < |h[p].children| && h[p].children[i].Ptr? && h[p].children[i].ref in h ==>
      p in rank && h[p].children[i].ref in rank && rank[h[p].children[i].ref] < rank[p]
  }

  /** Children rank below their parents, so no node reaches itself. */
  ghost predicate Ranked(h: Nodes, rank: map<Ref, nat>) {
    && h.Keys <= rank.Keys
    && forall p, i {:trigger Descends(h, rank, p, i)} :: Descends(h, rank, p, i)
  }

  ghost predicate Acyclic(h: Nodes) {
    exists rank :: Ranked(h, rank)
  }

  /** An inline leaf fits its bit fields and has none of the facts only heap nodes record. */
  ghost predicate InlineOk(leaf: Info) {
    && leaf.isInline && CanInline(leaf.padding, leaf.size, leaf.lookaheadBytes)
    && leaf.size == InlineSize(leaf.size)
    && !leaf.dependsOnColumn && !leaf.fragileLeft && !leaf.fragileRight
    && !leaf.hasExternalTokens && !leaf.hasStateChange && leaf.errorCost == 0 && leaf.repeatDepth == 0
  }

  ghost predicate LeafFits(h: Nodes, roots: Roots, slot: Slot) {
    HasSlot(h, roots, slot) && At(h, roots, slot).Inline? ==> InlineOk(At(h, roots, slot).leaf)
  }

  ghost predicate Kinds(h: Nodes, roots: Roots) {
    && (forall r :: r in h ==> !h[r].info.isInline)
    && forall slot {:trigger LeafFits(h, roots, slot)} :: LeafFits(h, roots, slot)
  }

  ghost predicate Valid(h: Nodes, roots: Roots) {
    && Closed(h, roots, {})
    && Counts(h, roots, {}, multiset{})
    && (forall r :: r in h ==> h[r].refCount > 0)
    && Acyclic(h)
    && Kinds(h, roots)
  }

  // ---- What a subtree means ----

  /** Following pointers from `s` yields the tree `t`. */
  ghost predicate Denotes(h: Nodes, s: Subtree, t: Tree)
    decreases t
  {
    match s
    case Inline(leaf) => t == Tree(leaf, [])
    case Ptr(r) =>
      && r in h
      && t.info == h[r].info
      && |t.kids| == |h[r].children|
      && forall i :: 0 <= i < |t.kids| ==> Denotes(h, h[r].children[i], t.kids[i])
  }

  lemma {:induction false} DenotesOne(h: Nodes, s: Subtree, t: Tree, u: Tree)
    requires Denotes(h, s, t) && Denotes(h, s, u)
    ensures t == u
    decreases t
  {
    if s.Ptr? {
      forall i | 0 <= i < |t.kids|
        ensures t.kids[i] == u.kids[i]
      {
        DenotesOne(h, h[s.ref].children[i], t.kids[i], u.kids[i]);
      }
    }
  }

  lemma {:induction false} Unfold(h: Nodes, rank: map<Ref, nat>, s: Subtree) returns (t: Tree)
    requires Ranked(h, rank) && Closed(h, map[], {}) && (s.Ptr? ==> s.ref in h)
    ensures Denotes(h, s, t)
    decreases if s.Ptr? then 2 * rank[s.ref] + 3 else 0
  {
    match s
    case Inline(leaf) => t := Tree(leaf, []);
    case Ptr(r) =>
      var kids := UnfoldAll(h, rank, r, 0);
      t := Tree(h[r].info, kids);
  }

  /** Every handle denotes exactly one tree. */
  lemma TreeOf(h: Nodes, roots: Roots, id: TreeId) returns (t: Tree)
    requires Valid(h, roots) && id in roots
    ensures Denotes(h, roots[id], t)
    ensures forall u :: Denotes(h, roots[id], u) ==> u == t
  {
    var rank :| Ranked(h, rank);
    assert NamesNode(h, roots, {}, Root(id));
    forall slot
      ensures NamesNode(h, map[], {}, slot)
    {
      assert NamesNode(h, roots, {}, slot);
    }
    t := Unfold(h, rank, roots[id]);
    forall u | Denotes(h, roots[id], u)
      ensures u == t
    {
      DenotesOne(h, roots[id], t, u);
    }
  }

  lemma {:induction false} UnfoldAll(h: Nodes, rank: map<Ref, nat>, r: Ref, i: nat) returns (kids: seq<Tree>)
    requires Ranked(h, rank) && Closed(h, map[], {}) && r in h && i <= |h[r].children|
    ensures |kids| == |h[r].children| - i
    ensures forall k :: 0 <= k < |kids| ==> Denotes(h, h[r].children[i + k], kids[k])
    decreases 2 * rank[r] + 2, |h[r].children| - i
  {
    if i == |h[r].children| {
      kids := [];
    } else {
      assert NamesNode(h, map[], {}, Child(r, i)) && Descends(h, rank, r, i);
      var kid := Unfold(h, rank, h[r].children[i]);
      var rest := UnfoldAll(h, rank, r, i + 1);
      kids := [kid] + rest;
    }
  }

  // ---- Reachability ----

  ghost predicate IsChild(h: Nodes, p: Ref, r: Ref) {
    p in h && exists i :: 0 <= i < |h[p].children| && h[p].children[i] == Ptr(r)
  }

  ghost predicate IsChain(h: Nodes, roots: Roots, chain: seq<Ref>) {
    && chain != []
    && (exists id :: id in roots && roots[id] == Ptr(chain[0]))
    && forall k :: 0 < k < |chain| ==> IsChild(h, chain[k - 1], chain[k])
  }

  /** Some handle reaches the node at `r`. */
  ghost predicate Reachable(h: Nodes, roots: Roots, r: Ref) {
    exists chain :: IsChain(h, roots, chain) && chain[|chain| - 1] == r
  }

  ghost predicate KidsInside(h: Nodes, dom: set<Ref>, r: Ref) {
    r in h && r in dom ==> forall i :: 0 <= i < |h[r].children| && h[r].children[i].Ptr? ==> h[r].children[i].ref in dom
  }

  /** No pointer leads out of these nodes. */
  ghost predicate Inward(h: Nodes, dom: set<Ref>) {
    forall r {:trigger KidsInside(h, dom, r)} :: KidsInside(h, dom, r)
  }

  /** The nodes one handle reaches. */
  ghost function ReachedBy(h: Nodes, roots: Roots, id: TreeId): set<Ref> {
    if id in roots then set r | r in h && Reachable(h, map[id := roots[id]], r) else {}
  }

  lemma ReachedIsInward(h: Nodes, roots: Roots, id: TreeId)
    requires Closed(h, roots, {})
    ensures Inward(h, ReachedBy(h, roots, id))
    ensures id in roots && roots[id].Ptr? ==> roots[id].ref in ReachedBy(h, roots, id)
  {
    assert NamesNode(h, roots, {}, Root(id));
    if id in roots {
      var root := map[id := roots[id]];
      if roots[id].Ptr? {
        assert root[id] == Ptr([roots[id].ref][0]);
        assert IsChain(h, root, [roots[id].ref]);
      }
      forall r
        ensures KidsInside(h, ReachedBy(h, roots, id), r)
      {
        if r in ReachedBy(h, roots, id) {
          var chain :| IsChain(h, root, chain) && chain[|chain| - 1] == r;
          forall i | 0 <= i < |h[r].children| && h[r].children[i].Ptr?
            ensures h[r].children[i].ref in ReachedBy(h, roots, id)
          {
            assert NamesNode(h, roots, {}, Child(r, i));
            ChainGoesOn(h, root, chain, i);
          }
        }
      }
    }
  }

  lemma ChainGoesOn(h: Nodes, roots: Roots, chain: seq<Ref>, i: nat)
    requires IsChain(h, roots, chain) && chain[|chain| - 1] in h && i < |h[chain[|chain| - 1]].children|
    requires h[chain[|chain| - 1]].children[i].Ptr?
    ensures Reachable(h, roots, h[chain[|chain| - 1]].children[i].ref)
  {
    var r := chain[|chain| - 1];
    var longer := chain + [h[r].children[i].ref];
    forall k | 0 < k < |longer|
      ensures IsChild(h, longer[k - 1], longer[k])
    {
      if k < |chain| {
        assert IsChild(h, chain[k - 1], chain[k]);
      }
    }
    assert longer[0] == chain[0] && IsChain(h, roots, longer);
  }

  /** What lies inside an inward set with the root in it is all the handle reaches. */
  lemma {:induction false} ReachedInside(h: Nodes, roots: Roots, id: TreeId, dom: set<Ref>, chain: seq<Ref>)
    requires Inward(h, dom) && id in roots && (roots[id].Ptr? ==> roots[id].ref in dom)
    requires IsChain(h, map[id := roots[id]], chain)
    ensures chain[|chain| - 1] in dom
    decreases |chain|
  {
    if |chain| > 1 {
      var prefix := chain[..|chain| - 1];
      forall k | 0 < k < |prefix|
        ensures IsChild(h, prefix[k - 1], prefix[k])
      {
        assert IsChild(h, chain[k - 1], chain[k]);
      }
      ReachedInside(h, roots, id, dom, prefix);
      assert IsChild(h, chain[|chain| - 2], chain[|chain| - 1]);
      assert KidsInside(h, dom, chain[|chain| - 2]);
    }
  }

  /** What a node says, apart from how many references it has. */
  ghost predicate SameContent(a: HeapData, b: HeapData) {
    a.info == b.info && a.children == b.children
  }

  ghost predicate SameContents(h: Nodes, h': Nodes) {
    h.Keys == h'.Keys && forall r :: r in h ==> SameContent(h[r], h'[r])
  }

  /** A set of nodes no one outside can see: no other node, and no handle but `id`, points in. */
  ghost predicate Fenced(h: Nodes, roots: Roots, id: TreeId, mine: set<Ref>) {
    && (forall p, i :: p in h && p !in mine && 0 <= i < |h[p].children| && h[p].children[i].Ptr? ==>
          h[p].children[i].ref !in mine)
    && forall k :: k in roots && k != id && roots[k].Ptr? ==> roots[k].ref !in mine
  }

  /** Changing only fenced nodes changes no tree that starts outside the fence. */
  lemma {:induction false} FencedFrame(h: Nodes, h': Nodes, roots: Roots, id: TreeId, mine: set<Ref>, s: Subtree,
                                       t: Tree)
    requires Fenced(h, roots, id, mine) && Denotes(h, s, t) && (s.Ptr? ==> s.ref !in mine)
    requires forall r :: r in h && r !in mine ==> r in h' && SameContent(h[r], h'[r])
    ensures Denotes(h', s, t)
    decreases t
  {
    if s.Ptr? {
      forall i | 0 <= i < |t.kids|
        ensures Denotes(h', h'[s.ref].children[i], t.kids[i])
      {
        FencedFrame(h, h', roots, id, mine, h[s.ref].children[i], t.kids[i]);
      }
    }
  }

  lemma {:induction false} FencedChain(h: Nodes, roots: Roots, id: TreeId, mine: set<Ref>, chain: seq<Ref>)
    requires Fenced(h, roots, id, mine) && IsChain(h, roots - {id}, chain)
    ensures chain[|chain| - 1] !in mine
    decreases |chain|
  {
    if |chain| > 1 {
      var prefix := chain[..|chain| - 1];
      forall k | 0 < k < |prefix|
        ensures IsChild(h, prefix[k - 1], prefix[k])
      {
        assert IsChild(h, chain[k - 1], chain[k]);
      }
      FencedChain(h, roots, id, mine, prefix);
      assert IsChild(h, chain[|chain| - 2], chain[|chain| - 1]);
    }
  }

  // ---- How reference counts move ----

  lemma SameOwners(h: Nodes, h': Nodes, roots: Roots, dead: set<Slot>, r: Ref)
    requires SameContents(h, h')
    ensures Owners(h', roots, dead, r) == Owners(h, roots, dead, r)
  {
    assert AllSlots(h', roots) == AllSlots(h, roots);
  }

  function Retained(h: Nodes, s: Subtree): Nodes
    requires s.Ptr? ==> s.ref in h
  {
    match s
    case Inline(_) => h
    case Ptr(r) => h[r := h[r].(refCount := h[r].refCount + 1)]
  }

  function Dropped(h: Nodes, r: Ref): Nodes
    requires r in h && h[r].refCount > 0
  {
    h[r := h[r].(refCount := h[r].refCount - 1)]
  }

  ghost function HeldFrom(s: Subtree): multiset<Ref> {
    if s.Ptr? then multiset{s.ref} else multiset{}
  }

  lemma UndeadOwners(h: Nodes, roots: Roots, dead: set<Slot>, slot: Slot, r: Ref)
    requires HasSlot(h, roots, slot) && slot in dead
    ensures Owners(h, roots, dead - {slot}, r) ==
            Owners(h, roots, dead, r) + if At(h, roots, slot) == Ptr(r) then {slot} else {}
  {
  }

  /** A dead slot comes alive by retaining what it holds. */
  lemma Revive(h: Nodes, roots: Roots, dead: set<Slot>, held: multiset<Ref>, slot: Slot)
    requires Counts(h, roots, dead, held) && HasSlot(h, roots, slot) && slot in dead
    requires At(h, roots, slot).Ptr? ==> At(h, roots, slot).ref in h
    ensures Counts(Retained(h, At(h, roots, slot)), roots, dead - {slot}, held)
  {
    var s := At(h, roots, slot);
    var h' := Retained(h, s);
    forall r
      ensures IsExact(h', roots, dead - {slot}, held, r)
    {
      assert IsExact(h, roots, dead, held, r);
      SameOwners(h, h', roots, dead - {slot}, r);
      UndeadOwners(h, roots, dead, slot, r);
      assert slot !in Owners(h, roots, dead, r);
    }
  }

  /** A slot hands its reference to a local variable. */
  lemma GiveUp(h: Nodes, roots: Roots, dead: set<Slot>, held: multiset<Ref>, slot: Slot)
    requires Counts(h, roots, dead, held) && HasSlot(h, roots, slot) && slot !in dead
    ensures Counts(h, roots, dead + {slot}, held + HeldFrom(At(h, roots, slot)))
    ensures At(h, roots, slot).Ptr? && At(h, roots, slot).ref in h ==> h[At(h, roots, slot).ref].refCount > 0
  {
    var s := At(h, roots, slot);
    forall r
      ensures IsExact(h, roots, dead + {slot}, held + HeldFrom(s), r)
      ensures s == Ptr(r) && r in h ==> h[r].refCount > 0
    {
      assert IsExact(h, roots, dead, held, r);
      var owners := Owners(h, roots, dead, r);
      assert s == Ptr(r) ==> slot in owners;
      assert Owners(h, roots, dead + {slot}, r) == owners - {slot};
    }
  }

  /** A local variable drops its reference. */
  lemma DropHeld(h: Nodes, roots: Roots, dead: set<Slot>, held: multiset<Ref>, r: Ref)
    requires Counts(h, roots, dead, held + multiset{r}) && r in h
    ensures h[r].refCount > 0 && Counts(Dropped(h, r), roots, dead, held)
  {
    assert IsExact(h, roots, dead, held + multiset{r}, r);
    forall x
      ensures IsExact(Dropped(h, r), roots, dead, held, x)
    {
      assert IsExact(h, roots, dead, held + multiset{r}, x);
      SameOwners(h, Dropped(h, r), roots, dead, x);
    }
  }

  /** A live slot dies by dropping what it holds. */
  lemma Kill(h: Nodes, roots: Roots, dead: set<Slot>, held: multiset<Ref>, slot: Slot)
    requires Counts(h, roots, dead, held) && HasSlot(h, roots, slot) && slot !in dead
    requires At(h, roots, slot).Ptr? ==> At(h, roots, slot).ref in h
    ensures match At(h, roots, slot)
            case Inline(_) => Counts(h, roots, dead + {slot}, held)
            case Ptr(r) => h[r].refCount > 0 && Counts(Dropped(h, r), roots, dead + {slot}, held)
  {
    GiveUp(h, roots, dead, held, slot);
    match At(h, roots, slot)
    case Inline(_) => assert held + multiset{} == held;
    case Ptr(r) => DropHeld(h, roots, dead + {slot}, held, r);
  }

  lemma NewNodeSlots(h: Nodes, roots: Roots, r: Ref, info: Info, children: seq<Subtree>, slot: Slot)
    requires r !in h
    ensures var h' := h[r := HeapData(1, info, children)];
            && (HasSlot(h', roots, slot) <==> HasSlot(h, roots, slot) || slot in SlotsOf(h', r))
            && !(HasSlot(h, roots, slot) && slot in SlotsOf(h', r))
            && (HasSlot(h, roots, slot) ==> At(h', roots, slot) == At(h, roots, slot))
  {
  }

  /** A new node, held by a local variable, whose slots have not retained their children yet. */
  lemma NewNode(h: Nodes, roots: Roots, dead: set<Slot>, held: multiset<Ref>, r: Ref, info: Info,
                children: seq<Subtree>)
    requires Counts(h, roots, dead, held) && Closed(h, roots, {}) && r !in h && held[r] == 0
    requires forall i :: 0 <= i < |children| && children[i].Ptr? ==> children[i].ref in h
    ensures var h' := h[r := HeapData(1, info, children)];
            Counts(h', roots, dead + SlotsOf(h', r), held + multiset{r})
  {
    var h' := h[r := HeapData(1, info, children)];
    var dead' := dead + SlotsOf(h', r);
    forall x
      ensures IsExact(h', roots, dead', held + multiset{r}, x)
    {
      assert IsExact(h, roots, dead, held, x);
      var owners := if x == r then {} else Owners(h, roots, dead, x);
      forall slot
        ensures slot in Owners(h', roots, dead', x) <==> slot in owners
      {
        NewNodeSlots(h, roots, r, info, children, slot);
        assert NamesNode(h, roots, {}, slot);
      }
      assert Owners(h', roots, dead', x) == owners;
    }
  }

  lemma FreedSlots(h: Nodes, roots: Roots, r: Ref, slot: Slot)
    requires r in h
    ensures HasSlot(h - {r}, roots, slot) <==> HasSlot(h, roots, slot) && slot !in SlotsOf(h, r)
    ensures HasSlot(h - {r}, roots, slot) ==> At(h - {r}, roots, slot) == At(h, roots, slot)
  {
  }

  /** A node without owners can be freed once its own slots have died. */
  lemma FreeNode(h: Nodes, roots: Roots, held: multiset<Ref>, r: Ref)
    requires r in h && h[r].refCount == 0
    requires Counts(h, roots, SlotsOf(h, r), held) && Closed(h, roots, {})
    ensures Counts(h - {r}, roots, {}, held) && Closed(h - {r}, roots, {})
  {
    var h', dead := h - {r}, SlotsOf(h, r);
    forall x
      ensures IsExact(h', roots, {}, held, x)
    {
      assert IsExact(h, roots, dead, held, x);
      forall slot
        ensures slot in Owners(h', roots, {}, x) <==> slot in Owners(h, roots, dead, x)
      {
        FreedSlots(h, roots, r, slot);
      }
      assert Owners(h', roots, {}, x) == Owners(h, roots, dead, x);
    }
    assert IsExact(h, roots, dead, held, r);
    forall slot
      ensures NamesNode(h', roots, {}, slot)
    {
      FreedSlots(h, roots, r, slot);
      assert NamesNode(h, roots, {}, slot);
      assert HasSlot(h', roots, slot) && At(h, roots, slot) == Ptr(r) ==> slot in Owners(h, roots, dead, r);
    }
  }

  lemma SoleOwner(h: Nodes, roots: Roots, slot: Slot)
    requires Counts(h, roots, {}, multiset{}) && HasSlot(h, roots, slot) && At(h, roots, slot).Ptr?
    requires At(h, roots, slot).ref in h && h[At(h, roots, slot).ref].refCount == 1
    ensures Owners(h, roots, {}, At(h, roots, slot).ref) == {slot}
  {
    var r := At(h, roots, slot).ref;
    assert IsExact(h, roots, {}, multiset{}, r);
    var owners := Owners(h, roots, {}, r);
    assert slot in owners;
    assert |owners - {slot}| == 0;
    assert owners == (owners - {slot}) + {slot};
  }

  lemma NotAnOwner(h: Nodes, roots: Roots, slot: Slot, r: Ref, other: Slot)
    requires Owners(h, roots, {}, r) == {slot} && HasSlot(h, roots, other) && other != slot
    ensures At(h, roots, other) != Ptr(r)
  {
    assert At(h, roots, other) == Ptr(r) ==> other in Owners(h, roots, {}, r);
  }

  // ---- Storing into a slot ----

  function StoredNodes(h: Nodes, slot: Slot, s: Subtree): Nodes
    requires slot.Child? ==> slot.parent in h && slot.index < |h[slot.parent].children|
  {
    match slot
    case Root(_) => h
    case Child(p, i) => h[p := h[p].(children := h[p].children[i := s])]
  }

  function StoredRoots(roots: Roots, slot: Slot, s: Subtree): Roots {
    match slot
    case Root(id) => roots[id := s]
    case Child(_, _) => roots
  }

  lemma StoredSlots(h: Nodes, roots: Roots, slot: Slot, s: Subtree, other: Slot)
    requires HasSlot(h, roots, slot)
    ensures var h', roots' := StoredNodes(h, slot, s), StoredRoots(roots, slot, s);
            && (HasSlot(h', roots', other) <==> HasSlot(h, roots, other))
            && (HasSlot(h, roots, other) ==>
                  At(h', roots', other) == if other == slot then s else At(h, roots, other))
  {
  }

  lemma StoredOwners(h: Nodes, roots: Roots, dead: set<Slot>, slot: Slot, s: Subtree, r: Ref)
    requires HasSlot(h, roots, slot) && slot in dead
    ensures Owners(StoredNodes(h, slot, s), StoredRoots(roots, slot, s), dead - {slot}, r) ==
            Owners(h, roots, dead, r) + if s == Ptr(r) then {slot} else {}
  {
    var h', roots' := StoredNodes(h, slot, s), StoredRoots(roots, slot, s);
    var owners, owners' := Owners(h, roots, dead, r), Owners(h', roots', dead - {slot}, r);
    forall other
      ensures other in owners' <==> other in owners || (other == slot && s == Ptr(r))
    {
      StoredSlots(h, roots, slot, s, other);
    }
  }

  /** A local variable hands its reference to a dead slot. */
  lemma TakeOver(h: Nodes, roots: Roots, dead: set<Slot>, held: multiset<Ref>, slot: Slot, s: Subtree)
    requires Counts(h, roots, dead, held + HeldFrom(s)) && HasSlot(h, roots, slot) && slot in dead
    ensures Counts(StoredNodes(h, slot, s), StoredRoots(roots, slot, s), dead - {slot}, held)
  {
    var h', roots' := StoredNodes(h, slot, s), StoredRoots(roots, slot, s);
    forall r
      ensures IsExact(h', roots', dead - {slot}, held, r)
    {
      assert IsExact(h, roots, dead, held + HeldFrom(s), r);
      StoredOwners(h, roots, dead, slot, s, r);
      assert slot !in Owners(h, roots, dead, r);
    }
  }
}
