/** The bump allocator with a free list that external scanners run on in 32-bit WebAssembly.
    Models malloc and free of wasm/stdlib.c. */
module WasmAllocator {

  const NULL: nat := 0
  const ADDRESS_SPACE: nat := 0x1_0000_0000
  /** Bytes of the header in front of a region's data. */
  const HEADER: nat := 8
  const MAX_HEAP_SIZE: nat := 4 * 1024 * 1024

  /** The region behind one with `len` bytes of data, rounded up to a multiple of four. Addresses
      wrap around at 32 bits. */
  function RegionAfter(region: nat, len: nat): nat {
    ((region + HEADER + len) % ADDRESS_SPACE + 3) % ADDRESS_SPACE / 4 * 4
  }

  /** Does a region of `len` bytes end before the address space does? */
  predicate Fits(region: nat, len: nat) {
    region + HEADER + len + 3 < ADDRESS_SPACE
  }

  /** The distance from `b` to `a` as the code computes it: a signed 32-bit number. */
  function Difference(a: nat, b: nat): int {
    var d := (a - b) % ADDRESS_SPACE;
    if d >= ADDRESS_SPACE / 2 then d - ADDRESS_SPACE else d
  }

  /** It is the true distance exactly if that fits; a region that ends half the address space or
      more behind the start of the heap seems to end before it, so no size limit stops it. */
  lemma DifferenceIsDistanceIff(a: nat, b: nat)
    requires a < ADDRESS_SPACE && b < ADDRESS_SPACE
    ensures Difference(a, b) == a - b <==> -(ADDRESS_SPACE / 2) <= a - b < ADDRESS_SPACE / 2
    ensures a - b >= ADDRESS_SPACE / 2 ==> Difference(a, b) < 0 <= MAX_HEAP_SIZE
  {
    if a >= b {
      assert (a - b) % ADDRESS_SPACE == a - b;
    } else {
      assert (a - b) % ADDRESS_SPACE == a - b + ADDRESS_SPACE;
    }
  }

  /** A region that fits holds its data; one that does not seems to end where it began. */
  lemma RegionHoldsDataIff(region: nat, len: nat)
    requires region < ADDRESS_SPACE && len < ADDRESS_SPACE && region + HEADER + 3 < ADDRESS_SPACE
    ensures RegionAfter(region, len) >= region + HEADER + len <==> Fits(region, len)
    ensures !Fits(region, len) ==> RegionAfter(region, len) < region + HEADER + 4
  {
  }

  /** The regions lie end to end. */
  ghost predicate Tiles(regions: seq<nat>, sizes: map<nat, nat>, start: nat, end: nat)
    decreases |regions|
  {
    if regions == [] then start == end
    else
      var last := regions[|regions| - 1];
      && last in sizes && last + HEADER + sizes[last] <= end == RegionAfter(last, sizes[last])
      && Tiles(regions[..|regions| - 1], sizes, start, last)
  }

  lemma {:induction false} TilesAscend(regions: seq<nat>, sizes: map<nat, nat>, start: nat, end: nat, i: nat)
    requires Tiles(regions, sizes, start, end) && i < |regions|
    ensures regions[i] in sizes && start <= regions[i]
    ensures RegionAfter(regions[i], sizes[regions[i]]) == (if i + 1 < |regions| then regions[i + 1] else end) <= end
    ensures regions[i] + HEADER + sizes[regions[i]] <= RegionAfter(regions[i], sizes[regions[i]])
    decreases |regions|
  {
    var n := |regions| - 1;
    if i < n {
      TilesAscend(regions[..n], sizes, start, regions[n], i);
    } else if n > 0 {
      TilesAscend(regions[..n], sizes, start, regions[n], n - 1);
    }
  }

  /** Of two regions one ends before the other begins. */
  lemma {:induction false} TilesApart(regions: seq<nat>, sizes: map<nat, nat>, start: nat, end: nat, i: nat, j: nat)
    requires Tiles(regions, sizes, start, end) && i < j < |regions|
    ensures regions[i] in sizes && RegionAfter(regions[i], sizes[regions[i]]) <= regions[j]
    ensures regions[i] + HEADER + sizes[regions[i]] <= regions[j] && regions[i] < regions[j]
    decreases j
  {
    TilesAscend(regions, sizes, start, end, i);
    if i + 1 < j {
      TilesApart(regions, sizes, start, end, i, j - 1);
      TilesAscend(regions, sizes, start, end, j - 1);
    }
  }

  lemma {:induction false} TilesFrame(regions: seq<nat>, sizes: map<nat, nat>, sizes': map<nat, nat>, start: nat,
                                      end: nat)
    requires Tiles(regions, sizes, start, end)
    requires forall r :: r in regions && r in sizes ==> r in sizes' && sizes'[r] == sizes[r]
    ensures Tiles(regions, sizes', start, end)
    decreases |regions|
  {
    if regions != [] {
      var n := |regions| - 1;
      TilesFrame(regions[..n], sizes, sizes', start, regions[n]);
    }
  }

  /** Another region goes on the end exactly if its size does not wrap around. */
  lemma BumpTilesIff(regions: seq<nat>, sizes: map<nat, nat>, start: nat, end: nat, size: nat)
    requires Tiles(regions, sizes, start, end) && end !in regions
    requires size < ADDRESS_SPACE && end + HEADER + 3 < ADDRESS_SPACE
    ensures Tiles(regions + [end], sizes[end := size], start, RegionAfter(end, size)) <==> Fits(end, size)
  {
    RegionHoldsDataIff(end, size);
    TilesFrame(regions, sizes, sizes[end := size], start, end);
    assert (regions + [end])[..|regions|] == regions;
  }

  ghost predicate LinkOk(chain: seq<nat>, links: map<nat, nat>, i: nat) {
    i < |chain| ==>
      chain[i] != NULL && chain[i] in links && links[chain[i]] == if i + 1 < |chain| then chain[i + 1] else NULL
  }

  ghost predicate Distinct(chain: seq<nat>) {
    forall i, j :: 0 <= i < j < |chain| ==> chain[i] != chain[j]
  }

  /** `chain` is the list that starts at `first` and follows the links. */
  ghost predicate IsList(chain: seq<nat>, links: map<nat, nat>, first: nat) {
    && first == (if chain == [] then NULL else chain[0])
    && Distinct(chain)
    && forall i: nat {:trigger LinkOk(chain, links, i)} :: LinkOk(chain, links, i)
  }

  function Without(chain: seq<nat>, k: nat): (rest: seq<nat>)
    requires k < |chain|
    ensures |rest| == |chain| - 1
    ensures forall i :: 0 <= i < |rest| ==> rest[i] == chain[if i < k then i else i + 1]
  {
    chain[..k] + chain[k + 1..]
  }

  lemma WithoutHolds(chain: seq<nat>, k: nat)
    requires Distinct(chain) && k < |chain|
    ensures Distinct(Without(chain, k)) && chain[k] !in Without(chain, k)
    ensures forall r :: r in chain <==> r in Without(chain, k) || r == chain[k]
  {
    forall r | r in chain && r != chain[k]
      ensures r in Without(chain, k)
    {
      var i :| 0 <= i < |chain| && chain[i] == r;
      assert Without(chain, k)[if i < k then i else i - 1] == r;
    }
  }

  /** Unlinking the `k`th element. */
  lemma Unlinked(chain: seq<nat>, links: map<nat, nat>, first: nat, k: nat)
    requires IsList(chain, links, first) && k < |chain|
    ensures chain[k] in links && (k > 0 ==> chain[k - 1] in links)
    ensures IsList(Without(chain, k), if k == 0 then links else links[chain[k - 1] := links[chain[k]]],
                   if k == 0 then links[chain[0]] else first)
  {
    var rest := Without(chain, k);
    assert LinkOk(chain, links, k) && (k > 0 ==> LinkOk(chain, links, k - 1));
    WithoutHolds(chain, k);
    var links' := if k == 0 then links else links[chain[k - 1] := links[chain[k]]];
    forall i: nat
      ensures LinkOk(rest, links', i)
    {
      assert LinkOk(chain, links, if i < k then i else i + 1);
    }
  }

  /** Linking a new element in front. */
  lemma Linked(chain: seq<nat>, links: map<nat, nat>, first: nat, r: nat)
    requires IsList(chain, links, first) && r !in chain && r != NULL
    ensures IsList([r] + chain, links[r := first], r)
  {
    var longer, links' := [r] + chain, links[r := first];
    forall i: nat
      ensures LinkOk(longer, links', i)
    {
      assert i > 0 ==> LinkOk(chain, links, i - 1);
    }
  }

  /** Each region is either live or free, and holds what was asked for. */
  ghost predicate Accounted(regions: seq<nat>, sizes: map<nat, nat>, chain: seq<nat>, live: map<nat, nat>) {
    && (forall r :: r in regions <==> r in live || r in chain)
    && (forall r :: r in live ==> r !in chain)
    && forall r :: r in live ==> r in sizes && live[r] <= sizes[r]
  }

  lemma RegionKnown(regions: seq<nat>, sizes: map<nat, nat>, start: nat, end: nat, r: nat)
    requires Tiles(regions, sizes, start, end)
    ensures r in regions ==> r in sizes && start <= r && r + HEADER + sizes[r] <= end
  {
    if r in regions {
      var i :| 0 <= i < |regions| && regions[i] == r;
      TilesAscend(regions, sizes, start, end, i);
    }
  }

  /** The region that ends the heap is the last one, and is listed once. */
  lemma LastRegion(regions: seq<nat>, sizes: map<nat, nat>, start: nat, end: nat, r: nat)
    requires Tiles(regions, sizes, start, end) && r in regions
    ensures r in sizes && (RegionAfter(r, sizes[r]) == end <==> r == regions[|regions| - 1])
    ensures regions[|regions| - 1] !in regions[..|regions| - 1]
  {
    var n := |regions| - 1;
    forall i | 0 <= i < n
      ensures regions[i] in sizes && regions[i] < regions[n] && RegionAfter(regions[i], sizes[regions[i]]) < end
    {
      TilesApart(regions, sizes, start, end, i, n);
      TilesAscend(regions, sizes, start, end, n);
    }
  }

  class Heap {
    var heapStart: nat
    var heapEnd: nat
    var next: nat
    var freeList: nat
    /** The headers: the size of each region and its successor on the free list. */
    var sizes: map<nat, nat>
    var links: map<nat, nat>
    /** All regions in order, those on the free list, and what was asked for each live one. */
    ghost var regions: seq<nat>
    ghost var chain: seq<nat>
    ghost var live: map<nat, nat>

    ghost predicate Valid()
      reads this
    {
      && 0 < heapStart
      && Tiles(regions, sizes, heapStart, next)
      && IsList(chain, links, freeList)
      && Accounted(regions, sizes, chain, live)
    }

    /** No two live blocks share a byte, with each other or with any header. */
    lemma LiveBlocksAreApart(r: nat, s: nat)
      requires Valid() && r in live && s in live && r != s
      ensures r + HEADER + live[r] <= s || s + HEADER + live[s] <= r
    {
      var i :| 0 <= i < |regions| && regions[i] == r;
      var j :| 0 <= j < |regions| && regions[j] == s;
      if i < j {
        TilesApart(regions, sizes, heapStart, next, i, j);
      } else {
        TilesApart(regions, sizes, heapStart, next, j, i);
      }
    }

    /** Every live block lies within the heap. */
    lemma LiveBlocksAreInside(r: nat)
      requires Valid() && r in live
      ensures heapStart <= r && r + HEADER + live[r] <= next
    {
      RegionKnown(regions, sizes, heapStart, next, r);
    }

    constructor (newHeapStart: nat, memoryEnd: nat)
      requires newHeapStart > 0
      ensures Valid() && live == map[] && chain == [] && regions == [] && next == heapStart == newHeapStart
    {
      heapStart, next, heapEnd, freeList := newHeapStart, newHeapStart, memoryEnd, NULL;
      sizes, links := map[], map[];
      regions, chain, live := [], [], map[];
    }

    /** Takes everything back and moves the heap (reset_heap). */
    method Reset(newHeapStart: nat, memoryEnd: nat)
      requires newHeapStart > 0
      modifies this
      ensures Valid() && live == map[] && chain == [] && regions == [] && next == heapStart == newHeapStart
    {
      heapStart, next, heapEnd, freeList := newHeapStart, newHeapStart, memoryEnd, NULL;
      regions, chain, live := [], [], map[];
    }

    /** The first region on the free list that is large enough, and the one before it. */
    method FindFree(size: nat) returns (prev: nat, curr: nat, ghost k: nat)
      requires Valid()
      ensures (curr != NULL) == HasFree(size)
      ensures curr != NULL ==> FirstFree(k, size) && chain[k] == curr && prev == if k == 0 then NULL else chain[k - 1]
    {
      prev, curr, k := NULL, freeList, 0;
      assert LinkOk(chain, links, 0);
      while curr != NULL
        invariant k <= |chain| && curr == (if k < |chain| then chain[k] else NULL)
        invariant prev == if k == 0 then NULL else chain[k - 1]
        invariant k < |chain| ==> curr != NULL
        invariant forall j :: 0 <= j < k ==> chain[j] in sizes && sizes[chain[j]] < size
        decreases |chain| - k
      {
        assert LinkOk(chain, links, k) && LinkOk(chain, links, k + 1);
        assert curr in regions;
        RegionKnown(regions, sizes, heapStart, next, curr);
        if sizes[curr] >= size {
          return;
        }
        prev := curr;
        curr := links[curr];
        k := k + 1;
      }
    }

    /** Hands out the `k`th region of the free list. */
    method TakeFree(size: nat, prev: nat, curr: nat, ghost k: nat)
      requires Valid() && FirstFree(k, size) && chain[k] == curr
      requires prev == if k == 0 then NULL else chain[k - 1]
      modifies this`freeList, this`links, this`chain, this`live
      ensures Valid() && chain == Without(old(chain), k) && live == old(live)[curr := size] && curr !in old(live)
    {
      Unlinked(chain, links, freeList, k);
      WithoutHolds(chain, k);
      assert k > 0 ==> LinkOk(chain, links, k - 1);
      if prev == NULL {
        freeList := links[curr];
      } else {
        links := links[prev := links[curr]];
      }
      chain := Without(chain, k);
      live := live[curr := size];
    }

    /** Hands out new space at the end. */
    method Bump(size: nat, regionEnd: nat)
      requires Valid() && regionEnd == RegionAfter(next, size) && size < ADDRESS_SPACE
      modifies this`sizes, this`next, this`live, this`regions
      ensures Fits(old(next), size) ==> Valid()
      ensures old(next) !in old(regions) && live == old(live)[old(next) := size]
      ensures regions == old(regions) + [old(next)] && sizes == old(sizes)[old(next) := size] && next == regionEnd
    {
      RegionKnown(regions, sizes, heapStart, next, next);
      if Fits(next, size) {
        BumpTilesIff(regions, sizes, heapStart, next, size);
      }
      sizes := sizes[next := size];
      live := live[next := size];
      regions := regions + [next];
      next := regionEnd;
    }

    /** Makes room for new space, if the heap may grow that far. */
    method Reserve(regionEnd: nat, mayGrow: bool, memoryEnd: nat) returns (ok: bool)
      modifies this`heapEnd
      ensures ok <==> regionEnd <= old(heapEnd) || (Difference(regionEnd, heapStart) <= MAX_HEAP_SIZE && mayGrow)
      ensures heapEnd == if ok && regionEnd > old(heapEnd) then memoryEnd else old(heapEnd)
    {
      if regionEnd > heapEnd {
        if Difference(regionEnd, heapStart) > MAX_HEAP_SIZE {
          return false;
        }
        if !mayGrow {
          return false;
        }
        heapEnd := memoryEnd;
      }
      return true;
    }

    /** Hands out new space at the end, if there is room for it. */
    method Extend(size: nat, mayGrow: bool, memoryEnd: nat) returns (p: nat)
      requires Valid() && size < ADDRESS_SPACE
      modifies this`heapEnd, this`sizes, this`next, this`live, this`regions
      ensures Fits(old(next), size) || p == NULL ==> Valid()
      ensures p == NULL <==> RegionAfter(old(next), size) > old(heapEnd) &&
                             (Difference(RegionAfter(old(next), size), heapStart) > MAX_HEAP_SIZE || !mayGrow)
      ensures heapEnd == if p != NULL && RegionAfter(old(next), size) > old(heapEnd) then memoryEnd else old(heapEnd)
      ensures p == NULL ==> sizes == old(sizes) && live == old(live) && regions == old(regions) && next == old(next)
      ensures p != NULL ==>
                && p == old(next) + HEADER && old(next) !in old(live) && live == old(live)[old(next) := size]
                && regions == old(regions) + [old(next)] && sizes == old(sizes)[old(next) := size]
                && next == RegionAfter(old(next), size)
    {
      var regionEnd := RegionAfter(next, size);
      var ok := Reserve(regionEnd, mayGrow, memoryEnd);
      if !ok {
        return NULL;
      }
      p := next + HEADER;
      Bump(size, regionEnd);
    }

    /** Is some region on the free list large enough? */
    ghost predicate HasFree(size: nat)
      reads this
    {
      exists k :: 0 <= k < |chain| && chain[k] in sizes && sizes[chain[k]] >= size
    }

    /** The `k`th region on the free list is the first that is large enough. */
    ghost predicate FirstFree(k: nat, size: nat)
      reads this
    {
      && k < |chain| && chain[k] in sizes && sizes[chain[k]] >= size
      && forall j :: 0 <= j < k ==> chain[j] in sizes && sizes[chain[j]] < size
    }

    /** Hands out a block of at least `size` bytes: the first free region that is large enough,
        or new space at the end, if the size does not wrap around. Memory may refuse to grow. */
    method Malloc(size: nat, mayGrow: bool, memoryEnd: nat) returns (p: nat, ghost k: nat)
      requires Valid() && size < ADDRESS_SPACE
      modifies this
      ensures Fits(old(next), size) || old(HasFree(size)) || p == NULL ==> Valid()
      ensures p == NULL <==> !old(HasFree(size)) && RegionAfter(old(next), size) > old(heapEnd) &&
                             (Difference(RegionAfter(old(next), size), heapStart) > MAX_HEAP_SIZE || !mayGrow)
      ensures p == NULL ==> live == old(live) && chain == old(chain) && regions == old(regions) && next == old(next)
      ensures heapStart == old(heapStart)
      ensures heapEnd == if p != NULL && !old(HasFree(size)) && next > old(heapEnd) then memoryEnd else old(heapEnd)
      ensures p != NULL ==> p >= HEADER && p - HEADER !in old(live) && live == old(live)[p - HEADER := size]
      ensures p != NULL && old(HasFree(size)) ==>
                && old(FirstFree(k, size)) && p - HEADER == old(chain)[k] && chain == Without(old(chain), k)
                && regions == old(regions) && sizes == old(sizes) && next == old(next)
      ensures p != NULL && !old(HasFree(size)) ==>
                && p - HEADER == old(next) && chain == old(chain) && regions == old(regions) + [old(next)]
                && sizes == old(sizes)[old(next) := size] && next == RegionAfter(old(next), size)
    {
      var prev, curr;
      prev, curr, k := FindFree(size);
      if curr != NULL {
        TakeFree(size, prev, curr, k);
        return curr + HEADER, k;
      }
      p := Extend(size, mayGrow, memoryEnd);
    }

    /** Takes a block back: the last region is cut off, any other goes on the free list. */
    method Free(p: nat)
      requires Valid() && (p == NULL || (p >= HEADER && p - HEADER in live))
      modifies this
      ensures Valid()
      ensures p == NULL ==> live == old(live) && chain == old(chain) && regions == old(regions) && next == old(next)
      ensures p != NULL ==>
                && live == old(live) - {p - HEADER} && sizes == old(sizes) && |old(regions)| > 0
                && (if old(regions)[|old(regions)| - 1] == p - HEADER
                    then next == p - HEADER && regions == old(regions)[..|old(regions)| - 1] && chain == old(chain)
                    else next == old(next) && regions == old(regions) && chain == [p - HEADER] + old(chain))
    {
      if p == NULL {
        return;
      }
      var region := p - HEADER;
      assert region in regions;
      LastRegion(regions, sizes, heapStart, next, region);
      RegionKnown(regions, sizes, heapStart, next, region);
      var regionEnd := RegionAfter(region, sizes[region]);
      if regionEnd == next {
        CutOff(region);
      } else {
        LinkFree(region);
      }
    }

    /** Gives the last region's space back. */
    method CutOff(region: nat)
      requires Valid() && region in live && |regions| > 0 && region == regions[|regions| - 1]
      requires region !in regions[..|regions| - 1]
      modifies this`next, this`regions, this`live
      ensures Valid() && next == region && regions == old(regions)[..|old(regions)| - 1] && live == old(live) - {region}
    {
      next := region;
      assert regions == regions[..|regions| - 1] + [region];
      regions := regions[..|regions| - 1];
      live := live - {region};
    }

    /** Puts a region in front of the free list. */
    method LinkFree(region: nat)
      requires Valid() && region in live && region > 0
      modifies this`freeList, this`links, this`chain, this`live
      ensures Valid() && chain == [region] + old(chain) && live == old(live) - {region}
    {
      Linked(chain, links, freeList, region);
      links := links[region := freeList];
      freeList := region;
      chain := [region] + chain;
      live := live - {region};
    }
  }
}
