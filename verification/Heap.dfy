/** The kernel heap. */
module Heap {
  import opened HeapLayout
  import opened HeapList
  import opened HeapBlocks
  import opened HeapPools

  const PAGES_PER_GROWTH: nat := 4

  /** ALIGN(HEAP_ALIGNMENT, size) */
  function AlignUp(size: nat): (r: nat)
    ensures size <= r < size + ALIGNMENT && r % ALIGNMENT == 0
  {
    (size + 15) / 16 * 16
  }

  lemma AlignUpTwice(size: nat)
    ensures AlignUp(AlignUp(size)) == AlignUp(size)
  {
  }

  /** How many pages the heap grows by for a request. */
  function GrowthPages(size: nat): (r: nat)
    ensures r >= PAGES_PER_GROWTH && r * PAGE_SIZE >= size + HEADER
    ensures r == PAGES_PER_GROWTH || (r - 1) * PAGE_SIZE < size + HEADER
  {
    var pages := (size + HEADER + PAGE_SIZE - 1) / PAGE_SIZE;
    if pages < PAGES_PER_GROWTH then PAGES_PER_GROWTH else pages
  }

  /** The block a region of some pages starts out as. */
  function GrownBlock(virt: nat, pages: nat): Block
    requires pages > 0
  {
    Block(virt, pages * PAGE_SIZE - HEADER, true, First, Region(virt, virt + pages * PAGE_SIZE))
  }

  /** The block can serve a request of this size. */
  predicate Serves(b: Block, size: nat) {
    b.free && b.kind != PoolPage && b.size >= size
  }

  /** Position i is met before k when going round from s. */
  predicate Before(s: nat, i: nat, k: nat) {
    if s <= k then s <= i < k else i >= s || i < k
  }

  /** None of the blocks met before k serves the request. */
  ghost predicate NoneBefore(bs: seq<Block>, s: nat, k: nat, size: nat) {
    forall i :: 0 <= i < |bs| && Before(s, i, k) ==> !Serves(bs[i], size)
  }

  ghost predicate NoneServes(bs: seq<Block>, size: nat) {
    forall i :: 0 <= i < |bs| ==> !Serves(bs[i], size)
  }

  lemma NoneYet(bs: seq<Block>, s: nat, size: nat)
    ensures NoneBefore(bs, s, s, size) && (bs == [] ==> NoneServes(bs, size))
  {
  }

  /** Going past a block that does not serve: on to the next one, or round to
      the head, until the start is met again. */
  lemma Pass(bs: seq<Block>, s: nat, k: nat, size: nat)
    requires s < |bs| && k < |bs| && NoneBefore(bs, s, k, size) && !Serves(bs[k], size)
    ensures k + 1 < |bs| && k + 1 != s ==> NoneBefore(bs, s, k + 1, size)
    ensures k + 1 == |bs| && s > 0 ==> NoneBefore(bs, s, 0, size)
    ensures k + 1 == s || (k + 1 == |bs| && s == 0) ==> NoneServes(bs, size)
  {
  }

  /** The bytes a free slot's list node takes. */
  const NODE: nat := 8

  /** The index of the pool with slots of this size, -1 if there is none. */
  method FindBin(bin: nat) returns (i: int)
    ensures i == -1 ==> forall j :: 0 <= j < POOL_COUNT ==> BinSize(j) != bin
    ensures i != -1 ==> 0 <= i < POOL_COUNT && BinSize(i) == bin
  {
    i := -1;
    for j := 0 to POOL_COUNT
      invariant i == -1 && forall l :: 0 <= l < j ==> BinSize(l) != bin
    {
      if BinSize(j) == bin {
        return j;
      }
    }
  }

  /** The nodes of a free list that are not on the page. */
  method DropPage(free: seq<nat>, base: nat) returns (r: seq<nat>)
    ensures forall p :: p in r <==> p in free && PageBase(p) != base
    ensures (forall p :: p in free ==> PageBase(p) == base) ==> r == []
  {
    r := [];
    for i := 0 to |free|
      invariant (forall p :: p in free ==> PageBase(p) == base) ==> r == []
      invariant forall p :: p in r <==> p in free[..i] && PageBase(p) != base
    {
      assert free[..i + 1] == free[..i] + [free[i]];
      if PageBase(free[i]) != base {
        r := r + [free[i]];
      }
    }
  }

  /** The list malloc takes a block from. */
  ghost function Candidates(bs: seq<Block>, size: nat, virt: nat, grew: bool): seq<Block> {
    if grew then bs + [GrownBlock(virt, GrowthPages(size))] else bs
  }

  /** malloc grew the heap exactly when no block served, and took a serving one. */
  ghost predicate Grew(bs: seq<Block>, bs': seq<Block>, size: nat, virt: nat, grew: bool, k: nat, p: nat) {
    var g := Candidates(bs, size, virt, grew);
    && (grew <==> NoneServes(bs, size))
    && k < |g| && Serves(g[k], size) && p == Payload(g[k]) && bs' == TakeBlocks(g, k, size)
  }

  lemma GrewBounds(bs: seq<Block>, bs': seq<Block>, size: nat, virt: nat, grew: bool, k: nat, p: nat)
    requires Grew(bs, bs', size, virt, grew, k, p)
    ensures var g := Candidates(bs, size, virt, grew);
            k < |g| && Serves(g[k], size) && Served(g[k], size) < size + HEADER + MIN_SPLIT
  {
  }

  lemma SomeServes(bs: seq<Block>, k: nat, size: nat)
    ensures k < |bs| && Serves(bs[k], size) ==> !NoneServes(bs, size)
  {
  }

  lemma GrownServes(bs: seq<Block>, size: nat, virt: nat)
    ensures !NoneServes(bs + [GrownBlock(virt, GrowthPages(size))], size)
  {
    var r := bs + [GrownBlock(virt, GrowthPages(size))];
    assert Serves(r[|bs|], size);
  }

  /** No pool has a free slot large enough. */
  ghost predicate NoSlot(free: seq<seq<nat>>, size: nat)
    requires |free| == POOL_COUNT
  {
    forall i :: 0 <= i < POOL_COUNT ==> size <= BinSize(i) ==> free[i] == []
  }

  /** malloc of this size returns null. */
  ghost predicate NoRoom(free: seq<seq<nat>>, bs: seq<Block>, size: nat, virt: nat)
    requires |free| == POOL_COUNT
  {
    virt == 0 && NoSlot(free, size) && NoneServes(bs, AlignUp(size))
  }

  /** realloc to this size has to move the allocation, and malloc returns null. */
  ghost predicate MovesNowhere(free: seq<seq<nat>>, bs: seq<Block>, ptr: nat, n: nat, size: nat, virt: nat)
    requires |free| == POOL_COUNT
  {
    n < size && !Widens(bs, ptr, size) && NoRoom(free, bs, size, virt)
  }

  /** Pool i is the first that has a free slot large enough. */
  ghost predicate FirstSlot(free: seq<seq<nat>>, size: nat, i: nat)
    requires |free| == POOL_COUNT
  {
    i < POOL_COUNT && size <= BinSize(i) && free[i] != [] && forall j :: 0 <= j < i && size <= BinSize(j) ==>
        free[j] == []
  }

  /** malloc took the first slot of that pool. */
  ghost predicate SlotTaken(q: Pools, q': Pools, size: nat, p: nat, n: nat) {
    && |q.free| == |q.live| == POOL_COUNT
    && exists i: nat :: FirstSlot(q.free, size, i) && p == q.free[i][0] && n == BinSize(i) && q' == PopPools(q, i)
  }

  /** A free list of every slot of a new pool page, the last slot first. */
  method BuildSlots(page: nat, i: nat) returns (free: seq<nat>)
    requires i < POOL_COUNT && page > 0 && page % PAGE_SIZE == 0
    ensures PoolOk(i, free, page, {})
  {
    var data, size := page + HEADER, BinSize(i);
    var slots := (PAGE_SIZE - HEADER) / size;
    free := [];
    for j := 0 to slots
      invariant Distinct(free) && forall p: nat :: p in free <==> IsSlot(page, i, p) && p < data + j * size
    {
      NextSlot(page, i, j);
      free := [data + j * size] + free;
    }
    AllSlots(page, i);
  }

  /** Slot j is the only one between the first j and the first j + 1 slots. */
  lemma NextSlot(page: nat, i: nat, j: nat)
    requires i < POOL_COUNT && j < (PAGE_SIZE - HEADER) / BinSize(i)
    ensures var at := page + HEADER + j * BinSize(i);
            && IsSlot(page, i, at) && page + HEADER + (j + 1) * BinSize(i) == at + BinSize(i)
            && forall p: nat :: IsSlot(page, i, p) && p < at + BinSize(i) ==> p < at || p == at
  {
    assert (j + 1) * BinSize(i) == j * BinSize(i) + BinSize(i);
  }

  lemma AllSlots(page: nat, i: nat)
    requires i < POOL_COUNT
    ensures forall p: nat :: IsSlot(page, i, p) ==> p < page + HEADER + (PAGE_SIZE - HEADER) / BinSize(i) * BinSize(i)
  {
  }

  const MAX_POOL_PAGES: nat := 64

  /** Pages of the initial region. */
  function InitPages(size: nat): (r: nat)
    ensures size > 0 ==> r > 0
  {
    (size + PAGE_SIZE - 1) / PAGE_SIZE
  }

  lemma InitOk(virt: nat, pages: nat, c: Core, q: Pools)
    requires pages > 0 && virt > 0 && virt % PAGE_SIZE == 0
    requires c.bs == [GrownBlock(virt, pages)] && c.lastFit == 0
    requires c.chain == Chain(map[virt := Header(pages * PAGE_SIZE - HEADER, true, false, true, 0, 0, 0, 0)], virt,
                              virt)
    requires q == Pools([[], [], []], [0, 0, 0], [{}, {}, {}], [])
    ensures CoreOk(c) && Sparse(c.bs) && PoolsOk(q, c.chain.hdr, c.bs) && Live(c.bs, q) == {}
  {
    PageAligned(virt, pages);
    assert HeaderAt(c.chain.hdr, c.bs, 0);
    assert forall i :: 0 <= i < POOL_COUNT ==> PoolOk(i, q.free[i], q.page[i], q.live[i]);
  }

  lemma PageAligned(virt: nat, pages: nat)
    requires virt % PAGE_SIZE == 0 && pages > 0
    ensures virt % ALIGNMENT == 0 && (pages * PAGE_SIZE - HEADER) % ALIGNMENT == 0
    ensures pages * PAGE_SIZE - HEADER >= MIN_SPLIT
  {
    assert virt == virt / PAGE_SIZE * 256 * 16;
    assert pages * PAGE_SIZE - HEADER == (pages * 256 - 3) * 16;
  }

  /** Distinct page-aligned pool pages do not overlap. */
  lemma PoolsApart(bs: seq<Block>, pool: seq<nat>, i: nat)
    requires i < |pool| && |bs| == i + 1 && Apart(bs[0], PoolBlock(pool[i]))
    requires forall j :: 0 <= j < i ==> bs[j + 1] == PoolBlock(pool[j])
    requires forall j :: 0 <= j <= i ==> pool[j] % PAGE_SIZE == 0
    requires forall j, l :: 0 <= j < l < |pool| ==> pool[j] != pool[l]
    ensures forall j :: 0 <= j < |bs| ==> Apart(bs[j], PoolBlock(pool[i]))
  {
    forall j | 1 <= j < |bs|
      ensures Apart(bs[j], PoolBlock(pool[i]))
    {
      assert bs[(j - 1) + 1] == PoolBlock(pool[j - 1]);
    }
  }

  lemma FreshPool(bs: seq<Block>, page: nat)
    requires page > 0 && page % PAGE_SIZE == 0
    requires forall i :: 0 <= i < |bs| ==> Apart(bs[i], PoolBlock(page))
    ensures Fresh(bs, PoolBlock(page))
  {
    PageAligned(page, 1);
  }

  class Allocator {
    var hdr: Headers
    var head: nat
    var tail: nat
    var lastFit: nat
    var bytes: nat -> int
    ghost var bs: seq<Block>
    var freeLists: seq<seq<nat>>
    var registry: seq<nat>
    ghost var pages: seq<nat>
    ghost var liveSlots: seq<set<nat>>

    /** heap_init: one free region and the three pool pages, at the addresses
        the virtual allocator gave. */
    constructor (size: nat, virt: nat, pool: seq<nat>)
      requires size > 0 && virt > 0 && virt % PAGE_SIZE == 0 && |pool| == POOL_COUNT
      requires forall i :: 0 <= i < POOL_COUNT ==> pool[i] > 0 && pool[i] % PAGE_SIZE == 0
      requires forall i, j :: 0 <= i < j < POOL_COUNT ==> pool[i] != pool[j]
      requires forall i :: 0 <= i < POOL_COUNT ==> Apart(GrownBlock(virt, InitPages(size)), PoolBlock(pool[i]))
      ensures Valid() && Allocs() == {} && lastFit == 0
      ensures bs == [GrownBlock(virt, InitPages(size)), PoolBlock(pool[0]), PoolBlock(pool[1]), PoolBlock(pool[2])]
    {
      hdr := map[virt := Header(InitPages(size) * PAGE_SIZE - HEADER, true, false, true, 0, 0, 0, 0)];
      head, tail, lastFit := virt, virt, 0;
      bytes := (a: nat) => 0;
      bs := [GrownBlock(virt, InitPages(size))];
      freeLists, registry, pages, liveSlots := [[], [], []], [], [0, 0, 0], [{}, {}, {}];
      new;
      InitOk(virt, InitPages(size), View(), PoolView());
      hide CoreOk, PoolsOk, Sparse, Live, Apart;
      InitPools(pool);
    }

    /** heap_init_pools */
    method InitPools(pool: seq<nat>)
      requires Valid() && |pool| == POOL_COUNT && Allocs() == {} && lastFit == 0 && registry == [] && |bs| == 1
      requires pages == [0, 0, 0] && liveSlots == [{}, {}, {}]
      requires forall i :: 0 <= i < POOL_COUNT ==>
          pool[i] > 0 && pool[i] % PAGE_SIZE == 0 && Apart(bs[0], PoolBlock(pool[i]))
      requires forall i, j :: 0 <= i < j < POOL_COUNT ==> pool[i] != pool[j]
      modifies this
      ensures Valid() && Allocs() == {} && lastFit == 0
      ensures bs == old(bs) + [PoolBlock(pool[0]), PoolBlock(pool[1]), PoolBlock(pool[2])]
    {
      hide CoreOk, PoolsOk, Sparse, Live, Fresh, Apart;
      for i := 0 to POOL_COUNT
        invariant Valid() && Allocs() == {} && lastFit == 0 && |registry| == i
        invariant |bs| == i + 1 && bs[0] == old(bs)[0]
        invariant forall j :: 0 <= j < i ==> bs[j + 1] == PoolBlock(pool[j])
        invariant |pages| == |liveSlots| == POOL_COUNT
        invariant forall j :: i <= j < POOL_COUNT ==> pages[j] == 0 && liveSlots[j] == {}
      {
        PoolsApart(bs, pool, i);
        FreshPool(bs, pool[i]);
        OpenPool(i, pool[i]);
      }
    }

    /** One round of heap_init_pools. */
    method OpenPool(i: nat, page: nat)
      requires Valid() && i < POOL_COUNT && pages[i] == 0 && liveSlots[i] == {} && |registry| < MAX_POOL_PAGES
      requires page > 0 && page % PAGE_SIZE == 0 && Fresh(bs, PoolBlock(page))
      modifies this
      ensures Valid() && bs == old(bs) + [PoolBlock(page)] && pages == old(pages)[i := page]
      ensures lastFit == old(lastFit) && liveSlots == old(liveSlots) && |registry| == |old(registry)| + 1
      ensures Allocs() == old(Allocs())
    {
      hide CoreOk, PoolsOk, Sparse, Fresh, PoolFields, PoolOk, Tiled, KeptSame, NoDup, BlockAllocs, SlotAllocs;
      ghost var q, h, g := PoolView(), hdr, bs;
      PoolsShape(q, h, g);
      CoreTiled(View());
      TiledNoDup(g);
      AppendReady(View(), PoolBlock(page));
      AddrsPositive(g);
      registry := registry + [page];
      Append(page, Header(PAGE_SIZE - HEADER, false, true, false, BinSize(i), 0, 0, 0), PoolBlock(page));
      var free := BuildSlots(page, i);
      freeLists := freeLists[i := free];
      pages := pages[i := page];
      OpenOk(q, h, g, i, page, free, hdr);
      PoolPageAllocs(g, PoolBlock(page));
      SameSlotAllocs(q, PoolView());
    }

    ghost function View(): Core
      reads this
    {
      Core(Chain(hdr, head, tail), bs, lastFit)
    }

    ghost function PoolView(): Pools
      reads this
    {
      Pools(freeLists, pages, liveSlots, registry)
    }

    ghost predicate Valid()
      reads this
    {
      CoreOk(View()) && Sparse(bs) && PoolsOk(PoolView(), hdr, bs)
    }

    /** The allocations handed out and not yet freed. */
    ghost function Allocs(): set<Alloc>
      requires Valid()
      reads this
    {
      Live(bs, PoolView())
    }

    /** Store a header; the bytes it covers take some other value. */
    method Store(h: nat, x: Header, ghost g: seq<Block>)
      requires Writable(g, h)
      modifies this`hdr, this`bytes
      ensures hdr == old(hdr)[h := x]
      ensures KeptSame(g, old(bytes), bytes)
    {
      var before := bytes;
      hdr := hdr[h := x];
      bytes := (a: nat) => if h <= a < h + HEADER then 0 else before(a);
    }

    /** The header writes that cut a block and link the rest in behind it. */
    method CutHeaders(curr: nat, size: nat, ghost g: seq<Block>)
      requires curr in hdr && hdr[curr].size >= size + HEADER
      requires hdr[curr].next != 0 ==> hdr[curr].next in hdr && Writable(g, hdr[curr].next)
      requires hdr[curr].next != curr && hdr[curr].next != SplitAddr(curr, size)
      requires Writable(g, curr) && Writable(g, SplitAddr(curr, size))
      modifies this`hdr, this`tail, this`bytes
      ensures curr in hdr
      ensures SetFree(Chain(hdr, head, tail), curr, false) == CutChain(old(Chain(hdr, head, tail)), curr, size)
      ensures KeptSame(g, old(bytes), bytes)
    {
      hide Writable, Kept;
      ghost var c := Chain(hdr, head, tail);
      var split, next := SplitAddr(curr, size), hdr[curr].next;
      Store(split, Header(hdr[curr].size - size - HEADER, true, false, false, 0, 0, next, curr), g);
      if next != 0 {
        Store(next, hdr[next].(prev := split), g);
      } else {
        tail := split;
      }
      Store(curr, hdr[curr].(next := split, size := size), g);
      assert hdr[curr := hdr[curr].(free := false)] == CutChain(c, curr, size).hdr;
    }

    /** Split a free block if the rest is large enough, and hand it out. */
    method TakeBlock(curr: nat, size: nat, ghost k: nat)
      requires CoreOk(View()) && Sparse(bs) && k < |bs| && bs[k].addr == curr
      requires bs[k].free && Request(size) && bs[k].size >= size
      modifies this`hdr, this`tail, this`lastFit, this`bytes, this`bs
      ensures CoreOk(View()) && Sparse(bs)
      ensures bs == TakeBlocks(old(bs), k, size) && lastFit == curr
      ensures PoolsKept(old(bs), old(hdr), bs, hdr)
      ensures KeptSame(old(bs), old(bytes), bytes)
    {
      hide CoreOk, Sparse, Writable, Kept, CutChain, Replace, Cut, PoolsKept, TakeBlocks;
      ghost var c := View();
      TakeReady(c, k, size);
      TakeCoreOk(c, k, size);
      if hdr[curr].size >= size + HEADER + MIN_SPLIT {
        CutHeaders(curr, size, bs);
      }
      Store(curr, hdr[curr].(free := false), bs);
      lastFit := curr;
      bs := TakeCore(c, k, size).bs;
      assert View() == TakeCore(c, k, size);
    }

    /** The header writes that make a block absorb the next one. */
    method MeltHeaders(a: nat, ghost g: seq<Block>)
      requires a in hdr && hdr[a].next in hdr && hdr[a].next != a
      requires var n := hdr[hdr[a].next].next; n != 0 ==> n in hdr && n != a && Writable(g, n)
      requires Writable(g, a)
      modifies this`hdr, this`tail, this`bytes
      ensures Chain(hdr, head, tail) == MeltChain(old(Chain(hdr, head, tail)), a)
      ensures KeptSame(g, old(bytes), bytes)
    {
      hide Writable, Kept;
      var f := hdr[a].next;
      var next := hdr[f].next;
      Store(a, hdr[a].(size := hdr[a].size + HEADER + hdr[f].size, next := next), g);
      if next != 0 {
        Store(next, hdr[next].(prev := a), g);
      } else {
        tail := a;
      }
    }

    /** A block absorbs the one after it in its region. */
    method AbsorbNext(a: nat, ghost k: nat)
      requires CoreOk(View()) && k + 1 < |bs| && bs[k].addr == a && bs[k + 1].kind == Inner
      modifies this`hdr, this`tail, this`lastFit, this`bytes, this`bs
      ensures CanMelt(old(View()), k) && View() == MeltCore(old(View()), k)
      ensures KeptSame(old(bs), old(bytes), bytes)
    {
      hide CoreOk, Writable, Kept, MeltChain, Replace, PoolsKept;
      ghost var c := View();
      MeltCoreOk(c, k);
      var f := hdr[a].next;
      MeltHeaders(a, bs);
      if lastFit == f {
        lastFit := a;
      }
      bs := MeltCore(c, k).bs;
    }

    /** _free for a block of the list: mark it free, then absorb a free block
        after it and be absorbed by a free block before it. */
    method ReleaseBlock(block: nat, ghost k: nat)
      requires CoreOk(View()) && Sparse(bs) && k < |bs| && bs[k].addr == block
      requires !bs[k].free && bs[k].kind != PoolPage
      modifies this`hdr, this`tail, this`lastFit, this`bytes, this`bs
      ensures CoreOk(View()) && Sparse(bs) && bs == ReleaseBlocks(old(bs), k)
      ensures PoolsKept(old(bs), old(hdr), bs, hdr)
      ensures KeptSame(bs, old(bytes), bytes)
    {
      hide CoreOk, Tiled, Kept, Sparse, ReleaseBlocks, FreedAt, ForwardAt, BackwardAt, PoolsKept;
      ghost var g, h := bs, hdr;
      CoreTiled(View());
      ReleaseSteps(g, k);
      MarkFree(block, k);
      ghost var g1, h1 := bs, hdr;
      AbsorbForward(block, k);
      PoolsKeptTrans(g, h, g1, h1, bs, hdr);
      ghost var g2, h2 := bs, hdr;
      AbsorbBackward(block, k);
      PoolsKeptTrans(g, h, g2, h2, bs, hdr);
    }

    method MarkFree(block: nat, ghost k: nat)
      requires CoreOk(View()) && k < |bs| && bs[k].addr == block && bs[k].kind != PoolPage
      modifies this`hdr, this`bytes, this`bs
      ensures CoreOk(View()) && bs == FreedAt(old(bs), k) && PoolsKept(old(bs), old(hdr), bs, hdr)
      ensures forall a: nat :: Kept(bs, a) ==> Kept(old(bs), a) && bytes(a) == old(bytes)(a)
    {
      hide CoreOk, Writable, Kept, Replace, PoolsKept;
      ghost var c := View();
      FreedCoreOk(c, k, true);
      KeptShrinks(bs, k, k + 1, bs[k].(free := true));
      Store(block, hdr[block].(free := true), bs);
      bs := FreedAt(bs, k);
      assert View() == FreedCore(c, k, true);
    }

    method AbsorbForward(block: nat, ghost k: nat)
      requires CoreOk(View()) && k < |bs| && bs[k].addr == block && bs[k].free
      modifies this`hdr, this`tail, this`lastFit, this`bytes, this`bs
      ensures CoreOk(View()) && bs == ForwardAt(old(bs), k) && PoolsKept(old(bs), old(hdr), bs, hdr)
      ensures forall a: nat :: Kept(bs, a) ==> Kept(old(bs), a) && bytes(a) == old(bytes)(a)
    {
      hide CoreOk, Writable, Kept, Replace, PoolsKept, MeltChain;
      ghost var c := View();
      HeaderMeaning(c, k);
      if k + 1 < |bs| && bs[k + 1].kind == Inner && bs[k + 1].free {
        MeltCoreOk(c, k);
        KeptShrinks(bs, k, k + 2, Melt(bs[k], bs[k + 1]));
      }
      PoolsKeptSelf(bs, hdr);
      var next := hdr[block].next;
      if next != 0 && hdr[next].free && !hdr[next].pool && !hdr[next].boundary {
        AbsorbNext(block, k);
      }
    }

    method AbsorbBackward(block: nat, ghost k: nat)
      requires CoreOk(View()) && k < |bs| && bs[k].addr == block && bs[k].kind != PoolPage
      modifies this`hdr, this`tail, this`lastFit, this`bytes, this`bs
      ensures CoreOk(View()) && bs == BackwardAt(old(bs), k) && PoolsKept(old(bs), old(hdr), bs, hdr)
      ensures forall a: nat :: Kept(bs, a) ==> Kept(old(bs), a) && bytes(a) == old(bytes)(a)
    {
      hide CoreOk, Writable, Kept, Replace, PoolsKept, MeltChain;
      ghost var c := View();
      HeaderMeaning(c, k);
      if k > 0 { HeaderMeaning(c, k - 1); }
      if k > 0 && bs[k].kind == Inner && bs[k - 1].free {
        MeltCoreOk(c, k - 1);
        KeptShrinks(bs, k - 1, k + 1, Melt(bs[k - 1], bs[k]));
      }
      PoolsKeptSelf(bs, hdr);
      var prev := hdr[block].prev;
      if prev != 0 && hdr[prev].free && !hdr[prev].pool && !hdr[block].boundary {
        AbsorbNext(prev, k - 1);
      }
    }

    // ----- growing and unlinking

    /** list_append */
    method Append(a: nat, x: Header, ghost b: Block)
      requires CoreOk(View()) && Fresh(bs, b) && Describes(x, b) && b.addr == a
      modifies this`hdr, this`head, this`tail, this`bytes, this`bs
      ensures CoreOk(View()) && bs == old(bs) + [b] && (old(Sparse(bs)) ==> Sparse(bs))
      ensures PoolFields(old(bs), old(hdr), hdr)
      ensures a in hdr && hdr[a].binSize == x.binSize && hdr[a].used == x.used
      ensures KeptSame(old(bs), old(bytes), bytes)
    {
      hide CoreOk, Fresh, Sparse, PoolFields, Writable, Kept;
      ghost var c := View();
      AppendReady(c, b);
      AppendCoreOk(c, b, x);
      Store(a, x.(next := 0, prev := tail), bs);
      if tail != 0 {
        Store(tail, hdr[tail].(next := a), bs);
      }
      tail := a;
      if head == 0 {
        head := a;
      }
      bs := bs + [b];
      assert head == 0 <==> c.chain.head == 0 && a == 0;
      assert View() == AppendCore(c, b, x);
    }

    /** heap_grow: the region the virtual allocator gave, 0 if none. */
    method Grow(size: nat, virt: nat) returns (ok: bool)
      requires CoreOk(View()) && Sparse(bs)
      requires virt != 0 ==> Fresh(bs, GrownBlock(virt, GrowthPages(size)))
      modifies this`hdr, this`head, this`tail, this`bytes, this`bs
      ensures ok <==> virt != 0
      ensures CoreOk(View()) && Sparse(bs) && PoolsKept(old(bs), old(hdr), bs, hdr)
      ensures bs == if ok then old(bs) + [GrownBlock(virt, GrowthPages(size))] else old(bs)
      ensures KeptSame(old(bs), old(bytes), bytes)
    {
      hide CoreOk, Fresh, Sparse, PoolFields, Kept;
      var pages := (size + HEADER + PAGE_SIZE - 1) / PAGE_SIZE;
      if pages < PAGES_PER_GROWTH {
        pages := PAGES_PER_GROWTH;
      }
      PoolsKeptSelf(bs, hdr);
      if virt == 0 {
        return false;
      }
      Append(virt, Header(pages * PAGE_SIZE - HEADER, true, false, true, 0, 0, 0, 0), GrownBlock(virt, pages));
      return true;
    }

    /** list_unlink of a pool page. */
    method Unlink(bh: nat, ghost k: nat)
      requires CoreOk(View()) && Sparse(bs) && k < |bs| && bs[k].addr == bh && bs[k].kind == PoolPage
      modifies this`hdr, this`head, this`tail, this`lastFit, this`bytes, this`bs
      ensures CoreOk(View()) && Sparse(bs) && bs == Without(old(bs), k)
      ensures PoolFields(old(bs), old(hdr), hdr)
      ensures KeptSame(old(bs), old(bytes), bytes)
    {
      hide CoreOk, Sparse, PoolFields, Writable, Kept, Without;
      ghost var c := View();
      UnlinkReady(c, k);
      UnlinkCoreOk(c, k);
      var prev, next := hdr[bh].prev, hdr[bh].next;
      if prev != 0 {
        Store(prev, hdr[prev].(next := next), bs);
      } else {
        head := next;
      }
      if next != 0 {
        Store(next, hdr[next].(prev := prev), bs);
      } else {
        tail := prev;
      }
      if lastFit == bh {
        lastFit := 0;
      }
      bs := Without(bs, k);
      assert View() == UnlinkCore(c, k);
    }

    // ----- the next-fit scan

    /** Go round the list once from the last fit, up to the first block that
        serves the request. */
    method Scan(size: nat) returns (curr: nat, ghost s: nat, ghost k: nat, ghost steps: nat)
      requires CoreOk(View())
      ensures steps <= |bs|
      ensures curr == 0 ==> NoneServes(bs, size)
      ensures curr != 0 ==> k < |bs| && bs[k].addr == curr && Serves(bs[k], size)
      ensures curr != 0 ==> s < |bs| && bs[s].addr == (if lastFit != 0 then lastFit else head)
      ensures curr != 0 ==> NoneBefore(bs, s, k, size)
    {
      hide CoreOk, Tiled, NoneServes, NoneBefore, NoDup;
      CoreTiled(View());
      var start := if lastFit != 0 then lastFit else head;
      steps, s, k := 0, 0, 0;
      if bs != [] {
        s := StartAt(View());
        k := s;
      }
      NoneYet(bs, s, size);
      TiledNoDup(bs);
      curr := start;
      var wrapped := false;
      while curr != 0
        invariant curr == 0 ==> bs == [] && steps == 0
        invariant curr != 0 ==> k < |bs| && s < |bs| && bs[s].addr == start && bs[k].addr == curr
        invariant curr != 0 ==> if wrapped then k < s && steps == |bs| - s + k else s <= k && steps == k - s
        invariant curr != 0 ==> NoneBefore(bs, s, k, size)
        decreases if wrapped then s - k else |bs| - k + s
      {
        HeaderMeaning(View(), k);
        DistinctAt(bs, s, k);
        if hdr[curr].free && !hdr[curr].pool && hdr[curr].size >= size {
          return;
        }
        Pass(bs, s, k, size);
        steps := steps + 1;
        curr := hdr[curr].next;
        if curr == 0 && !wrapped {
          if start != head {
            curr := head;
            wrapped := true;
            k := 0;
          } else {
            return 0, s, k, steps;
          }
        } else {
          k := k + 1;
        }
        if curr == start {
          return 0, s, k, steps;
        }
      }
    }

    // ----- pools

    /** is_pool_page */
    method IsPoolPage(base: nat) returns (r: bool)
      ensures r <==> base in registry
    {
      for i := 0 to |registry|
        invariant base !in registry[..i]
      {
        if registry[i] == base {
          return true;
        }
      }
      return false;
    }

    method PopSlot(i: nat, ghost g: seq<Block>) returns (p: nat)
      requires i < |freeLists| == |liveSlots| && freeLists[i] != []
      requires PageBase(freeLists[i][0]) in hdr && Writable(g, PageBase(freeLists[i][0]))
      modifies this`hdr, this`bytes, this`freeLists, this`liveSlots
      ensures p == old(freeLists)[i][0] && PoolView() == PopPools(old(PoolView()), i)
      ensures View() == UsedCore(old(View()), PageBase(p), old(hdr)[PageBase(p)].used + 1)
      ensures KeptSame(g, old(bytes), bytes)
    {
      hide Writable, Kept, PageBase;
      p := freeLists[i][0];
      freeLists := freeLists[i := freeLists[i][1..]];
      var bh := PageBase(p);
      Store(bh, hdr[bh].(used := hdr[bh].used + 1), g);
      liveSlots := liveSlots[i := liveSlots[i] + {p}];
    }

    /** Take the first free slot of pool i. */
    method TakeSlot(i: nat) returns (p: nat)
      requires Valid() && i < POOL_COUNT && freeLists[i] != []
      modifies this`hdr, this`bytes, this`freeLists, this`liveSlots
      ensures Valid() && p == old(freeLists)[i][0] && p != 0
      ensures Allocs() == old(Allocs()) + {Alloc(p, BinSize(i))} && forall n :: Alloc(p, n) !in old(Allocs())
      ensures PoolView() == PopPools(old(PoolView()), i)
      ensures Undisturbed(old(Allocs()), old(bytes), bytes)
    {
      hide CoreOk, PoolsOk, Sparse, Writable, KeptSame, Undisturbed, Live, PageBase, UsedCore, PopPools;
      PoolsShape(PoolView(), hdr, bs);
      TakeSlotOk(View(), PoolView(), i);
      ghost var q, h, b := PoolView(), hdr, bytes;
      p := PopSlot(i, bs);
      KeptUndisturbed(q, h, bs, b, bytes);
    }

    /** Put a slot back at the head of pool i's free list. */
    method PushSlot(i: nat, p: nat, ghost g: seq<Block>)
      requires i < |freeLists| == |liveSlots|
      requires PageBase(p) in hdr && Writable(g, PageBase(p)) && hdr[PageBase(p)].used > 0
      modifies this`hdr, this`bytes, this`freeLists, this`liveSlots
      ensures PoolView() == PushPools(old(PoolView()), i, p)
      ensures View() == UsedCore(old(View()), PageBase(p), old(hdr)[PageBase(p)].used - 1)
      ensures forall a: nat :: Kept(g, a) && !(p <= a < p + NODE) ==> bytes(a) == old(bytes)(a)
    {
      hide Writable, Kept, PageBase;
      var before := bytes;
      bytes := (a: nat) => if p <= a < p + NODE then 0 else before(a);
      freeLists := freeLists[i := [p] + freeLists[i]];
      var bh := PageBase(p);
      if hdr[bh].used > 0 {
        Store(bh, hdr[bh].(used := hdr[bh].used - 1), g);
      }
      liveSlots := liveSlots[i := liveSlots[i] - {p}];
    }

    /** Drop one page from the registry; the last entry takes its place. */
    method Unregister(base: nat)
      requires Distinct(registry)
      modifies this`registry
      ensures Distinct(registry) && forall x :: x in registry <==> x in old(registry) && x != base
    {
      for i := 0 to |registry|
        invariant registry == old(registry) && base !in registry[..i]
      {
        if registry[i] == base {
          var last := |registry| - 1;
          SwapOut(registry, i);
          registry := registry[i := registry[last]][..last];
          return;
        }
      }
    }

    /** Retire pool i's page, none of whose slots is live. */
    method Retire(base: nat, i: nat, ghost k: nat)
      requires Valid() && i < POOL_COUNT && pages[i] == base != 0 && liveSlots[i] == {}
      requires k < |bs| && bs[k] == PoolBlock(base)
      modifies this`hdr, this`head, this`tail, this`lastFit, this`bytes, this`bs
      modifies this`freeLists, this`pages, this`registry
      ensures Valid() && Allocs() == old(Allocs()) && freeLists == old(freeLists)[i := []]
      ensures bs == Without(old(bs), k) && pages == old(pages)[i := 0] && liveSlots == old(liveSlots)
      ensures forall b :: b in registry <==> b in old(registry) && b != base
      ensures Undisturbed(Allocs(), old(bytes), bytes)
    {
      hide CoreOk, Tiled, PoolsOk, PoolOk, Sparse, KeptSame, Undisturbed, Distinct, PoolFields, NoDup, BlockAllocs,
        SlotAllocs;
      ghost var q, h, b, g := PoolView(), hdr, bytes, bs;
      PoolsShape(q, h, g);
      CoreTiled(View());
      TiledNoDup(g);
      PoolLists(q, h, g, i);
      var rest := DropPage(freeLists[i], base);
      freeLists := freeLists[i := rest];
      Unregister(base);
      Unlink(base, k);
      pages := pages[i := 0];
      RetireOk(q, h, g, i, k, hdr, registry);
      WithoutAllocs(g, k);
      SameSlotAllocs(q, PoolView());
      KeptUndisturbed(q, h, g, b, bytes);
    }

    /** _free for a pool slot. */
    method FreeSlot(p: nat, ghost j: nat)
      requires Valid() && j < POOL_COUNT && p in liveSlots[j]
      modifies this`hdr, this`head, this`tail, this`lastFit, this`bytes, this`bs
      modifies this`freeLists, this`liveSlots, this`pages, this`registry
      ensures Valid() && Allocs() == old(Allocs()) - {Alloc(p, BinSize(j))}
      ensures Undisturbed(Allocs(), old(bytes), bytes)
      ensures SlotFreed(old(PoolView()), old(hdr), old(bs), PoolView(), hdr, bs, j, p)
    {
      hide CoreOk, Tiled, PoolsOk, Sparse, KeptSame, Kept, Writable, Live, Undisturbed, PushPools, Without, SlotFreed;
      ghost var q, h, b := PoolView(), hdr, bytes;
      PoolsShape(q, h, bs);
      CoreTiled(View());
      ghost var k := PutSlotOk(View(), q, j, p);
      var bh := PageBase(p);
      var i := FindBin(hdr[bh].binSize);
      ghost var g := bs;
      PushSlot(i, p, bs);
      FreedBytes(q, h, bs, j, p, b, bytes);
      ghost var b1 := bytes;
      if hdr[bh].used == 0 {
        Retire(bh, i, k);
        UndisturbedTrans(Allocs(), b, b1, bytes);
        FreedLast(q, h, g, PoolView(), hdr, bs, j, k, p);
      } else {
        FreedOne(q, h, g, hdr, j, p);
      }
    }

    // ----- malloc

    /** The next-fit part of malloc: scan, grow once if nothing serves, take. */
    method ServeBlock(size: nat, virt: nat) returns (p: nat, ghost grew: bool, ghost k: nat)
      requires Valid() && Request(size)
      requires virt != 0 ==> Fresh(bs, GrownBlock(virt, GrowthPages(size)))
      modifies this`hdr, this`head, this`tail, this`lastFit, this`bytes, this`bs
      ensures Valid()
      ensures p == 0 <==> virt == 0 && NoneServes(old(bs), size)
      ensures p == 0 ==> bs == old(bs)
      ensures p != 0 ==> Grew(old(bs), bs, size, virt, grew, k, p)
      ensures p != 0 ==> forall n :: Alloc(p, n) !in old(Allocs())
      ensures Allocs() == old(Allocs()) +
                          if p == 0 then {} else {Alloc(p, Served(Candidates(old(bs), size, virt, grew)[k], size))}
      ensures Undisturbed(old(Allocs()), old(bytes), bytes)
    {
      hide CoreOk, PoolsOk, Sparse, KeptSame, Undisturbed, Live, TakeBlocks, NoneServes, NoneBefore, PoolsKept, Fresh;
      ghost var g, q, h, b := bs, PoolView(), hdr, bytes;
      PoolsShape(q, h, bs);
      var curr;
      ghost var s, steps;
      curr, s, k, steps := Scan(size);
      grew := curr == 0;
      UndisturbedSelf(Live(g, q), b);
      SomeServes(bs, k, size);
      if curr == 0 {
        var ok := Grow(size, virt);
        PoolsFrame(q, g, h, bs, hdr);
        KeptUndisturbed(q, h, g, b, bytes);
        if !ok {
          return 0, grew, k;
        }
        GrowLive(q, g, GrownBlock(virt, GrowthPages(size)));
        curr, s, k, steps := Scan(size);
        GrownServes(g, size, virt);
      }
      ghost var c, b1 := View(), bytes;
      TakeBlock(curr, size, k);
      TakeLive(c, q, k, size, hdr);
      KeptUndisturbed(q, c.chain.hdr, c.bs, b1, bytes);
      UndisturbedTrans(Live(g, q), b, b1, bytes);
      return curr + HEADER, grew, k;
    }

    /** malloc: `virt` is the region the virtual allocator would give, 0 if none. */
    method Malloc(size: nat, virt: nat) returns (p: nat, ghost n: nat)
      requires Valid()
      requires virt != 0 ==> Fresh(bs, GrownBlock(virt, GrowthPages(AlignUp(size))))
      modifies this
      ensures Valid()
      ensures p == 0 <==> size == 0 || (virt == 0 && NoSlot(old(freeLists), size) && NoneServes(old(bs), AlignUp(size)))
      ensures p == 0 ==> Allocs() == old(Allocs()) && bs == old(bs)
      ensures p != 0 ==>
                n >= size && Allocs() == old(Allocs()) + {Alloc(p, n)} && forall m :: Alloc(p, m) !in old(Allocs())
      ensures p != 0 && NoSlot(old(freeLists), size) ==> n < size + ALIGNMENT + HEADER + MIN_SPLIT
      ensures size > 0 && !NoSlot(old(freeLists), size) ==>
                bs == old(bs) && SlotTaken(old(PoolView()), PoolView(), size, p, n)
      ensures size == 0 || NoSlot(old(freeLists), size) ==> PoolView() == old(PoolView())
      ensures p != 0 && NoSlot(old(freeLists), size) ==>
          exists grew, k :: Grew(old(bs), bs, AlignUp(size), virt, grew, k, p)
      ensures Undisturbed(old(Allocs()), old(bytes), bytes)
    {
      hide CoreOk, PoolsOk, Sparse, Undisturbed, Live, NoneServes, Fresh, TakeBlocks, BinSize, AlignUp, Grew;
      n := 0;
      UndisturbedSelf(Allocs(), bytes);
      if size == 0 {
        return 0, 0;
      }
      PoolsShape(PoolView(), hdr, bs);
      var i := 0;
      while i < POOL_COUNT && !(size <= BinSize(i) && freeLists[i] != [])
        invariant i <= POOL_COUNT && forall j :: 0 <= j < i ==> size <= BinSize(j) ==> freeLists[j] == []
      {
        i := i + 1;
      }
      if i < POOL_COUNT {
        assert FirstSlot(freeLists, size, i);
        p := TakeSlot(i);
        return p, BinSize(i);
      }
      ghost var g := bs;
      ghost var grew, k;
      p, grew, k := ServeBlock(AlignUp(size), virt);
      if p != 0 {
        GrewBounds(g, bs, AlignUp(size), virt, grew, k, p);
        n := Served(Candidates(g, AlignUp(size), virt, grew)[k], AlignUp(size));
      }
    }

    /** free of a live pointer; a null pointer is ignored. */
    method Free(p: nat, ghost n: nat)
      requires Valid() && (p != 0 ==> Alloc(p, n) in Allocs())
      modifies this
      ensures Valid() && Allocs() == old(Allocs()) - (if p == 0 then {} else {Alloc(p, n)})
      ensures Undisturbed(Allocs(), old(bytes), bytes)
      ensures forall j :: 0 <= j < POOL_COUNT && p != 0 && p in old(liveSlots)[j] ==>
                SlotFreed(old(PoolView()), old(hdr), old(bs), PoolView(), hdr, bs, j, p)
      ensures p != 0 && (forall j :: 0 <= j < POOL_COUNT ==> p !in old(liveSlots)[j]) ==>
                && PoolView() == old(PoolView())
                && exists k :: 0 <= k < |old(bs)| && Payload(old(bs)[k]) == p && bs == ReleaseBlocks(old(bs), k)
    {
      hide CoreOk, PoolsOk, Sparse, Undisturbed, Live, KeptSame, Kept, PageBase, BinSize, ReleaseBlocks, PoolsKept;
      hide SlotFreed;
      UndisturbedSelf(Allocs(), bytes);
      if p == 0 {
        return;
      }
      ghost var k, i := PtrType(View(), PoolView(), Alloc(p, n));
      PoolsShape(PoolView(), hdr, bs);
      forall j, l | 0 <= j < POOL_COUNT && 0 <= l < POOL_COUNT && p in liveSlots[j] && p in liveSlots[l]
        ensures j == l && PageBase(p) in registry
      {
        SlotHome(PoolView(), hdr, bs, j, l, p);
      }
      var pool := IsPoolPage(PageBase(p));
      if pool {
        FreeSlot(p, i);
      } else {
        ghost var c, b := View(), bytes;
        ReleaseBlock(p - HEADER, k);
        ReleaseLive(c, PoolView(), k, hdr);
        KeptUndisturbed(PoolView(), hdr, bs, b, bytes);
      }
    }

    // ----- realloc

    /** Write the back link of whatever is at `next`. */
    method StorePrev(next: nat, split: nat, ghost g: seq<Block>)
      modifies this`hdr, this`bytes
      ensures hdr == if next in old(hdr) then old(hdr)[next := old(hdr)[next].(prev := split)] else old(hdr)
      ensures Writable(g, next) ==> KeptSame(g, old(bytes), bytes)
    {
      var before := bytes;
      if next in hdr {
        hdr := hdr[next := hdr[next].(prev := split)];
      }
      bytes := (a: nat) => if next <= a < next + HEADER then 0 else before(a);
    }

    /** The writes of growing in place: the new header is in memory before the
        old neighbour's successor is read. */
    method GrowHeaders(curr: nat, size: nat, ghost g: seq<Block>) returns (next: nat)
      requires curr in hdr && hdr[curr].next in hdr && hdr[curr].next != curr
      requires hdr[curr].size < size && hdr[curr].size + HEADER + hdr[hdr[curr].next].size >= size + HEADER
      requires Writable(g, curr) && Writable(g, SplitAddr(curr, size))
      modifies this`hdr, this`tail, this`bytes
      ensures var h := old(hdr); var f := h[h[curr].next];
              next == NextRead(SplitHeader(h[curr].size + f.size - size), size - h[curr].size, f.next)
      ensures next != curr && next != SplitAddr(curr, size) ==>
                Chain(hdr, head, tail) == GrowChain(old(Chain(hdr, head, tail)), curr, size, next)
      ensures next == 0 || Writable(g, next) ==> KeptSame(g, old(bytes), bytes)
    {
      hide Writable, NextRead, Kept, SplitAddr;
      var oldNext := hdr[curr].next;
      var combined, delta, succ := hdr[curr].size + HEADER + hdr[oldNext].size, size - hdr[curr].size,
          hdr[oldNext].next;
      var split := SplitAddr(curr, size);
      ghost var c := Chain(hdr, head, tail);
      Store(curr, hdr[curr].(size := size), g);
      var rest := SplitHeader(combined - size - HEADER);
      next := NextRead(rest, delta, succ);
      Store(split, rest.(next := next, prev := curr), g);
      if next != 0 {
        StorePrev(next, split, g);
      } else {
        tail := split;
      }
      Store(curr, hdr[curr].(next := split), g);
      assert next != curr && next != split ==> hdr == GrowChain(c, curr, size, next).hdr;
    }

    /** Grow a block into the free one after it and keep the rest as a free
        block: the list survives exactly when the growth does not tear it. */
    method GrowInPlace(curr: nat, size: nat, ghost k: nat)
      requires CoreOk(View()) && Sparse(bs) && CanGrow(bs, k, size) && bs[k].addr == curr
      modifies this`hdr, this`tail, this`lastFit, this`bytes, this`bs
      ensures bs == GrownBlocks(old(bs), k, size)
      ensures CoreOk(View()) <==> !Tears(old(bs), k, size)
      ensures CoreOk(View()) ==>
                Sparse(bs) && PoolsKept(old(bs), old(hdr), bs, hdr) && KeptSame(old(bs), old(bytes), bytes)
    {
      hide CoreOk, Sparse, Writable, KeptSame, PoolsKept, GrowChain, GrownBlocks, NextRead;
      ghost var c := View();
      GrowReady(c, k, size);
      GrowCoreOk(c, k, size);
      ghost var rest, delta := hdr[curr].size + hdr[hdr[curr].next].size - size, size - hdr[curr].size;
      NextReadRight(rest, delta, hdr[hdr[curr].next].next);
      var oldNext := hdr[curr].next;
      var next := GrowHeaders(curr, size, bs);
      if lastFit == oldNext {
        lastFit := SplitAddr(curr, size);
      }
      bs := GrownBlocks(bs, k, size);
      assert View() == GrowCore(c, k, size, next);
      if next != AddrAt(c.bs, k + 2) {
        GrowTorn(c, k, size, next);
      }
    }

    /** memcpy into a live allocation; headers it overwrites are lost. */
    method CopyBytes(dst: nat, src: nat, n: nat, ghost x: Alloc)
      requires Valid() && x in Allocs() && x.ptr == dst && n <= x.size
      modifies this`bytes, this`hdr
      ensures Valid() && Allocs() == old(Allocs())
      ensures Undisturbed(Allocs() - {x}, old(bytes), bytes)
      ensures SameBytes(old(bytes), src, bytes, dst, n) && hdr == Clear(old(hdr), dst, dst + n)
    {
      hide CoreOk, Tiled, PoolsOk, Sparse, Live, Undisturbed, Clear;
      CoreTiled(View());
      ClearOk(View(), PoolView(), x, dst, dst + n);
      var before := bytes;
      bytes := (a: nat) => if dst <= a < dst + n then before(src + (a - dst)) else before(a);
      WriteUndisturbed(PoolView(), hdr, bs, x, dst, dst + n, before, bytes);
      hdr := Clear(hdr, dst, dst + n);
    }

    /** Move an allocation to a larger place: malloc, memcpy, free. */
    method Move(ptr: nat, n: nat, size: nat, virt: nat) returns (p: nat, ghost m: nat)
      requires Valid() && Alloc(ptr, n) in Allocs() && n < size && size % ALIGNMENT == 0
      requires virt != 0 ==> Fresh(bs, GrownBlock(virt, GrowthPages(AlignUp(size))))
      modifies this
      ensures Valid()
      ensures p == 0 <==> NoRoom(old(freeLists), old(bs), size, virt)
      ensures p == 0 ==> Allocs() == old(Allocs())
      ensures p != 0 ==> m >= size && Allocs() == old(Allocs()) - {Alloc(ptr, n)} + {Alloc(p, m)}
      ensures p != 0 ==> SameBytes(old(bytes), ptr, bytes, p, n) && forall k :: Alloc(p, k) !in old(Allocs())
      ensures Undisturbed(old(Allocs()) - {Alloc(ptr, n)}, old(bytes), bytes)
    {
      hide CoreOk, PoolsOk, Sparse, Undisturbed, SameBytes, Live, NoneServes, NoSlot, Fresh, AlignUp;
      ghost var s, b, x := Allocs(), bytes, Alloc(ptr, n);
      ghost var k, i := PtrType(View(), PoolView(), x);
      p, m := Malloc(size, virt);
      ghost var b1 := bytes;
      UndisturbedLess(s, s - {x}, b, b1);
      if p != 0 {
        CopyBytes(p, ptr, n, Alloc(p, m));
        ghost var b2 := bytes;
        Free(ptr, n);
        MoveBytes(s, x, Alloc(p, m), b, b1, b2, bytes);
        assert Allocs() == s - {x} + {Alloc(p, m)};
      }
    }

    /** realloc of a pool slot. */
    method ReallocSlot(ptr: nat, size: nat, virt: nat, ghost i: nat) returns (p: nat, ghost m: nat)
      requires Valid() && i < POOL_COUNT && ptr in liveSlots[i] && size % ALIGNMENT == 0
      requires virt != 0 ==> Fresh(bs, GrownBlock(virt, GrowthPages(AlignUp(size))))
      modifies this
      ensures Valid()
      ensures p == 0 <==> BinSize(i) < size && NoRoom(old(freeLists), old(bs), size, virt)
      ensures p == 0 ==> Allocs() == old(Allocs())
      ensures p != 0 ==>
                m >= size && m >= BinSize(i) && Allocs() == old(Allocs()) - {Alloc(ptr, BinSize(i))} + {Alloc(p, m)}
      ensures p != 0 ==> SameBytes(old(bytes), ptr, bytes, p, BinSize(i))
      ensures p == 0 || p == ptr || forall k :: Alloc(p, k) !in old(Allocs())
      ensures Undisturbed(old(Allocs()) - {Alloc(ptr, BinSize(i))}, old(bytes), bytes)
    {
      hide CoreOk, PoolsOk, Sparse, Undisturbed, SameBytes, Live, Fresh, AlignUp, BinSize, PushPools, UsedCore;
      ghost var x := Alloc(ptr, BinSize(i));
      PoolsShape(PoolView(), hdr, bs);
      SlotLive(bs, PoolView(), i, ptr);
      ghost var k := PutSlotOk(View(), PoolView(), i, ptr);
      UndisturbedSelf(Allocs() - {x}, bytes);
      UndisturbedSelf(Allocs(), bytes);
      UndisturbedBytes(Allocs(), x, bytes, bytes);
      var oldSize := hdr[PageBase(ptr)].binSize;
      if size <= oldSize {
        return ptr, oldSize;
      }
      p, m := Move(ptr, oldSize, size, virt);
    }

    /** realloc of a block: absorb the free block after it, whole or in part,
        or move. */
    method ReallocBlock(ptr: nat, size: nat, virt: nat, ghost k: nat) returns (p: nat, ghost m: nat)
      requires Valid() && k < |bs| && !bs[k].free && bs[k].kind != PoolPage && Payload(bs[k]) == ptr && Request(size)
      requires virt != 0 ==> Fresh(bs, GrownBlock(virt, GrowthPages(AlignUp(size))))
      modifies this
      ensures CoreOk(View()) <==> !Tears(old(bs), k, size)
      ensures CoreOk(View()) ==>
                && Valid()
                && Undisturbed(old(Allocs()) - {Alloc(ptr, old(bs[k].size))}, old(bytes), bytes)
                && (p == 0 <==>
                      && old(bs[k].size) < size && !WidensAt(old(bs), k, size)
                      && NoRoom(old(freeLists), old(bs), size, virt))
                && (p == 0 ==> Allocs() == old(Allocs()))
                && (p != 0 ==>
                      && m >= size && m >= old(bs[k].size)
                      && Allocs() == old(Allocs()) - {Alloc(ptr, old(bs[k].size))} + {Alloc(p, m)}
                      && SameBytes(old(bytes), ptr, bytes, p, old(bs[k].size)))
                && (p == 0 || p == ptr || forall l :: Alloc(p, l) !in old(Allocs()))
    {
      hide CoreOk, PoolsOk, Sparse, Undisturbed, SameBytes, Live, Fresh, AlignUp, KeptSame, PoolsKept;
      hide Replace, MeltChain, GrownBlocks, Cut, Tiled;
      ghost var s, b, x, c, q := Allocs(), bytes, Alloc(ptr, bs[k].size), View(), PoolView();
      PoolsShape(q, hdr, bs);
      BlockLive(bs, q, k);
      HeaderMeaning(c, k);
      UndisturbedSelf(s, b);
      UndisturbedBytes(s, x, b, b);
      UndisturbedLess(s, s - {x}, b, b);
      var curr := ptr - HEADER;
      var next, oldSize := hdr[curr].next, hdr[curr].size;
      if oldSize >= size {
        return ptr, oldSize;
      }
      if next != 0 && hdr[next].free && !hdr[next].pool && !hdr[next].boundary {
        var combined := oldSize + HEADER + hdr[next].size;
        if combined >= size {
          if combined >= size + HEADER + MIN_SPLIT {
            GrownAsReplace(bs, k, size);
            GrowInPlace(curr, size, k);
            if CoreOk(View()) {
              ResizeLive(c, q, k, Cut(Melt(c.bs[k], c.bs[k + 1]), size), hdr);
            }
            m := size;
          } else {
            MeltCoreOk(c, k);
            AbsorbNext(curr, k);
            MeltSparse(c, k);
            ResizeLive(c, q, k, [Melt(c.bs[k], c.bs[k + 1])], hdr);
            m := combined;
          }
          p := ptr;
          InPlaceBytes(c, q, x, b, bytes);
          return;
        }
      }
      p, m := Move(ptr, oldSize, size, virt);
    }

    /** realloc: the list survives exactly when an in-place split does not tear
        it; then the caller's bytes and every other allocation's are kept. */
    method Realloc(ptr: nat, size: nat, virt: nat, ghost n: nat) returns (p: nat, ghost m: nat)
      requires Valid() && (ptr != 0 ==> Alloc(ptr, n) in Allocs())
      requires virt != 0 ==> Fresh(bs, GrownBlock(virt, GrowthPages(AlignUp(size))))
      modifies this
      ensures CoreOk(View()) <==> !(ptr != 0 && size != 0 && Torn(old(bs), ptr, AlignUp(size)))
      ensures CoreOk(View()) ==>
                && Valid()
                && Undisturbed(old(Allocs()) - {Alloc(ptr, n)}, old(bytes), bytes)
                && (p == 0 <==>
                      if ptr == 0 then size == 0 || NoRoom(old(freeLists), old(bs), size, virt)
                      else size == 0 || MovesNowhere(old(freeLists), old(bs), ptr, n, AlignUp(size), virt))
                && (p == 0 ==> Allocs() == old(Allocs()) - if ptr != 0 && size == 0 then {Alloc(ptr, n)} else {})
                && (p != 0 ==>
                      && m >= size && Allocs() == old(Allocs()) - {Alloc(ptr, n)} + {Alloc(p, m)}
                      && (ptr != 0 ==> m >= n && SameBytes(old(bytes), ptr, bytes, p, n)))
                && (p == 0 || p == ptr || forall k :: Alloc(p, k) !in old(Allocs()))
    {
      hide CoreOk, PoolsOk, Sparse, Undisturbed, SameBytes, Live, Fresh, AlignUp, BinSize, PageBase, Tears, Torn, Tiled;
      hide NoSlot, NoneServes, Widens, WidensAt;
      ghost var s, b := Allocs(), bytes;
      CoreTiled(View());
      AlignUpTwice(size);
      if ptr == 0 {
        NullNotLive(View(), PoolView(), n);
        p, m := Malloc(size, virt);
        assert s - {Alloc(0, n)} == s;
        return;
      }
      if size == 0 {
        Free(ptr, n);
        return 0, 0;
      }
      ghost var k, i := PtrType(View(), PoolView(), Alloc(ptr, n));
      PoolsShape(PoolView(), hdr, bs);
      var newSize := AlignUp(size);
      var pool := IsPoolPage(PageBase(ptr));
      if pool {
        SlotNotTorn(PoolView(), hdr, bs, i, ptr, newSize);
        SlotNotWidens(PoolView(), hdr, bs, i, ptr, newSize);
        p, m := ReallocSlot(ptr, newSize, virt, i);
      } else {
        TornAt(bs, k, newSize);
        WidensHere(bs, k, newSize);
        p, m := ReallocBlock(ptr, newSize, virt, k);
      }
    }

    /** The caller writes a byte of an allocation it holds. */
    method ClientWrite(p: nat, i: nat, v: int, ghost n: nat)
      requires Valid() && Alloc(p, n) in Allocs() && i < n
      modifies this`bytes, this`hdr
      ensures Valid() && Allocs() == old(Allocs())
      ensures bytes(p + i) == v && Undisturbed(Allocs() - {Alloc(p, n)}, old(bytes), bytes)
      ensures hdr == Clear(old(hdr), p + i, p + i + 1)
    {
      hide CoreOk, Tiled, PoolsOk, Sparse, Live, Undisturbed, Clear;
      ghost var x := Alloc(p, n);
      var a := p + i;
      CoreTiled(View());
      ClearOk(View(), PoolView(), x, a, a + 1);
      var before := bytes;
      bytes := (c: nat) => if c == a then v else before(c);
      WriteUndisturbed(PoolView(), hdr, bs, x, a, a + 1, before, bytes);
      hdr := Clear(hdr, a, a + 1);
    }

    // ----- runs

    /** Whether a realloc of a live pointer would tear the list. */
    method WouldTear(p: nat, size: nat, ghost n: nat) returns (t: bool)
      requires Valid() && Alloc(p, n) in Allocs() && size > 0
      ensures t <==> Torn(bs, p, AlignUp(size))
    {
      hide CoreOk, PoolsOk, Sparse, Live, AlignUp, PageBase, Torn, Tiled, BinSize;
      ghost var k, i := PtrType(View(), PoolView(), Alloc(p, n));
      PoolsShape(PoolView(), hdr, bs);
      CoreTiled(View());
      var newSize := AlignUp(size);
      var pool := IsPoolPage(PageBase(p));
      if pool {
        SlotNotTorn(PoolView(), hdr, bs, i, p, newSize);
        return false;
      }
      TornAt(bs, k, newSize);
      HeaderMeaning(View(), k);
      var curr := p - HEADER;
      var next, oldSize := hdr[curr].next, hdr[curr].size;
      if next == 0 || !hdr[next].free || hdr[next].pool || hdr[next].boundary {
        return false;
      }
      HeaderMeaning(View(), k + 1);
      return oldSize + HEADER + hdr[next].size >= newSize + HEADER + MIN_SPLIT
             && (newSize == oldSize + 32 || (newSize == oldSize + 16 && hdr[next].next != 0));
    }

    /** Whether a region is page aligned and apart from every block, as the ones
        the virtual allocator hands out are. */
    method Unused(virt: nat, pages: nat) returns (ok: bool)
      requires CoreOk(View()) && pages > 0
      ensures ok ==> virt > 0 && Fresh(bs, GrownBlock(virt, pages))
    {
      hide CoreOk, Tiled;
      if virt == 0 || virt % PAGE_SIZE != 0 {
        return false;
      }
      CoreTiled(View());
      PageAligned(virt, pages);
      var curr := head;
      ghost var k := 0;
      if bs != [] { HeaderMeaning(View(), 0); }
      while curr != 0
        invariant k <= |bs| && curr == AddrAt(bs, k) && (curr == 0 <==> k == |bs|)
        invariant forall i :: 0 <= i < k ==> Apart(bs[i], GrownBlock(virt, pages))
        decreases |bs| - k
      {
        HeaderMeaning(View(), k);
        if !(curr + HEADER + hdr[curr].size <= virt || virt + pages * PAGE_SIZE <= curr) {
          return false;
        }
        curr := hdr[curr].next;
        k := k + 1;
        if k < |bs| { HeaderMeaning(View(), k); }
      }
      return true;
    }

    /** The size of a live allocation, from its header or its pool's. */
    method HeldSize(p: nat, ghost n: nat) returns (size: nat)
      requires Valid() && Alloc(p, n) in Allocs()
      ensures size == n
    {
      hide CoreOk, PoolsOk, Sparse, Live, PageBase, BinSize;
      ghost var k, i := PtrType(View(), PoolView(), Alloc(p, n));
      PoolsShape(PoolView(), hdr, bs);
      var pool := IsPoolPage(PageBase(p));
      if pool {
        return hdr[PageBase(p)].binSize;
      }
      return hdr[p - HEADER].size;
    }

    /** Any history of malloc, free, realloc, also of null and to size zero, and
        writes anywhere in what is held, in which the heap grows by unused regions
        and no realloc tears the list, keeps every invariant, and what is live is
        exactly what was live before or was handed out and not taken back. */
    method Run(ops: seq<Op>) returns (held: set<nat>)
      requires Valid()
      modifies this
      ensures Valid() && Holds(Allocs(), held, old(Allocs()))
    {
      hide CoreOk, PoolsOk, Sparse, Live, AlignUp, Fresh, Undisturbed, SameBytes, Torn, NoSlot, NoneServes, NoRoom,
        MovesNowhere, Holds, SlotTaken, SlotFreed, Grew;
      held := {};
      ghost var base := Allocs();
      HoldsNone(base);
      for i := 0 to |ops|
        invariant Valid() && Holds(Allocs(), held, base)
      {
        ghost var s := Allocs();
        match ops[i]
        case DoMalloc(size, virt) =>
          var ok := Unused(virt, GrowthPages(AlignUp(size)));
          var p, n := Malloc(size, if ok then virt else 0);
          if p != 0 {
            HoldsMore(s, held, base, p, n);
            held := held + {p};
          }
        case DoFree(p) =>
          if p in held {
            ghost var n := HeldAs(s, held, base, p);
            NullNotLive(View(), PoolView(), n);
            SoleAlloc(View(), PoolView(), p, n);
            HoldsLess(s, held, base, p, n);
            Free(p, n);
            held := held - {p};
          }
        case DoRealloc(p, size, virt) =>
          if p == 0 || p in held {
            held := DoResize(p, size, virt, held, base);
          }
        case DoWrite(p, at, v) =>
          if p in held {
            ghost var n := HeldAs(s, held, base, p);
            var size := HeldSize(p, n);
            if at < size { ClientWrite(p, at, v, n); }
          }
      }
    }

    /** One realloc of a history. */
    method DoResize(p: nat, size: nat, virt: nat, was: set<nat>, ghost base: set<Alloc>) returns (held: set<nat>)
      requires Valid() && Holds(Allocs(), was, base) && (p == 0 || p in was)
      modifies this
      ensures Valid() && Holds(Allocs(), held, base)
    {
      hide CoreOk, PoolsOk, Sparse, Live, AlignUp, Fresh, Undisturbed, SameBytes, Torn, NoRoom, MovesNowhere, Holds;
      held := was;
      ghost var s := Allocs();
      ghost var n := 0;
      if p != 0 {
        n := HeldAs(s, held, base, p);
        SoleAlloc(View(), PoolView(), p, n);
      }
      NullNotLive(View(), PoolView(), n);
      var ok := Unused(virt, GrowthPages(AlignUp(size)));
      if p != 0 && size != 0 {
        var torn := WouldTear(p, size, n);
        if torn {
          return;
        }
      }
      var r, m := Realloc(p, size, if ok then virt else 0, n);
      assert s - {} == s;
      if r != 0 {
        if p == 0 {
          assert s - {Alloc(0, n)} == s;
          HoldsMore(s, held, base, r, m);
        } else {
          HoldsMoved(s, held, base, p, n, r, m);
        }
        held := held - {p} + {r};
      } else if p != 0 && size == 0 {
        HoldsLess(s, held, base, p, n);
        held := held - {p};
      }
    }
  }

  datatype Op =
    | DoMalloc(size: nat, virt: nat)
    | DoFree(p: nat)
    | DoRealloc(p: nat, size: nat, virt: nat)
    | DoWrite(p: nat, at: nat, v: int)

  /** What was live before is, and beside it exactly one allocation for every
      pointer held. */
  ghost predicate Holds(s: set<Alloc>, held: set<nat>, base: set<Alloc>) {
    && base <= s && 0 !in held
    && (forall x :: x in s ==> (x in base <==> x.ptr !in held))
    && (forall p :: p in held ==> exists n :: Alloc(p, n) in s)
  }

  lemma HoldsNone(s: set<Alloc>)
    ensures Holds(s, {}, s)
  {
  }

  lemma HeldAs(s: set<Alloc>, held: set<nat>, base: set<Alloc>, p: nat) returns (n: nat)
    requires Holds(s, held, base) && p in held
    ensures Alloc(p, n) in s
  {
    n :| Alloc(p, n) in s;
  }

  lemma HoldsMore(s: set<Alloc>, held: set<nat>, base: set<Alloc>, p: nat, n: nat)
    requires Holds(s, held, base) && p != 0 && forall m :: Alloc(p, m) !in s
    ensures Holds(s + {Alloc(p, n)}, held + {p}, base) && p !in held
    ensures held - {0} + {p} == held + {p}
  {
    forall x | x in s
      ensures x.ptr != p
    {
      assert x == Alloc(x.ptr, x.size);
    }
    var t := s + {Alloc(p, n)};
    forall q | q in held + {p}
      ensures exists m :: Alloc(q, m) in t
    {
      if q in held {
        var m :| Alloc(q, m) in s;
        assert Alloc(q, m) in t;
      } else {
        assert Alloc(q, n) in t;
      }
    }
  }

  /** Two live allocations do not share their address. */
  lemma SoleAlloc(c: Core, q: Pools, p: nat, n: nat)
    requires CoreOk(c) && PoolsOk(q, c.chain.hdr, c.bs) && Alloc(p, n) in Live(c.bs, q)
    ensures forall x :: x in Live(c.bs, q) && x.ptr == p ==> x == Alloc(p, n)
  {
    PoolsShape(q, c.chain.hdr, c.bs);
    CoreTiled(c);
    hide Live, PoolsOk;
    forall x | x in Live(c.bs, q) && x.ptr == p
      ensures x == Alloc(p, n)
    {
      LiveDisjoint(q, c.chain.hdr, c.bs, x, Alloc(p, n));
      LiveDisjoint(q, c.chain.hdr, c.bs, Alloc(p, n), x);
    }
  }

  lemma HoldsLess(s: set<Alloc>, held: set<nat>, base: set<Alloc>, p: nat, n: nat)
    requires Holds(s, held, base) && p in held && Alloc(p, n) in s
    requires forall x :: x in s && x.ptr == p ==> x == Alloc(p, n)
    ensures Holds(s - {Alloc(p, n)}, held - {p}, base)
  {
    var t := s - {Alloc(p, n)};
    forall q | q in held - {p}
      ensures exists m :: Alloc(q, m) in t
    {
      var m :| Alloc(q, m) in s;
      assert Alloc(q, m) in t;
    }
  }

  lemma HoldsMoved(s: set<Alloc>, held: set<nat>, base: set<Alloc>, p: nat, n: nat, r: nat, m: nat)
    requires Holds(s, held, base) && p in held && Alloc(p, n) in s && r != 0
    requires forall x :: x in s && x.ptr == p ==> x == Alloc(p, n)
    requires r == p || forall k :: Alloc(r, k) !in s
    ensures Holds(s - {Alloc(p, n)} + {Alloc(r, m)}, held - {p} + {r}, base)
  {
    hide Holds;
    HoldsLess(s, held, base, p, n);
    var t := s - {Alloc(p, n)};
    forall k
      ensures Alloc(r, k) !in t
    {
    }
    HoldsMore(t, held - {p}, base, r, m);
  }

  /** The torn list is reachable: after one malloc on a new heap of four pages,
      growing the block in place by 16 or 32 bytes tears the list, and growing it
      by 48 does not. */
  method TearWitness(growth: nat) returns (a: Allocator)
    requires growth == 16 || growth == 32 || growth == 48
    ensures growth == 48 ==> a.Valid()
    ensures growth != 48 ==> !CoreOk(a.View())
  {
    hide CoreOk, PoolsOk, Sparse, Undisturbed, SameBytes, Live, Fresh, NoSlot, NoneServes, MovesNowhere, Torn, Grew,
      TakeBlocks, Tiled;
    a := new Allocator(16384, 65536, [4096, 8192, 12288]);
    PoolsShape(a.PoolView(), a.hdr, a.bs);
    LargerThanSlots(a.freeLists, 256);
    ghost var before := a.bs;
    SomeServes(before, 0, 256);
    var p, n := a.Malloc(256, 0);
    ghost var grew, k :| Grew(before, a.bs, 256, 0, grew, k, p);
    CoreTiled(a.View());
    FirstTears(before, a.bs, grew, k, p, growth);
    var q, m := a.Realloc(p, 256 + growth, 0, n);
  }

  /** The heap of four pages before and after the first large malloc. */
  lemma FirstTears(before: seq<Block>, bs: seq<Block>, grew: bool, k: nat, p: nat, growth: nat)
    requires before == [GrownBlock(65536, 4), PoolBlock(4096), PoolBlock(8192), PoolBlock(12288)]
    requires Grew(before, bs, 256, 0, grew, k, p) && !NoneServes(before, 256) && Tiled(bs)
    requires growth == 16 || growth == 32 || growth == 48
    ensures p != 0 && (Torn(bs, p, 256 + growth) <==> growth != 48)
  {
    hide NoneServes, Tiled, Torn;
    assert k == 0;
    var b := before[0];
    assert bs == Cut(b, 256) + before[1..];
    TornAt(bs, 0, 256 + growth);
  }

  lemma LargerThanSlots(free: seq<seq<nat>>, size: nat)
    requires |free| == POOL_COUNT && size > 128
    ensures NoSlot(free, size)
  {
  }
}
