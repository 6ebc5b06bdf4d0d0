/** The fixed-size pools, and the live allocations of blocks and pools together. */
module HeapPools {
  import opened HeapLayout
  import opened HeapList
  import opened HeapBlocks

  const PAGE_SIZE: nat := 4096
  const POOL_COUNT: nat := 3

  /** pool_sizes */
  function BinSize(i: nat): nat {
    if i == 0 then 32 else if i == 1 then 64 else 128
  }

  predicate OnGrid(off: nat, i: nat) {
    if i == 0 then off % 32 == 0 else if i == 1 then off % 64 == 0 else off % 128 == 0
  }

  /** p is the address of a slot of pool i's page. */
  predicate IsSlot(page: nat, i: nat, p: nat) {
    page + HEADER <= p && OnGrid(p - page - HEADER, i) && p + BinSize(i) <= page + PAGE_SIZE
  }

  function PageBase(p: nat): nat {
    p - p % PAGE_SIZE
  }

  lemma PageBaseOf(page: nat, p: nat)
    requires page % PAGE_SIZE == 0 && page <= p < page + PAGE_SIZE
    ensures PageBase(p) == page
  {
  }

  /** Slots lie a whole number of slot sizes behind the page's header. */
  lemma SlotNumber(page: nat, i: nat, p: nat) returns (j: nat)
    requires i < POOL_COUNT && IsSlot(page, i, p)
    ensures p == page + HEADER + j * BinSize(i)
  {
    j := (p - page - HEADER) / BinSize(i);
  }

  lemma SlotsApart(page: nat, i: nat, p: nat, q: nat)
    requires i < POOL_COUNT && IsSlot(page, i, p) && IsSlot(page, i, q) && p != q
    ensures p + BinSize(i) <= q || q + BinSize(i) <= p
  {
    var j := SlotNumber(page, i, p);
    var l := SlotNumber(page, i, q);
    hide IsSlot, BinSize;
    if j < l {
      assert l * BinSize(i) >= (j + 1) * BinSize(i);
    } else {
      assert j == l || j * BinSize(i) >= (l + 1) * BinSize(i);
    }
  }

  lemma SlotAligned(page: nat, i: nat, p: nat)
    requires i < POOL_COUNT && IsSlot(page, i, p) && page % PAGE_SIZE == 0
    ensures p % ALIGNMENT == 0
  {
    var j := SlotNumber(page, i, p);
    assert BinSize(i) == 16 * (BinSize(i) / 16);
    assert j * BinSize(i) == 16 * (j * (BinSize(i) / 16));
    hide IsSlot, BinSize;
    MultipleOf(page / PAGE_SIZE * 256 + 3 + j * (BinSize(i) / 16), p);
  }

  lemma MultipleOf(n: nat, p: nat)
    requires p == 16 * n
    ensures p % ALIGNMENT == 0
  {
  }

  function PoolBlock(page: nat): Block {
    Block(page, PAGE_SIZE - HEADER, false, PoolPage, Region(page, page + PAGE_SIZE))
  }

  datatype Pools = Pools(free: seq<seq<nat>>, page: seq<nat>, live: seq<set<nat>>, registry: seq<nat>)

  ghost predicate Distinct(s: seq<nat>) {
    forall i, j :: 0 <= i < j < |s| ==> s[i] != s[j]
  }

  /** Every slot of the page is either on the free list, once, or live. */
  ghost predicate PoolOk(i: nat, free: seq<nat>, page: nat, live: set<nat>)
  {
    if page == 0 then free == [] && live == {} else
    && page % PAGE_SIZE == 0
    && Distinct(free) && (forall p :: p in free ==> p !in live)
    && (forall p: nat :: IsSlot(page, i, p) <==> p in free || p in live)
  }

  /** The header of the pool's page counts its live slots. */
  ghost predicate PageOk(i: nat, page: nat, live: set<nat>, h: Headers, bs: seq<Block>) {
    page != 0 ==>
      PoolBlock(page) in bs && page in h && h[page].binSize == BinSize(i) && h[page].used == |live|
  }

  ghost predicate PoolsOk(p: Pools, h: Headers, bs: seq<Block>)
  {
    match p
    case Pools(free, page, live, registry) =>
      && |free| == |page| == |live| == POOL_COUNT
      && (forall i :: 0 <= i < POOL_COUNT ==> PoolOk(i, free[i], page[i], live[i]))
      && (forall i :: 0 <= i < POOL_COUNT ==> PageOk(i, page[i], live[i], h, bs))
      && (forall b :: b in bs && b.kind == PoolPage ==> b.addr in page)
      && Distinct(registry) && (forall x :: x in registry <==> x != 0 && x in page)
  }

  lemma PoolsFrame(p: Pools, bs: seq<Block>, h: Headers, bs': seq<Block>, h': Headers)
    requires PoolsOk(p, h, bs) && PoolsKept(bs, h, bs', h')
    ensures PoolsOk(p, h', bs')
  {
    forall i | 0 <= i < POOL_COUNT
      ensures PageOk(i, p.page[i], p.live[i], h', bs')
    {
      assert PageOk(i, p.page[i], p.live[i], h, bs);
      assert PoolBlock(p.page[i]).kind == PoolPage;
    }
  }

  // ----- telling pool pointers from block pointers

  lemma SlotIn(p: Pools, h: Headers, bs: seq<Block>, i: nat, x: nat) returns (k: nat)
    requires PoolsOk(p, h, bs) && i < POOL_COUNT && (x in p.free[i] || x in p.live[i])
    ensures p.page[i] != 0 && IsSlot(p.page[i], i, x) && PageBase(x) == p.page[i] && p.page[i] in p.registry
    ensures k < |bs| && bs[k] == PoolBlock(p.page[i]) && p.page[i] in h
    ensures h[p.page[i]].binSize == BinSize(i) && h[p.page[i]].used == |p.live[i]|
    ensures p.page[i] % PAGE_SIZE == 0
  {
    assert PoolOk(i, p.free[i], p.page[i], p.live[i]);
    assert PageOk(i, p.page[i], p.live[i], h, bs);
    PageBaseOf(p.page[i], x);
    k :| 0 <= k < |bs| && bs[k] == PoolBlock(p.page[i]);
  }

  /** A block's payload never starts inside a registered pool page. */
  lemma BlockNotInPool(p: Pools, h: Headers, bs: seq<Block>, k: nat)
    requires PoolsOk(p, h, bs) && Tiled(bs) && k < |bs| && bs[k].kind != PoolPage
    ensures PageBase(Payload(bs[k])) !in p.registry
  {
    var base := PageBase(Payload(bs[k]));
    assert BlockOk(bs[k]);
    if base in p.registry {
      var i :| 0 <= i < |p.page| && p.page[i] == base;
      assert PageOk(i, p.page[i], p.live[i], h, bs);
      var j :| 0 <= j < |bs| && bs[j] == PoolBlock(base);
      PayloadsDisjoint(bs, j, k);
      assert false;
    }
  }

  // ----- live allocations

  datatype Alloc = Alloc(ptr: nat, size: nat)

  ghost function BlockAllocs(bs: seq<Block>): set<Alloc> {
    set b | b in bs && !b.free && b.kind != PoolPage :: Alloc(Payload(b), b.size)
  }

  ghost function SlotAllocs(p: Pools): set<Alloc>
    requires |p.live| == POOL_COUNT
  {
    (set x | x in p.live[0] :: Alloc(x, 32)) + (set x | x in p.live[1] :: Alloc(x, 64))
      + (set x | x in p.live[2] :: Alloc(x, 128))
  }

  ghost function Live(bs: seq<Block>, p: Pools): set<Alloc>
    requires |p.live| == POOL_COUNT
  {
    BlockAllocs(bs) + SlotAllocs(p)
  }

  ghost predicate LiveByte(s: set<Alloc>, a: nat) {
    exists x :: x in s && x.ptr <= a < x.ptr + x.size
  }

  ghost predicate DisjointAllocs(x: Alloc, y: Alloc) {
    x.ptr + x.size <= y.ptr || y.ptr + y.size <= x.ptr
  }

  lemma SlotAllocIn(p: Pools, x: Alloc) returns (i: nat)
    requires |p.live| == POOL_COUNT && x in SlotAllocs(p)
    ensures i < POOL_COUNT && x.ptr in p.live[i] && x.size == BinSize(i)
  {
    i := if x.ptr in p.live[0] && x.size == 32 then 0 else if x.ptr in p.live[1] && x.size == 64 then 1 else 2;
  }

  /** Block k holds the allocation: it is its payload, or one slot of it. */
  ghost predicate HomeAt(p: Pools, bs: seq<Block>, x: Alloc, k: nat, i: nat)
    requires |p.live| == |p.page| == POOL_COUNT
  {
    && k < |bs| && Payload(bs[k]) <= x.ptr && x.ptr + x.size <= End(bs[k]) && !bs[k].free
    && if bs[k].kind != PoolPage then x == Alloc(Payload(bs[k]), bs[k].size)
       else i < POOL_COUNT && bs[k] == PoolBlock(p.page[i]) && x.ptr in p.live[i] && x.size == BinSize(i)
            && IsSlot(p.page[i], i, x.ptr)
  }

  lemma Home(p: Pools, h: Headers, bs: seq<Block>, x: Alloc) returns (k: nat, i: nat)
    requires PoolsOk(p, h, bs) && x in Live(bs, p)
    ensures HomeAt(p, bs, x, k, i)
    ensures bs[k].kind == PoolPage ==>
              bs[k].addr in h && h[bs[k].addr].binSize == BinSize(i) && bs[k].addr % PAGE_SIZE == 0
  {
    if x in BlockAllocs(bs) {
      var b :| b in bs && !b.free && b.kind != PoolPage && x == Alloc(Payload(b), b.size);
      k :| 0 <= k < |bs| && bs[k] == b;
      i := 0;
    } else {
      i := SlotAllocIn(p, x);
      k := SlotIn(p, h, bs, i, x.ptr);
    }
  }

  /** Live allocations are aligned and share no byte. */
  lemma LiveDisjoint(p: Pools, h: Headers, bs: seq<Block>, x: Alloc, y: Alloc)
    requires PoolsOk(p, h, bs) && Tiled(bs) && x in Live(bs, p) && y in Live(bs, p)
    ensures x.ptr % ALIGNMENT == 0 && x.ptr > 0 && x.size > 0
    ensures x != y ==> DisjointAllocs(x, y)
  {
    hide PoolsOk, Live, Tiled, IsSlot;
    PoolsShape(p, h, bs);
    var k, i := Home(p, h, bs, x);
    var l, j := Home(p, h, bs, y);
    BlockAligned(bs, k);
    if bs[k].kind == PoolPage {
      SlotAligned(p.page[i], i, x.ptr);
    }
    if k != l {
      PayloadsDisjoint(bs, k, l);
    } else if bs[k].kind == PoolPage && x != y {
      SlotsApart(p.page[i], i, x.ptr, y.ptr);
    }
  }

  lemma BlockAligned(bs: seq<Block>, k: nat)
    requires Tiled(bs) && k < |bs|
    ensures Payload(bs[k]) % ALIGNMENT == 0 && bs[k].addr > 0 && bs[k].size > 0
  {
    assert BlockOk(bs[k]);
  }

  lemma LiveKept(p: Pools, h: Headers, bs: seq<Block>, a: nat)
    requires PoolsOk(p, h, bs) && LiveByte(Live(bs, p), a)
    ensures Kept(bs, a)
  {
    var x :| x in Live(bs, p) && x.ptr <= a < x.ptr + x.size;
    var k, i := Home(p, h, bs, x);
  }

  // ----- how the operations change the set of live allocations

  lemma AllocsReplace(bs: seq<Block>, lo: nat, hi: nat, mid: seq<Block>)
    requires lo <= hi <= |bs|
    ensures BlockAllocs(bs) == BlockAllocs(bs[..lo]) + BlockAllocs(bs[lo..hi]) + BlockAllocs(bs[hi..])
    ensures BlockAllocs(Replace(bs, lo, hi, mid)) == BlockAllocs(bs[..lo]) + BlockAllocs(mid) + BlockAllocs(bs[hi..])
  {
    var a, b, c := bs[..lo], bs[lo..hi], bs[hi..];
    assert bs == a + b + c;
    assert forall x :: x in bs <==> x in a || x in b || x in c;
    assert forall x :: x in a + mid + c <==> x in a || x in mid || x in c;
  }

  /** How much a block serves when `size` bytes are taken from it. */
  function Served(b: Block, size: nat): nat {
    if b.size >= size + HEADER + MIN_SPLIT then size else b.size
  }

  lemma TakeAllocs(bs: seq<Block>, k: nat, size: nat)
    requires k < |bs| && bs[k].free && bs[k].kind != PoolPage
    ensures BlockAllocs(TakeBlocks(bs, k, size)) == BlockAllocs(bs) + {Alloc(Payload(bs[k]), Served(bs[k], size))}
  {
    var mid := if bs[k].size >= size + HEADER + MIN_SPLIT then Cut(bs[k], size) else [bs[k].(free := false)];
    AllocsReplace(bs, k, k + 1, mid);
    assert bs[k..k + 1] == [bs[k]];
    assert BlockAllocs([bs[k]]) == {};
    OneAlloc(mid);
  }

  lemma OneAlloc(mid: seq<Block>)
    requires |mid| > 0 && !mid[0].free && mid[0].kind != PoolPage
    requires forall i :: 0 < i < |mid| ==> mid[i].free
    ensures BlockAllocs(mid) == {Alloc(Payload(mid[0]), mid[0].size)}
  {
    assert mid[0] in mid;
  }

  lemma NoAlloc(mid: seq<Block>)
    requires forall i :: 0 <= i < |mid| ==> mid[i].free || mid[i].kind == PoolPage
    ensures BlockAllocs(mid) == {}
  {
  }

  /** No other block has the payload address of block k. */
  lemma AllocUnique(bs: seq<Block>, k: nat, lo: nat, hi: nat)
    requires Tiled(bs) && lo <= k < hi <= |bs|
    ensures forall x :: x in BlockAllocs(bs[..lo]) + BlockAllocs(bs[hi..]) ==> x.ptr != Payload(bs[k])
  {
    forall x | x in BlockAllocs(bs[..lo]) + BlockAllocs(bs[hi..])
      ensures x.ptr != Payload(bs[k])
    {
      var b :| (b in bs[..lo] || b in bs[hi..]) && x == Alloc(Payload(b), b.size);
      var i :| 0 <= i < |bs| && bs[i] == b && (i < lo || i >= hi);
      AddrsDistinct(bs, i, k);
    }
  }

  lemma ReleaseAllocs(bs: seq<Block>, k: nat)
    requires Tiled(bs) && k < |bs| && !bs[k].free && bs[k].kind != PoolPage
    ensures BlockAllocs(ReleaseBlocks(bs, k)) == BlockAllocs(bs) - {Alloc(Payload(bs[k]), bs[k].size)}
  {
    hide Tiled, BlockAllocs, Replace;
    var lo, hi, mid := ReleaseStart(bs, k), ReleaseEnd(bs, k), [Released(bs, k)];
    AllocsReplace(bs, lo, hi, mid);
    NoAlloc(mid);
    StretchAlloc(bs, lo, k, hi);
    AllocUnique(bs, k, lo, hi);
  }

  lemma StretchAlloc(bs: seq<Block>, lo: nat, k: nat, hi: nat)
    requires lo <= k < hi <= |bs| && !bs[k].free && bs[k].kind != PoolPage
    requires forall i :: lo <= i < hi && i != k ==> bs[i].free
    ensures BlockAllocs(bs[lo..hi]) == {Alloc(Payload(bs[k]), bs[k].size)}
  {
    var s := bs[lo..hi];
    assert s[k - lo] == bs[k];
    forall b | b in s && !b.free
      ensures b == bs[k]
    {
      var i :| 0 <= i < |s| && s[i] == b;
      assert s[i] == bs[lo + i];
    }
  }

  // ----- the pool operations

  ghost function WithUsed(h: Headers, page: nat, used: nat): Headers
    requires page in h
  {
    h[page := h[page].(used := used)]
  }

  lemma UsedCoreOk(c: Core, k: nat, used: nat)
    requires CoreOk(c) && k < |c.bs|
    ensures c.bs[k].addr in c.chain.hdr && Writable(c.bs, c.bs[k].addr)
    ensures CoreOk(c.(chain := c.chain.(hdr := WithUsed(c.chain.hdr, c.bs[k].addr, used))))
  {
    assert HeaderAt(c.chain.hdr, c.bs, k);
    HeaderWritable(c.bs, k);
    var h := WithUsed(c.chain.hdr, c.bs[k].addr, used);
    hide Tiled, HasAddr, Writable;
    forall i | 0 <= i < |c.bs|
      ensures HeaderAt(h, c.bs, i)
    {
      assert HeaderAt(c.chain.hdr, c.bs, i);
    }
  }

  /** Pages of different pools are different. */
  lemma PagesDistinct(p: Pools, h: Headers, bs: seq<Block>, i: nat, j: nat)
    requires PoolsOk(p, h, bs) && i < POOL_COUNT && j < POOL_COUNT && i != j && p.page[i] != 0
    ensures p.page[i] != p.page[j]
  {
    assert PageOk(i, p.page[i], p.live[i], h, bs) && PageOk(j, p.page[j], p.live[j], h, bs);
  }

  /** One pool changes its lists and its page's counter; the others keep theirs. */
  lemma PoolStep(p: Pools, h: Headers, bs: seq<Block>, i: nat, free: seq<nat>, live: set<nat>)
    requires PoolsOk(p, h, bs) && i < POOL_COUNT && p.page[i] != 0 && PoolOk(i, free, p.page[i], live)
    ensures p.page[i] in h
    ensures PoolsOk(p.(free := p.free[i := free], live := p.live[i := live]), WithUsed(h, p.page[i], |live|), bs)
  {
    assert PageOk(i, p.page[i], p.live[i], h, bs);
    var h' := WithUsed(h, p.page[i], |live|);
    forall j | 0 <= j < POOL_COUNT
      ensures PageOk(j, p.page[j], p.live[i := live][j], h', bs)
    {
      assert PageOk(j, p.page[j], p.live[j], h, bs);
      if i != j { PagesDistinct(p, h, bs, i, j); }
    }
    hide PageOk;
    assert forall j :: 0 <= j < POOL_COUNT ==> PoolOk(j, p.free[i := free][j], p.page[j], p.live[i := live][j]);
  }

  /** Popping the first free slot. */
  lemma PopOk(i: nat, free: seq<nat>, page: nat, live: set<nat>)
    requires PoolOk(i, free, page, live) && free != []
    ensures page != 0 && free[0] !in live && PoolOk(i, free[1..], page, live + {free[0]})
    ensures |live + {free[0]}| == |live| + 1
  {
    assert free == [free[0]] + free[1..];
    assert forall p :: p in free <==> p == free[0] || p in free[1..];
  }

  /** Pushing a live slot. */
  lemma PushOk(i: nat, free: seq<nat>, page: nat, live: set<nat>, x: nat)
    requires PoolOk(i, free, page, live) && x in live
    ensures page != 0 && PoolOk(i, [x] + free, page, live - {x})
    ensures |live - {x}| == |live| - 1
  {
    var r := [x] + free;
    assert forall p :: p in r <==> p == x || p in free;
    forall a, b | 0 <= a < b < |r|
      ensures r[a] != r[b]
    {
      assert r[b] == free[b - 1];
      if a > 0 { assert r[a] == free[a - 1]; }
    }
  }

  lemma SlotAllocsAdd(p: Pools, i: nat, x: nat, free: seq<seq<nat>>)
    requires |p.live| == POOL_COUNT && i < POOL_COUNT
    ensures SlotAllocs(p.(free := free, live := p.live[i := p.live[i] + {x}])) == SlotAllocs(p) + {Alloc(x, BinSize(i))}
  {
    var q := p.(free := free, live := p.live[i := p.live[i] + {x}]);
    assert forall y :: (y in q.live[0] <==> y in p.live[0] || (i == 0 && y == x))
                    && (y in q.live[1] <==> y in p.live[1] || (i == 1 && y == x))
                    && (y in q.live[2] <==> y in p.live[2] || (i == 2 && y == x));
  }

  lemma SlotAllocsRemove(p: Pools, i: nat, x: nat, free: seq<seq<nat>>)
    requires |p.live| == POOL_COUNT && i < POOL_COUNT
    ensures SlotAllocs(p.(free := free, live := p.live[i := p.live[i] - {x}])) == SlotAllocs(p) - {Alloc(x, BinSize(i))}
  {
    var q := p.(free := free, live := p.live[i := p.live[i] - {x}]);
    assert forall y :: (y in q.live[0] <==> y in p.live[0] && !(i == 0 && y == x))
                    && (y in q.live[1] <==> y in p.live[1] && !(i == 1 && y == x))
                    && (y in q.live[2] <==> y in p.live[2] && !(i == 2 && y == x));
  }

  // ----- retiring and opening a pool page

  lemma RetireOk(p: Pools, h: Headers, bs: seq<Block>, i: nat, k: nat, h': Headers, registry: seq<nat>)
    requires PoolsOk(p, h, bs) && NoDup(bs) && i < POOL_COUNT && p.page[i] != 0 && p.live[i] == {}
    requires k < |bs| && bs[k] == PoolBlock(p.page[i]) && PoolFields(bs, h, h')
    requires Distinct(registry) && forall x :: x in registry <==> x in p.registry && x != p.page[i]
    ensures PoolsOk(p.(free := p.free[i := []], page := p.page[i := 0], registry := registry), h', Without(bs, k))
  {
    var q := p.(free := p.free[i := []], page := p.page[i := 0], registry := registry);
    var r := Without(bs, k);
    assert forall b :: b in r ==> b in bs;
    forall j | 0 <= j < POOL_COUNT
      ensures PoolOk(j, q.free[j], q.page[j], q.live[j])
      ensures PageOk(j, q.page[j], q.live[j], h', r)
    {
      if j != i {
        assert PoolOk(j, p.free[j], p.page[j], p.live[j]) && PageOk(j, p.page[j], p.live[j], h, bs);
        PagesDistinct(p, h, bs, i, j);
        KeptElement(bs, k, PoolBlock(p.page[j]));
      }
    }
    RetiredPages(p, h, bs, i, k);
    forall x
      ensures x in registry <==> x != 0 && x in q.page
    {
      PagesWithout(p, h, bs, i, x);
    }
  }

  lemma KeptElement(bs: seq<Block>, k: nat, b: Block)
    requires k < |bs| && (b in bs ==> b != bs[k])
    ensures b in bs ==> b in Without(bs, k)
  {
    if b in bs {
      var i :| 0 <= i < |bs| && bs[i] == b;
      assert Without(bs, k)[if i < k then i else i - 1] == b;
    }
  }

  lemma PagesWithout(p: Pools, h: Headers, bs: seq<Block>, i: nat, x: nat)
    requires PoolsOk(p, h, bs) && i < POOL_COUNT && p.page[i] != 0
    ensures x != 0 ==> (x in p.page[i := 0] <==> x in p.page && x != p.page[i])
  {
    var s := p.page[i := 0];
    if x != 0 && x in p.page && x != p.page[i] {
      var j :| 0 <= j < |p.page| && p.page[j] == x;
      assert s[j] == x;
    }
    if x != 0 && x in s {
      var j :| 0 <= j < |s| && s[j] == x;
      PagesDistinct(p, h, bs, i, j);
    }
  }

  lemma RetiredPages(p: Pools, h: Headers, bs: seq<Block>, i: nat, k: nat)
    requires PoolsOk(p, h, bs) && NoDup(bs) && i < POOL_COUNT && p.page[i] != 0
    requires k < |bs| && bs[k] == PoolBlock(p.page[i])
    ensures forall b :: b in Without(bs, k) && b.kind == PoolPage ==> b.addr in p.page[i := 0]
  {
    var r := Without(bs, k);
    forall b | b in r && b.kind == PoolPage
      ensures b.addr in p.page[i := 0]
    {
      var j :| 0 <= j < |r| && r[j] == b;
      assert r[j] == bs[if j < k then j else j + 1];
      PagesWithout(p, h, bs, i, b.addr);
    }
  }

  lemma OpenOk(p: Pools, h: Headers, bs: seq<Block>, i: nat, page: nat, free: seq<nat>, h': Headers)
    requires PoolsOk(p, h, bs) && i < POOL_COUNT && p.page[i] == 0 && page != 0 && PoolOk(i, free, page, {})
    requires forall k :: 0 <= k < |bs| ==> bs[k].addr != page && bs[k].addr > 0
    requires PoolFields(bs, h, h') && page in h' && h'[page].binSize == BinSize(i) && h'[page].used == 0
    ensures PoolsOk(p.(free := p.free[i := free], page := p.page[i := page], registry := p.registry + [page]), h',
                    bs + [PoolBlock(page)])
  {
    var q := p.(free := p.free[i := free], page := p.page[i := page], registry := p.registry + [page]);
    var r := bs + [PoolBlock(page)];
    assert PoolOk(i, p.free[i], p.page[i], p.live[i]);
    forall j | 0 <= j < POOL_COUNT
      ensures PoolOk(j, q.free[j], q.page[j], q.live[j])
      ensures PageOk(j, q.page[j], q.live[j], h', r)
      ensures j != i ==> p.page[j] != page
    {
      if j != i {
        assert PoolOk(j, p.free[j], p.page[j], p.live[j]) && PageOk(j, p.page[j], p.live[j], h, bs);
      }
    }
    hide PoolOk, PageOk;
    forall x
      ensures x in q.page <==> x == page || (x in p.page && x != 0) || (x == 0 && 0 in q.page)
    {
      assert q.page[i] == page;
      if x in p.page && x != 0 {
        var j :| 0 <= j < |p.page| && p.page[j] == x;
        assert q.page[j] == x;
      }
    }
    assert page !in p.registry;
    assert forall b :: b in bs && b.kind == PoolPage ==> b.addr in p.page && b.addr != 0;
  }

  lemma LiveIsKept(p: Pools, h: Headers, bs: seq<Block>)
    requires PoolsOk(p, h, bs)
    ensures forall a: nat :: LiveByte(Live(bs, p), a) ==> Kept(bs, a)
  {
    forall a: nat | LiveByte(Live(bs, p), a)
      ensures Kept(bs, a)
    {
      LiveKept(p, h, bs, a);
    }
  }

  /** A free slot is no live allocation. */
  lemma NotYetLive(p: Pools, h: Headers, bs: seq<Block>, i: nat, x: nat)
    requires PoolsOk(p, h, bs) && Tiled(bs) && i < POOL_COUNT && x in p.free[i]
    ensures forall n :: Alloc(x, n) !in Live(bs, p)
  {
    var k := SlotIn(p, h, bs, i, x);
    assert PoolOk(i, p.free[i], p.page[i], p.live[i]);
    forall n | Alloc(x, n) in Live(bs, p)
      ensures false
    {
      var l, j := Home(p, h, bs, Alloc(x, n));
      if l != k { PayloadsDisjoint(bs, k, l); }
    }
  }

  ghost function UsedCore(c: Core, page: nat, used: nat): Core
    requires page in c.chain.hdr
  {
    c.(chain := c.chain.(hdr := WithUsed(c.chain.hdr, page, used)))
  }

  ghost function PopPools(q: Pools, i: nat): Pools
    requires i < |q.free| == |q.live| && q.free[i] != []
  {
    q.(free := q.free[i := q.free[i][1..]], live := q.live[i := q.live[i] + {q.free[i][0]}])
  }

  lemma TakeSlotOk(c: Core, q: Pools, i: nat)
    requires CoreOk(c) && PoolsOk(q, c.chain.hdr, c.bs) && i < POOL_COUNT && q.free[i] != []
    ensures var p := q.free[i][0]; var page := PageBase(p); var h := c.chain.hdr;
            && p != 0 && page in h && Writable(c.bs, page)
            && (forall n :: Alloc(p, n) !in Live(c.bs, q))
            && var d := UsedCore(c, page, h[page].used + 1);
               && CoreOk(d) && PoolsOk(PopPools(q, i), d.chain.hdr, c.bs)
               && Live(c.bs, PopPools(q, i)) == Live(c.bs, q) + {Alloc(p, BinSize(i))}
  {
    var p := q.free[i][0];
    var k := SlotIn(q, c.chain.hdr, c.bs, i, p);
    PopOk(i, q.free[i], q.page[i], q.live[i]);
    PoolStep(q, c.chain.hdr, c.bs, i, q.free[i][1..], q.live[i] + {p});
    SlotAllocsAdd(q, i, p, q.free[i := q.free[i][1..]]);
    NotYetLive(q, c.chain.hdr, c.bs, i, p);
    UsedCoreOk(c, k, |q.live[i]| + 1);
    hide CoreOk, PoolsOk, Writable, SlotAllocs, BlockAllocs, IsSlot;
  }

  /** The bytes of these allocations read the same. */
  ghost predicate Undisturbed(s: set<Alloc>, b: nat -> int, b': nat -> int) {
    forall a: nat :: LiveByte(s, a) ==> b'(a) == b(a)
  }

  lemma KeptUndisturbed(p: Pools, h: Headers, bs: seq<Block>, b: nat -> int, b': nat -> int)
    requires PoolsOk(p, h, bs) && KeptSame(bs, b, b')
    ensures Undisturbed(Live(bs, p), b, b')
  {
    LiveIsKept(p, h, bs);
  }

  lemma PoolsShape(p: Pools, h: Headers, bs: seq<Block>)
    requires PoolsOk(p, h, bs)
    ensures |p.free| == |p.page| == |p.live| == POOL_COUNT
  {
  }

  ghost function PushPools(q: Pools, i: nat, x: nat): Pools
    requires i < |q.free| == |q.live|
  {
    q.(free := q.free[i := [x] + q.free[i]], live := q.live[i := q.live[i] - {x}])
  }

  lemma PutSlotOk(c: Core, q: Pools, i: nat, x: nat) returns (k: nat)
    requires CoreOk(c) && PoolsOk(q, c.chain.hdr, c.bs) && i < POOL_COUNT && x in q.live[i]
    ensures var page := PageBase(x); var h := c.chain.hdr;
            && page != 0 && page == q.page[i] && page in h && Writable(c.bs, page)
            && h[page].used == |q.live[i]| > 0 && h[page].binSize == BinSize(i)
            && k < |c.bs| && c.bs[k] == PoolBlock(page)
            && var d := UsedCore(c, page, h[page].used - 1);
               && CoreOk(d) && PoolsOk(PushPools(q, i, x), d.chain.hdr, c.bs)
               && Live(c.bs, PushPools(q, i, x)) == Live(c.bs, q) - {Alloc(x, BinSize(i))}
               && d.chain.hdr[page].used == |PushPools(q, i, x).live[i]|
  {
    k := SlotIn(q, c.chain.hdr, c.bs, i, x);
    PushOk(i, q.free[i], q.page[i], q.live[i], x);
    PoolStep(q, c.chain.hdr, c.bs, i, [x] + q.free[i], q.live[i] - {x});
    SlotAllocsRemove(q, i, x, q.free[i := [x] + q.free[i]]);
    NotABlock(q, c.chain.hdr, c.bs, i, x);
    UsedCoreOk(c, k, |q.live[i]| - 1);
    hide CoreOk, PoolsOk, Writable, SlotAllocs, BlockAllocs, IsSlot;
  }

  /** No block's payload starts at a slot. */
  lemma NotABlock(p: Pools, h: Headers, bs: seq<Block>, i: nat, x: nat)
    requires PoolsOk(p, h, bs) && Tiled(bs) && i < POOL_COUNT && x in p.live[i]
    ensures forall n :: Alloc(x, n) !in BlockAllocs(bs)
  {
    var k := SlotIn(p, h, bs, i, x);
    forall n | Alloc(x, n) in BlockAllocs(bs)
      ensures false
    {
      var b :| b in bs && b.kind != PoolPage && Payload(b) == x;
      var l :| 0 <= l < |bs| && bs[l] == b;
      BlockNotInPool(p, h, bs, l);
    }
  }

  lemma FreedBytes(p: Pools, h: Headers, bs: seq<Block>, i: nat, x: nat, b: nat -> int, b': nat -> int)
    requires PoolsOk(p, h, bs) && Tiled(bs) && i < POOL_COUNT && x in p.live[i]
    requires forall a: nat :: Kept(bs, a) && !(x <= a < x + 8) ==> b'(a) == b(a)
    ensures Undisturbed(Live(bs, p) - {Alloc(x, BinSize(i))}, b, b')
  {
    LiveIsKept(p, h, bs);
    var y := Alloc(x, BinSize(i));
    assert y in SlotAllocs(p);
    forall a: nat | LiveByte(Live(bs, p) - {y}, a)
      ensures b'(a) == b(a)
    {
      var z :| z in Live(bs, p) - {y} && z.ptr <= a < z.ptr + z.size;
      LiveDisjoint(p, h, bs, z, y);
      assert LiveByte(Live(bs, p), a);
    }
  }

  lemma UndisturbedSelf(s: set<Alloc>, b: nat -> int)
    ensures Undisturbed(s, b, b)
  {
  }

  lemma UndisturbedTrans(s: set<Alloc>, b: nat -> int, b1: nat -> int, b2: nat -> int)
    requires Undisturbed(s, b, b1) && Undisturbed(s, b1, b2)
    ensures Undisturbed(s, b, b2)
  {
  }

  /** Removing an entry by moving the last one into its place. */
  lemma SwapOut(s: seq<nat>, i: nat)
    requires Distinct(s) && i < |s|
    ensures var r := s[i := s[|s| - 1]][..|s| - 1];
            Distinct(r) && forall x :: x in r <==> x in s && x != s[i]
  {
    var last := |s| - 1;
    var r := s[i := s[last]][..last];
    forall x
      ensures x in r <==> x in s && x != s[i]
    {
      if x in s && x != s[i] {
        var j :| 0 <= j < |s| && s[j] == x;
        assert r[if j == last then i else j] == x;
      }
    }
  }

  /** A page's free list holds only its own slots, and is the pool's whole page
      when none is live. */
  lemma PoolLists(p: Pools, h: Headers, bs: seq<Block>, i: nat)
    requires PoolsOk(p, h, bs) && i < POOL_COUNT
    ensures Distinct(p.registry)
    ensures forall x :: x in p.free[i] ==> PageBase(x) == p.page[i]
  {
    forall x | x in p.free[i]
      ensures PageBase(x) == p.page[i]
    {
      var k := SlotIn(p, h, bs, i, x);
    }
  }

  lemma WithoutAllocs(bs: seq<Block>, k: nat)
    requires k < |bs| && bs[k].kind == PoolPage
    ensures BlockAllocs(Without(bs, k)) == BlockAllocs(bs)
  {
    AllocsReplace(bs, k, k + 1, []);
    assert Replace(bs, k, k + 1, []) == Without(bs, k);
    NoAlloc(bs[k..k + 1]);
    NoAlloc([]);
  }

  lemma SameSlotAllocs(p: Pools, q: Pools)
    requires |p.live| == POOL_COUNT && p.live == q.live
    ensures SlotAllocs(p) == SlotAllocs(q)
  {
  }

  /** Nothing live starts where a free block's payload does. */
  lemma FreeNotLive(p: Pools, h: Headers, bs: seq<Block>, k: nat)
    requires PoolsOk(p, h, bs) && Tiled(bs) && k < |bs| && bs[k].free
    ensures forall n :: Alloc(Payload(bs[k]), n) !in Live(bs, p)
  {
    PoolsNotFree(bs, k);
    BlockNotInPool(p, h, bs, k);
    forall n | Alloc(Payload(bs[k]), n) in Live(bs, p)
      ensures false
    {
      var l, j := Home(p, h, bs, Alloc(Payload(bs[k]), n));
      if bs[l].kind == PoolPage {
        var m := SlotIn(p, h, bs, j, Payload(bs[k]));
      } else {
        AddrsDistinct(bs, k, l);
      }
    }
  }

  /** Handing out a free block adds exactly one live allocation. */
  lemma TakeLive(c: Core, q: Pools, k: nat, size: nat, h': Headers)
    requires CoreOk(c) && PoolsOk(q, c.chain.hdr, c.bs) && k < |c.bs| && c.bs[k].free
    requires PoolsKept(c.bs, c.chain.hdr, TakeBlocks(c.bs, k, size), h')
    ensures PoolsOk(q, h', TakeBlocks(c.bs, k, size))
    ensures Live(TakeBlocks(c.bs, k, size), q) == Live(c.bs, q) + {Alloc(Payload(c.bs[k]), Served(c.bs[k], size))}
    ensures forall n :: Alloc(Payload(c.bs[k]), n) !in Live(c.bs, q)
    ensures Payload(c.bs[k]) != 0
  {
    CoreTiled(c);
    PoolsNotFree(c.bs, k);
    FreeNotLive(q, c.chain.hdr, c.bs, k);
    PoolsFrame(q, c.bs, c.chain.hdr, TakeBlocks(c.bs, k, size), h');
    TakeAllocs(c.bs, k, size);
  }

  /** Releasing a block removes exactly its allocation. */
  lemma ReleaseLive(c: Core, q: Pools, k: nat, h': Headers)
    requires CoreOk(c) && PoolsOk(q, c.chain.hdr, c.bs) && k < |c.bs| && !c.bs[k].free && c.bs[k].kind != PoolPage
    requires PoolsKept(c.bs, c.chain.hdr, ReleaseBlocks(c.bs, k), h')
    ensures PoolsOk(q, h', ReleaseBlocks(c.bs, k))
    ensures Live(ReleaseBlocks(c.bs, k), q) == Live(c.bs, q) - {Alloc(Payload(c.bs[k]), c.bs[k].size)}
  {
    CoreTiled(c);
    BlockNotInPool(q, c.chain.hdr, c.bs, k);
    PoolsFrame(q, c.bs, c.chain.hdr, ReleaseBlocks(c.bs, k), h');
    ReleaseAllocs(c.bs, k);
    var x := Alloc(Payload(c.bs[k]), c.bs[k].size);
    hide ReleaseBlocks, BlockAllocs, SlotAllocs, Tiled;
    if x in SlotAllocs(q) {
      var i := SlotAllocIn(q, x);
      var l := SlotIn(q, c.chain.hdr, c.bs, i, x.ptr);
    }
  }

  /** A new free region changes no live allocation. */
  lemma GrowLive(q: Pools, bs: seq<Block>, b: Block)
    requires |q.live| == POOL_COUNT && b.free
    ensures Live(bs + [b], q) == Live(bs, q)
  {
    assert forall x :: x in bs + [b] <==> x in bs || x == b;
  }

  /** The registry tells a live pool pointer from a live block pointer. */
  lemma PtrType(c: Core, q: Pools, x: Alloc) returns (k: nat, i: nat)
    requires CoreOk(c) && PoolsOk(q, c.chain.hdr, c.bs) && x in Live(c.bs, q)
    ensures x.ptr >= HEADER && k < |c.bs| && i < POOL_COUNT
    ensures PageBase(x.ptr) in q.registry ==>
              && x.ptr in q.live[i] && x.size == BinSize(i)
              && c.bs[k].kind == PoolPage && c.bs[k].addr == PageBase(x.ptr)
              && PageBase(x.ptr) in c.chain.hdr && c.chain.hdr[PageBase(x.ptr)].binSize == BinSize(i)
    ensures PageBase(x.ptr) !in q.registry ==>
              && !c.bs[k].free && c.bs[k].kind != PoolPage && x == Alloc(Payload(c.bs[k]), c.bs[k].size)
              && c.bs[k].addr in c.chain.hdr && c.chain.hdr[c.bs[k].addr].size == c.bs[k].size
  {
    CoreTiled(c);
    k, i := Home(q, c.chain.hdr, c.bs, x);
    HeaderMeaning(c, k);
    if c.bs[k].kind == PoolPage {
      var m := SlotIn(q, c.chain.hdr, c.bs, i, x.ptr);
    } else {
      BlockNotInPool(q, c.chain.hdr, c.bs, k);
      i := 0;
    }
  }

  // ----- resizing in place

  /** Blocks k and k + 1 give way to a longer block k and perhaps a free rest. */
  lemma ResizeAllocs(bs: seq<Block>, k: nat, mid: seq<Block>)
    requires Tiled(bs) && k + 1 < |bs| && !bs[k].free && bs[k].kind != PoolPage && bs[k + 1].free
    requires |mid| > 0 && mid[0].addr == bs[k].addr && !mid[0].free && mid[0].kind != PoolPage
    requires forall i :: 0 < i < |mid| ==> mid[i].free
    ensures BlockAllocs(Replace(bs, k, k + 2, mid)) ==
            BlockAllocs(bs) - {Alloc(Payload(bs[k]), bs[k].size)} + {Alloc(Payload(bs[k]), mid[0].size)}
  {
    AllocsReplace(bs, k, k + 2, mid);
    StretchAlloc(bs, k, k, k + 2);
    OneAlloc(mid);
    AllocUnique(bs, k, k, k + 2);
    hide Tiled, BlockAllocs, Replace;
  }

  /** Resizing block k leaves every other allocation alone. */
  lemma ResizeLive(c: Core, q: Pools, k: nat, mid: seq<Block>, h': Headers)
    requires CoreOk(c) && PoolsOk(q, c.chain.hdr, c.bs)
    requires k + 1 < |c.bs| && !c.bs[k].free && c.bs[k].kind != PoolPage && c.bs[k + 1].free
    requires |mid| > 0 && mid[0].addr == c.bs[k].addr && !mid[0].free && mid[0].kind != PoolPage
    requires forall i :: 0 < i < |mid| ==> mid[i].free
    requires PoolsKept(c.bs, c.chain.hdr, Replace(c.bs, k, k + 2, mid), h')
    ensures PoolsOk(q, h', Replace(c.bs, k, k + 2, mid))
    ensures Live(Replace(c.bs, k, k + 2, mid), q) ==
            Live(c.bs, q) - {Alloc(Payload(c.bs[k]), c.bs[k].size)} + {Alloc(Payload(c.bs[k]), mid[0].size)}
  {
    hide CoreOk, Tiled, PoolsOk, BlockAllocs, SlotAllocs, Replace, PoolsKept;
    PoolsShape(q, c.chain.hdr, c.bs);
    CoreTiled(c);
    ResizeAllocs(c.bs, k, mid);
    PoolsFrame(q, c.bs, c.chain.hdr, Replace(c.bs, k, k + 2, mid), h');
    BlockNotInPool(q, c.chain.hdr, c.bs, k);
    var x := Alloc(Payload(c.bs[k]), c.bs[k].size);
    if x in SlotAllocs(q) {
      var i := SlotAllocIn(q, x);
      var l := SlotIn(q, c.chain.hdr, c.bs, i, x.ptr);
    }
  }

  lemma GrownAsReplace(bs: seq<Block>, k: nat, size: nat)
    requires CanGrow(bs, k, size)
    ensures var mid := Cut(Melt(bs[k], bs[k + 1]), size);
            && GrownBlocks(bs, k, size) == Replace(bs, k, k + 2, mid)
            && |mid| == 2 && mid[0].addr == bs[k].addr && !mid[0].free && mid[0].kind != PoolPage
            && mid[0].size == size && mid[1].free
  {
    var m := Replace(bs, k, k + 2, [Melt(bs[k], bs[k + 1])]);
    assert m[k] == Melt(bs[k], bs[k + 1]);
    assert m[..k] == bs[..k] && m[k + 1..] == bs[k + 2..];
  }

  // ----- writing payload bytes

  /** The headers that a write to bytes lo .. hi leaves intact. */
  function Clear(h: Headers, lo: nat, hi: nat): Headers {
    map a | a in h && !(a < hi && lo < a + HEADER) :: h[a]
  }

  /** Writing inside a live allocation destroys no header in use. */
  lemma ClearOk(c: Core, q: Pools, x: Alloc, lo: nat, hi: nat)
    requires CoreOk(c) && PoolsOk(q, c.chain.hdr, c.bs) && x in Live(c.bs, q) && x.ptr <= lo <= hi <= x.ptr + x.size
    ensures CoreOk(c.(chain := c.chain.(hdr := Clear(c.chain.hdr, lo, hi))))
    ensures PoolsOk(q, Clear(c.chain.hdr, lo, hi), c.bs)
  {
    var k, i := Home(q, c.chain.hdr, c.bs, x);
    var h := Clear(c.chain.hdr, lo, hi);
    forall j | 0 <= j < |c.bs|
      ensures c.bs[j].addr in c.chain.hdr ==> c.bs[j].addr in h && h[c.bs[j].addr] == c.chain.hdr[c.bs[j].addr]
    {
      if j != k { PayloadsDisjoint(c.bs, j, k); }
    }
    ClearRep(c.chain, c.bs, h);
    PoolsFrame(q, c.bs, c.chain.hdr, c.bs, h);
  }

  lemma ClearRep(c: Chain, bs: seq<Block>, h: Headers)
    requires Rep(c, bs)
    requires forall j :: 0 <= j < |bs| ==> bs[j].addr in c.hdr ==> bs[j].addr in h && h[bs[j].addr] == c.hdr[bs[j].addr]
    ensures Rep(c.(hdr := h), bs)
  {
    forall j | 0 <= j < |bs|
      ensures HeaderAt(h, bs, j)
    {
      assert HeaderAt(c.hdr, bs, j);
    }
  }

  /** Writing inside one live allocation disturbs no other. */
  lemma WriteUndisturbed(p: Pools, h: Headers, bs: seq<Block>, x: Alloc, lo: nat, hi: nat,
                         b: nat -> int, b': nat -> int)
    requires PoolsOk(p, h, bs) && Tiled(bs) && x in Live(bs, p) && x.ptr <= lo <= hi <= x.ptr + x.size
    requires forall a: nat :: !(lo <= a < hi) ==> b'(a) == b(a)
    ensures Undisturbed(Live(bs, p) - {x}, b, b')
  {
    forall a: nat | LiveByte(Live(bs, p) - {x}, a)
      ensures b'(a) == b(a)
    {
      var z :| z in Live(bs, p) - {x} && z.ptr <= a < z.ptr + z.size;
      LiveDisjoint(p, h, bs, z, x);
    }
  }

  lemma UndisturbedLess(s: set<Alloc>, t: set<Alloc>, b: nat -> int, b': nat -> int)
    requires Undisturbed(s, b, b') && t <= s
    ensures Undisturbed(t, b, b')
  {
    forall a: nat | LiveByte(t, a)
      ensures b'(a) == b(a)
    {
      var z :| z in t && z.ptr <= a < z.ptr + z.size;
      assert z in s;
      assert LiveByte(s, a);
    }
  }

  function ByteAt(b: nat -> int, p: nat, i: nat): int {
    b(p + i)
  }

  /** The first n bytes at p now are those that were at ptr. */
  ghost predicate SameBytes(b: nat -> int, ptr: nat, b': nat -> int, p: nat, n: nat) {
    forall i: nat :: i < n ==> ByteAt(b', p, i) == ByteAt(b, ptr, i)
  }

  lemma UndisturbedBytes(s: set<Alloc>, x: Alloc, b: nat -> int, b': nat -> int)
    requires Undisturbed(s, b, b') && x in s
    ensures SameBytes(b, x.ptr, b', x.ptr, x.size)
  {
    forall i: nat | i < x.size
      ensures ByteAt(b', x.ptr, i) == ByteAt(b, x.ptr, i)
    {
      assert LiveByte(s, x.ptr + i);
    }
  }

  lemma SameBytesTrans(b: nat -> int, ptr: nat, b1: nat -> int, p: nat, b2: nat -> int, r: nat, n: nat)
    requires SameBytes(b, ptr, b1, p, n) && SameBytes(b1, p, b2, r, n)
    ensures SameBytes(b, ptr, b2, r, n)
  {
  }

  lemma SameBytesLess(b: nat -> int, ptr: nat, b': nat -> int, p: nat, n: nat, m: nat)
    requires SameBytes(b, ptr, b', p, n) && m <= n
    ensures SameBytes(b, ptr, b', p, m)
  {
  }

  /** Allocate, copy and free: the copied bytes and all other allocations. */
  lemma MoveBytes(s: set<Alloc>, x: Alloc, y: Alloc, b: nat -> int, b1: nat -> int, b2: nat -> int, b3: nat -> int)
    requires x in s && y !in s && y.size >= x.size
    requires Undisturbed(s, b, b1)
    requires Undisturbed(s + {y} - {y}, b1, b2) && SameBytes(b1, x.ptr, b2, y.ptr, x.size)
    requires Undisturbed(s + {y} - {x}, b2, b3)
    ensures SameBytes(b, x.ptr, b3, y.ptr, x.size)
    ensures Undisturbed(s - {x}, b, b3)
  {
    hide Undisturbed, SameBytes;
    assert s + {y} - {y} == s;
    UndisturbedBytes(s, x, b, b1);
    UndisturbedBytes(s + {y} - {x}, y, b2, b3);
    SameBytesLess(b2, y.ptr, b3, y.ptr, y.size, x.size);
    SameBytesTrans(b, x.ptr, b1, x.ptr, b2, y.ptr, x.size);
    SameBytesTrans(b, x.ptr, b2, y.ptr, b3, y.ptr, x.size);
    UndisturbedLess(s, s - {x}, b, b1);
    UndisturbedLess(s, s - {x}, b1, b2);
    UndisturbedLess(s + {y} - {x}, s - {x}, b2, b3);
    UndisturbedTrans(s - {x}, b, b1, b2);
    UndisturbedTrans(s - {x}, b, b2, b3);
  }

  /** What freeing the live slot x of pool i does: with its last live slot the
      page leaves the registry, the block list and the pool; otherwise the slot
      heads the pool's free list, the page counts one less, and registry and
      block list stay as they are. */
  ghost predicate SlotFreed(q: Pools, h: Headers, bs: seq<Block>, q': Pools, h': Headers, bs': seq<Block>, i: nat,
                            x: nat)
    requires |q.free| == |q.page| == |q.live| == POOL_COUNT && i < POOL_COUNT
  {
    var page := PageBase(x);
    && q'.live == q.live[i := q.live[i] - {x}]
    && if q.live[i] == {x} then
         && (forall b :: b in q'.registry <==> b in q.registry && b != page)
         && (exists k :: 0 <= k < |bs| && bs[k] == PoolBlock(page) && bs' == bs[..k] + bs[k + 1..])
         && q'.free == q.free[i := []] && q'.page == q.page[i := 0]
       else
         && q'.registry == q.registry && bs' == bs && q'.page == q.page
         && q'.free == q.free[i := [x] + q.free[i]]
         && page in h && page in h' && h[page].used == h'[page].used + 1 == |q.live[i]|
  }

  lemma FreedLast(q: Pools, h: Headers, bs: seq<Block>, q': Pools, h': Headers, bs': seq<Block>, i: nat, k: nat, x: nat)
    requires |q.free| == |q.page| == |q.live| == POOL_COUNT && i < POOL_COUNT && x in q.live[i]
    requires |q.live[i] - {x}| == 0
    requires k < |bs| && bs[k] == PoolBlock(PageBase(x)) && bs' == Without(bs, k)
    requires q'.free == PushPools(q, i, x).free[i := []] && q'.live == PushPools(q, i, x).live
    requires q'.page == q.page[i := 0] && forall b :: b in q'.registry <==> b in q.registry && b != PageBase(x)
    ensures SlotFreed(q, h, bs, q', h', bs', i, x)
  {
    assert q.live[i] - {x} == {};
    assert q.live[i] == {x};
  }

  lemma FreedOne(q: Pools, h: Headers, bs: seq<Block>, h': Headers, i: nat, x: nat)
    requires |q.free| == |q.page| == |q.live| == POOL_COUNT && i < POOL_COUNT && x in q.live[i]
    requires PageBase(x) in h && PageBase(x) in h' && h[PageBase(x)].used == |q.live[i]| == h'[PageBase(x)].used + 1
    requires h'[PageBase(x)].used > 0
    ensures SlotFreed(q, h, bs, PushPools(q, i, x), h', bs, i, x)
  {
  }

  /** A slot is live in one pool only, and its page is registered. */
  lemma SlotHome(p: Pools, h: Headers, bs: seq<Block>, i: nat, j: nat, x: nat)
    requires PoolsOk(p, h, bs) && i < POOL_COUNT && j < POOL_COUNT && x in p.live[i] && x in p.live[j]
    ensures i == j && PageBase(x) in p.registry
  {
    var k := SlotIn(p, h, bs, i, x);
    var l := SlotIn(p, h, bs, j, x);
  }

  lemma SlotLive(bs: seq<Block>, p: Pools, i: nat, x: nat)
    requires |p.live| == POOL_COUNT && i < POOL_COUNT && x in p.live[i]
    ensures Alloc(x, BinSize(i)) in Live(bs, p)
  {
  }

  lemma BlockLive(bs: seq<Block>, p: Pools, k: nat)
    requires |p.live| == POOL_COUNT && k < |bs| && !bs[k].free && bs[k].kind != PoolPage
    ensures Alloc(Payload(bs[k]), bs[k].size) in Live(bs, p)
  {
  }

  /** Growing in place touches no live byte. */
  lemma InPlaceBytes(c: Core, q: Pools, x: Alloc, b: nat -> int, b': nat -> int)
    requires PoolsOk(q, c.chain.hdr, c.bs) && x in Live(c.bs, q)
    ensures KeptSame(c.bs, b, b') ==>
              SameBytes(b, x.ptr, b', x.ptr, x.size) && Undisturbed(Live(c.bs, q) - {x}, b, b')
  {
    if KeptSame(c.bs, b, b') {
      KeptUndisturbed(q, c.chain.hdr, c.bs, b, b');
      UndisturbedBytes(Live(c.bs, q), x, b, b');
      UndisturbedLess(Live(c.bs, q), Live(c.bs, q) - {x}, b, b');
    }
  }

  /** Resizing the allocation at ptr would tear the list. */
  ghost predicate Torn(bs: seq<Block>, ptr: nat, size: nat) {
    exists k :: 0 <= k < |bs| && Payload(bs[k]) == ptr && Tears(bs, k, size)
  }

  lemma TornAt(bs: seq<Block>, k: nat, size: nat)
    requires Tiled(bs) && k < |bs|
    ensures Torn(bs, Payload(bs[k]), size) <==> Tears(bs, k, size)
  {
    hide Tears, Tiled;
    if Torn(bs, Payload(bs[k]), size) {
      var i :| 0 <= i < |bs| && Payload(bs[i]) == Payload(bs[k]) && Tears(bs, i, size);
      if i != k { AddrsDistinct(bs, i, k); }
    }
  }

  /** The block at ptr and the free one after it are together large enough. */
  ghost predicate Widens(bs: seq<Block>, ptr: nat, size: nat) {
    exists k :: 0 <= k < |bs| && Payload(bs[k]) == ptr && WidensAt(bs, k, size)
  }

  ghost predicate WidensAt(bs: seq<Block>, k: nat, size: nat) {
    && k + 1 < |bs| && !bs[k].free && bs[k].kind != PoolPage && bs[k + 1].kind == Inner && bs[k + 1].free
    && bs[k].size + HEADER + bs[k + 1].size >= size
  }

  lemma WidensHere(bs: seq<Block>, k: nat, size: nat)
    requires Tiled(bs) && k < |bs|
    ensures Widens(bs, Payload(bs[k]), size) <==> WidensAt(bs, k, size)
  {
    hide WidensAt, Tiled;
    if Widens(bs, Payload(bs[k]), size) {
      var i :| 0 <= i < |bs| && Payload(bs[i]) == Payload(bs[k]) && WidensAt(bs, i, size);
      if i != k { AddrsDistinct(bs, i, k); }
    }
  }

  lemma SlotNotWidens(p: Pools, h: Headers, bs: seq<Block>, i: nat, x: nat, size: nat)
    requires PoolsOk(p, h, bs) && Tiled(bs) && i < POOL_COUNT && x in p.live[i]
    ensures !Widens(bs, x, size)
  {
    hide PoolsOk, Tiled;
    assert forall k :: 0 <= k < |bs| && !bs[k].free && bs[k].kind != PoolPage ==>
        Alloc(Payload(bs[k]), bs[k].size) in BlockAllocs(bs);
    NotABlock(p, h, bs, i, x);
  }

  lemma SlotNotTorn(p: Pools, h: Headers, bs: seq<Block>, i: nat, x: nat, size: nat)
    requires PoolsOk(p, h, bs) && Tiled(bs) && i < POOL_COUNT && x in p.live[i]
    ensures !Torn(bs, x, size)
  {
    hide PoolsOk, Tiled;
    assert forall k :: 0 <= k < |bs| && !bs[k].free && bs[k].kind != PoolPage ==>
        Alloc(Payload(bs[k]), bs[k].size) in BlockAllocs(bs);
    NotABlock(p, h, bs, i, x);
  }

  lemma NullNotLive(c: Core, q: Pools, n: nat)
    requires CoreOk(c) && PoolsOk(q, c.chain.hdr, c.bs)
    ensures Alloc(0, n) !in Live(c.bs, q)
  {
    if Alloc(0, n) in Live(c.bs, q) {
      var k, i := PtrType(c, q, Alloc(0, n));
    }
  }

  lemma AddrsPositive(bs: seq<Block>)
    requires NoDup(bs)
    ensures forall k :: 0 <= k < |bs| ==> bs[k].addr > 0
  {
  }

  lemma PoolPageAllocs(bs: seq<Block>, b: Block)
    requires b.kind == PoolPage
    ensures BlockAllocs(bs + [b]) == BlockAllocs(bs)
  {
    assert forall x :: x in bs + [b] <==> x in bs || x == b;
  }
}
