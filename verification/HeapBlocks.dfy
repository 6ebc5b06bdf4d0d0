/** What malloc, free and realloc do to the list of blocks, as values. */
module HeapBlocks {
  import opened HeapLayout
  import opened HeapList

  // ----- the block list as one value

  ghost predicate HasAddr(bs: seq<Block>, a: nat) {
    exists k :: 0 <= k < |bs| && bs[k].addr == a
  }

  datatype Core = Core(chain: Chain, bs: seq<Block>, lastFit: nat)

  /** Headers and pointers in memory are the list of a tiled layout, and the
      next-fit pointer is null or points into it. */
  ghost predicate CoreOk(c: Core)
  {
    match c
    case Core(chain, bs, lastFit) =>
      Tiled(bs) && Rep(chain, bs) && (lastFit == 0 || HasAddr(bs, lastFit))
  }

  // ----- bytes that must not be disturbed

  /** A byte of some block's payload that is not free: an allocation's data, or
      part of a pool page. */
  ghost predicate Kept(bs: seq<Block>, a: nat) {
    exists i :: 0 <= i < |bs| && !bs[i].free && Payload(bs[i]) <= a < End(bs[i])
  }

  ghost predicate KeptSame(bs: seq<Block>, b: nat -> int, b': nat -> int) {
    forall a: nat :: Kept(bs, a) ==> b'(a) == b(a)
  }

  /** A header written here overwrites no kept byte. */
  ghost predicate Writable(bs: seq<Block>, h: nat) {
    forall a :: h <= a < h + HEADER ==> !Kept(bs, a)
  }

  lemma HeaderWritable(bs: seq<Block>, i: nat)
    requires Tiled(bs) && i < |bs|
    ensures Writable(bs, bs[i].addr)
  {
    forall a | bs[i].addr <= a < bs[i].addr + HEADER
      ensures !Kept(bs, a)
    {
      forall j | 0 <= j < |bs| && !bs[j].free
        ensures !(Payload(bs[j]) <= a < End(bs[j]))
      {
        if j != i { PayloadsDisjoint(bs, i, j); }
      }
    }
  }

  lemma FreeWritable(bs: seq<Block>, i: nat, h: nat)
    requires Tiled(bs) && i < |bs| && bs[i].free && bs[i].addr <= h && h + HEADER <= End(bs[i])
    ensures Writable(bs, h)
  {
    forall a | h <= a < h + HEADER
      ensures !Kept(bs, a)
    {
      forall j | 0 <= j < |bs| && !bs[j].free
        ensures !(Payload(bs[j]) <= a < End(bs[j]))
      {
        if j != i { PayloadsDisjoint(bs, i, j); }
      }
    }
  }

  // ----- what the operations do to the layout

  /** malloc: block k serves `size` bytes. */
  ghost function TakeBlocks(bs: seq<Block>, k: nat, size: nat): seq<Block>
    requires k < |bs|
  {
    if bs[k].size >= size + HEADER + MIN_SPLIT then Replace(bs, k, k + 1, Cut(bs[k], size))
    else Replace(bs, k, k + 1, [bs[k].(free := false)])
  }

  ghost predicate Request(size: nat) {
    size % ALIGNMENT == 0 && size >= MIN_SPLIT
  }

  lemma TakeLayout(bs: seq<Block>, k: nat, size: nat)
    requires Tiled(bs) && Sparse(bs) && k < |bs| && bs[k].free && Request(size) && bs[k].size >= size
    ensures Tiled(TakeBlocks(bs, k, size)) && Sparse(TakeBlocks(bs, k, size))
    ensures bs[k].kind != PoolPage
  {
    assert BlockOk(bs[k]);
    if k + 1 < |bs| { assert SparseAt(bs, k); }
    if bs[k].size >= size + HEADER + MIN_SPLIT {
      CutKeeps(bs, k, size);
    } else {
      UseKeeps(bs, k, false);
    }
  }

  lemma MeltLast(bs: seq<Block>, k: nat, last: nat)
    requires k + 1 < |bs| && (last == 0 || HasAddr(bs, last))
    ensures var r := Replace(bs, k, k + 2, [Melt(bs[k], bs[k + 1])]);
            HasAddr(r, bs[k].addr) && (last == 0 || last == bs[k + 1].addr || HasAddr(r, last))
  {
    var r := Replace(bs, k, k + 2, [Melt(bs[k], bs[k + 1])]);
    assert r[k].addr == bs[k].addr;
    if last != 0 && last != bs[k + 1].addr {
      var i :| 0 <= i < |bs| && bs[i].addr == last;
      assert r[if i <= k then i else i - 1].addr == last;
    }
  }

  lemma UsedLast(bs: seq<Block>, k: nat, free: bool, last: nat)
    requires k < |bs| && (last == 0 || HasAddr(bs, last))
    ensures last == 0 || HasAddr(Replace(bs, k, k + 1, [bs[k].(free := free)]), last)
  {
    if last != 0 {
      var i :| 0 <= i < |bs| && bs[i].addr == last;
      assert Replace(bs, k, k + 1, [bs[k].(free := free)])[i].addr == last;
    }
  }

  // ----- releasing a block

  ghost function FreedAt(bs: seq<Block>, k: nat): seq<Block>
    requires k < |bs|
  {
    Replace(bs, k, k + 1, [bs[k].(free := true)])
  }

  ghost function ForwardAt(bs: seq<Block>, k: nat): seq<Block>
    requires k < |bs|
  {
    if k + 1 < |bs| && bs[k + 1].kind == Inner && bs[k + 1].free
    then Replace(bs, k, k + 2, [Melt(bs[k], bs[k + 1])]) else bs
  }

  ghost function BackwardAt(bs: seq<Block>, k: nat): seq<Block>
    requires k < |bs|
  {
    if k > 0 && bs[k].kind == Inner && bs[k - 1].free
    then Replace(bs, k - 1, k + 1, [Melt(bs[k - 1], bs[k])]) else bs
  }

  ghost function ReleaseEnd(bs: seq<Block>, k: nat): nat
    requires k < |bs|
  {
    if k + 1 < |bs| && bs[k + 1].kind == Inner && bs[k + 1].free then k + 2 else k + 1
  }

  ghost function ReleaseStart(bs: seq<Block>, k: nat): nat
    requires k < |bs|
  {
    if k > 0 && bs[k].kind == Inner && bs[k - 1].free then k - 1 else k
  }

  /** Bytes a block gains from a free block after it. */
  ghost function Absorbed(bs: seq<Block>, k: nat): nat
    requires k < |bs|
  {
    if ReleaseEnd(bs, k) == k + 2 then HEADER + bs[k + 1].size else 0
  }

  /** The free block that a release leaves. */
  ghost function Released(bs: seq<Block>, k: nat): Block
    requires k < |bs|
  {
    var lo := ReleaseStart(bs, k);
    bs[lo].(size := (if lo < k then bs[lo].size + HEADER else 0) + (bs[k].size + Absorbed(bs, k)), free := true)
  }

  /** The released block and its free neighbours become one free block; the
      rest of the list stays. */
  ghost function ReleaseBlocks(bs: seq<Block>, k: nat): seq<Block>
    requires k < |bs|
  {
    Replace(bs, ReleaseStart(bs, k), ReleaseEnd(bs, k), [Released(bs, k)])
  }

  /** Freeing, absorbing forward and being absorbed backward make the release. */
  lemma ReleaseSteps(bs: seq<Block>, k: nat)
    requires Sparse(bs) && k < |bs| && !bs[k].free
    ensures var r := FreedAt(bs, k);
            && k < |r| && r[k].addr == bs[k].addr && r[k].free && r[k].kind == bs[k].kind
            && var r2 := ForwardAt(r, k);
               && k < |r2| && r2[k].addr == bs[k].addr && r2[k].kind == bs[k].kind
               && BackwardAt(r2, k) == ReleaseBlocks(bs, k)
    ensures Sparse(ReleaseBlocks(bs, k))
  {
    ReleaseSparse(bs, k);
    hide Sparse;
    ForwardStep(bs, k);
    BackwardStep(bs, k);
  }

  lemma ForwardStep(bs: seq<Block>, k: nat)
    requires k < |bs|
    ensures var r := FreedAt(bs, k);
            && k < |r| && r[k].addr == bs[k].addr && r[k].free && r[k].kind == bs[k].kind
            && ForwardAt(r, k) == Replace(bs, k, ReleaseEnd(bs, k),
                                          [bs[k].(free := true, size := bs[k].size + Absorbed(bs, k))])
  {
    var r := FreedAt(bs, k);
    assert r == bs[k := bs[k].(free := true)];
    if ReleaseEnd(bs, k) == k + 2 {
      assert ForwardAt(r, k) == r[..k] + [Melt(r[k], r[k + 1])] + r[k + 2..];
    }
  }

  lemma BackwardStep(bs: seq<Block>, k: nat)
    requires k < |bs|
    ensures var b := bs[k].(free := true, size := bs[k].size + Absorbed(bs, k));
            var r := Replace(bs, k, ReleaseEnd(bs, k), [b]);
            k < |r| && r[k] == b && BackwardAt(r, k) == ReleaseBlocks(bs, k)
  {
    var b := bs[k].(free := true, size := bs[k].size + Absorbed(bs, k));
    var r := Replace(bs, k, ReleaseEnd(bs, k), [b]);
    assert r[k] == b && r[..k] == bs[..k] && r[k + 1..] == bs[ReleaseEnd(bs, k)..];
    if ReleaseStart(bs, k) < k {
      assert r[k - 1] == bs[k - 1] && r[..k - 1] == bs[..k - 1];
    }
  }

  lemma ReleaseSparse(bs: seq<Block>, k: nat)
    requires Sparse(bs) && k < |bs|
    ensures Sparse(ReleaseBlocks(bs, k))
  {
    if k > 1 { assert SparseAt(bs, k - 2); }
    if k + 2 < |bs| { assert SparseAt(bs, k + 1); }
    ReplaceSparse(bs, ReleaseStart(bs, k), ReleaseEnd(bs, k), [Released(bs, k)]);
  }

  /** A free block in place of a stretch adds no kept byte. */
  lemma KeptShrinks(bs: seq<Block>, lo: nat, hi: nat, m: Block)
    requires lo < hi <= |bs| && m.free
    ensures forall a :: Kept(Replace(bs, lo, hi, [m]), a) ==> Kept(bs, a)
  {
    var r := Replace(bs, lo, hi, [m]);
    forall a: nat | Kept(r, a)
      ensures Kept(bs, a)
    {
      var i :| 0 <= i < |r| && !r[i].free && Payload(r[i]) <= a < End(r[i]);
      assert r[i] == bs[if i < lo then i else i - 1 + (hi - lo)];
    }
  }

  lemma PoolsNotFree(bs: seq<Block>, i: nat)
    requires Tiled(bs) && i < |bs|
    ensures bs[i].kind == PoolPage ==> !bs[i].free
  {
    assert BlockOk(bs[i]);
  }

  /** Everything absorbing block k + 1 into block k needs and gives. */
  lemma MeltReady(c: Chain, bs: seq<Block>, k: nat)
    requires Tiled(bs) && Rep(c, bs) && k + 1 < |bs| && bs[k + 1].kind == Inner
    ensures var a := bs[k].addr;
            && a in c.hdr && c.hdr[a].next == bs[k + 1].addr && c.hdr[a].next in c.hdr && c.hdr[a].next != a
            && Writable(bs, a)
            && (var n := c.hdr[c.hdr[a].next].next; n != 0 ==> n in c.hdr && n != a && Writable(bs, n))
            && Rep(MeltChain(c, a), Replace(bs, k, k + 2, [Melt(bs[k], bs[k + 1])]))
    ensures Tiled(Replace(bs, k, k + 2, [Melt(bs[k], bs[k + 1])]))
  {
    TiledNoDup(bs);
    Neighbours(c, bs, k);
    Neighbours(c, bs, k + 1);
    MeltRep(c, bs, k);
    MeltKeeps(bs, k);
    HeaderWritable(bs, k);
    if k + 2 < |bs| {
      HeaderWritable(bs, k + 2);
      AddrsDistinct(bs, k, k + 2);
    }
    hide Tiled, Rep, NoDup, Writable;
  }

  // ----- pool pages are left alone

  ghost predicate SamePools(bs: seq<Block>, bs': seq<Block>) {
    forall b: Block :: b.kind == PoolPage ==> (b in bs <==> b in bs')
  }

  /** The pool bookkeeping in a pool page's header. */
  ghost predicate PoolFields(bs: seq<Block>, h: Headers, h': Headers) {
    forall b :: b in bs && b.kind == PoolPage && b.addr in h ==>
      b.addr in h' && h'[b.addr].binSize == h[b.addr].binSize && h'[b.addr].used == h[b.addr].used
  }

  ghost predicate PoolsKept(bs: seq<Block>, h: Headers, bs': seq<Block>, h': Headers) {
    SamePools(bs, bs') && PoolFields(bs, h, h')
  }

  lemma PoolsKeptTrans(bs: seq<Block>, h: Headers, bs1: seq<Block>, h1: Headers, bs2: seq<Block>, h2: Headers)
    requires PoolsKept(bs, h, bs1, h1) && PoolsKept(bs1, h1, bs2, h2)
    ensures PoolsKept(bs, h, bs2, h2)
  {
  }

  lemma ReplaceSamePools(bs: seq<Block>, lo: nat, hi: nat, mid: seq<Block>)
    requires lo <= hi <= |bs|
    requires forall i :: lo <= i < hi ==> bs[i].kind != PoolPage
    requires forall b :: b in mid ==> b.kind != PoolPage
    ensures SamePools(bs, Replace(bs, lo, hi, mid))
  {
    var r := Replace(bs, lo, hi, mid);
    forall b: Block | b.kind == PoolPage
      ensures b in bs <==> b in r
    {
      assert bs == bs[..lo] + bs[lo..hi] + bs[hi..];
      assert forall x :: x in bs[lo..hi] ==> x.kind != PoolPage;
    }
  }

  // ----- the operations on headers, pointers and layout together

  ghost function FreedCore(c: Core, k: nat, free: bool): Core
    requires k < |c.bs| && c.bs[k].addr in c.chain.hdr
  {
    Core(SetFree(c.chain, c.bs[k].addr, free), Replace(c.bs, k, k + 1, [c.bs[k].(free := free)]), c.lastFit)
  }

  lemma FreedCoreOk(c: Core, k: nat, free: bool)
    requires CoreOk(c) && k < |c.bs| && c.bs[k].kind != PoolPage
    ensures c.bs[k].addr in c.chain.hdr && Writable(c.bs, c.bs[k].addr)
    ensures CoreOk(FreedCore(c, k, free))
    ensures var d := FreedCore(c, k, free); PoolsKept(c.bs, c.chain.hdr, d.bs, d.chain.hdr)
  {
    TiledNoDup(c.bs);
    SetFreeRep(c.chain, c.bs, k, free);
    UseKeeps(c.bs, k, free);
    UsedLast(c.bs, k, free, c.lastFit);
    HeaderWritable(c.bs, k);
    ReplaceSamePools(c.bs, k, k + 1, [c.bs[k].(free := free)]);
    hide Tiled, Rep, NoDup, HasAddr, Writable, Replace;
  }

  ghost predicate CanMelt(c: Core, k: nat) {
    && k + 1 < |c.bs| && c.bs[k].addr in c.chain.hdr
    && var h := c.chain.hdr; var f := h[c.bs[k].addr].next;
       f in h && (h[f].next != 0 ==> h[f].next in h)
  }

  ghost function MeltCore(c: Core, k: nat): Core
    requires CanMelt(c, k)
  {
    Core(MeltChain(c.chain, c.bs[k].addr), Replace(c.bs, k, k + 2, [Melt(c.bs[k], c.bs[k + 1])]),
         if c.lastFit == c.bs[k + 1].addr then c.bs[k].addr else c.lastFit)
  }

  /** Everything absorbing block k + 1 into block k needs and gives. */
  lemma MeltCoreOk(c: Core, k: nat)
    requires CoreOk(c) && k + 1 < |c.bs| && c.bs[k + 1].kind == Inner
    ensures CanMelt(c, k)
    ensures var a := c.bs[k].addr; var h := c.chain.hdr;
            && h[a].next == c.bs[k + 1].addr && h[a].next != a && Writable(c.bs, a)
            && (h[h[a].next].next != 0 ==> h[h[a].next].next != a && Writable(c.bs, h[h[a].next].next))
    ensures CoreOk(MeltCore(c, k))
    ensures var d := MeltCore(c, k); PoolsKept(c.bs, c.chain.hdr, d.bs, d.chain.hdr)
  {
    MeltReady(c.chain, c.bs, k);
    MeltLast(c.bs, k, c.lastFit);
    MeltKeeps(c.bs, k);
    ReplaceSamePools(c.bs, k, k + 2, [Melt(c.bs[k], c.bs[k + 1])]);
    hide Tiled, Rep, NoDup, HasAddr, Writable, Replace;
  }

  /** Where the header of the rest goes when a block is cut. */
  function SplitAddr(a: nat, size: nat): nat {
    a + HEADER + size
  }

  ghost predicate CanCut(c: Core, k: nat, size: nat) {
    && k < |c.bs| && c.bs[k].addr in c.chain.hdr && c.bs[k].size >= size + HEADER
    && var h := c.chain.hdr[c.bs[k].addr];
       h.size == c.bs[k].size && (h.next != 0 ==> h.next in c.chain.hdr)
  }

  ghost function CutCore(c: Core, k: nat, size: nat, last: nat): Core
    requires CanCut(c, k, size)
  {
    Core(CutChain(c.chain, c.bs[k].addr, size), Replace(c.bs, k, k + 1, Cut(c.bs[k], size)), last)
  }

  lemma CutLast(bs: seq<Block>, k: nat, size: nat, last: nat)
    requires k < |bs| && bs[k].size >= size + HEADER
    requires last == 0 || HasAddr(bs, last) || last == SplitAddr(bs[k].addr, size)
    ensures last == 0 || HasAddr(Replace(bs, k, k + 1, Cut(bs[k], size)), last)
  {
    var r := Replace(bs, k, k + 1, Cut(bs[k], size));
    assert r[k + 1].addr == SplitAddr(bs[k].addr, size);
    if last != 0 && HasAddr(bs, last) {
      var i :| 0 <= i < |bs| && bs[i].addr == last;
      assert r[if i <= k then i else i + 1].addr == last;
    }
  }

  lemma CutFields(c: Chain, bs: seq<Block>, k: nat, size: nat)
    requires Rep(c, bs) && NoDup(bs) && k < |bs| && bs[k].size >= size + HEADER && bs[k].kind != PoolPage
    requires NoDup(Replace(bs, k, k + 1, Cut(bs[k], size)))
    requires bs[k].addr in c.hdr && c.hdr[bs[k].addr].size == bs[k].size
    requires c.hdr[bs[k].addr].next != 0 ==> c.hdr[bs[k].addr].next in c.hdr
    ensures PoolFields(bs, c.hdr, CutChain(c, bs[k].addr, size).hdr)
  {
    CutIsNew(bs, k, size);
    hide Rep, NoDup, Replace, Cut;
  }

  /** What a cut needs. */
  lemma CutReady(c: Core, k: nat, size: nat)
    requires CoreOk(c) && k < |c.bs| && c.bs[k].kind != PoolPage && Request(size)
    requires c.bs[k].size >= size + HEADER + MIN_SPLIT
    ensures CanCut(c, k, size)
    ensures var a := c.bs[k].addr; var h := c.chain.hdr;
            && Writable(c.bs, a) && h[a].next != a && h[a].next != SplitAddr(a, size)
            && (h[a].next != 0 ==> Writable(c.bs, h[a].next))
  {
    CutKeeps(c.bs, k, size);
    TiledNoDup(c.bs);
    TiledNoDup(Replace(c.bs, k, k + 1, Cut(c.bs[k], size)));
    Neighbours(c.chain, c.bs, k);
    CutIsNew(c.bs, k, size);
    HeaderWritable(c.bs, k);
    if k + 1 < |c.bs| { HeaderWritable(c.bs, k + 1); }
    hide Tiled, Rep, NoDup, HasAddr, Writable, Replace, Cut;
  }

  lemma CutCoreOk(c: Core, k: nat, size: nat, last: nat)
    requires CoreOk(c) && k < |c.bs| && c.bs[k].kind != PoolPage && Request(size)
    requires c.bs[k].size >= size + HEADER + MIN_SPLIT
    requires last == 0 || HasAddr(c.bs, last) || last == SplitAddr(c.bs[k].addr, size)
    ensures CanCut(c, k, size)
    ensures CoreOk(CutCore(c, k, size, last))
    ensures var d := CutCore(c, k, size, last); PoolsKept(c.bs, c.chain.hdr, d.bs, d.chain.hdr)
  {
    CutReady(c, k, size);
    CutKeeps(c.bs, k, size);
    TiledNoDup(c.bs);
    TiledNoDup(Replace(c.bs, k, k + 1, Cut(c.bs[k], size)));
    CutRep(c.chain, c.bs, k, size);
    CutLast(c.bs, k, size, last);
    CutFields(c.chain, c.bs, k, size);
    ReplaceSamePools(c.bs, k, k + 1, Cut(c.bs[k], size));
    hide Tiled, Rep, NoDup, HasAddr, Writable, Replace, CutChain, PoolFields, SamePools;
  }

  // ----- malloc

  ghost function TakeCore(c: Core, k: nat, size: nat): Core
    requires k < |c.bs| && c.bs[k].addr in c.chain.hdr
    requires c.bs[k].size >= size + HEADER + MIN_SPLIT ==> CanCut(c, k, size)
  {
    if c.bs[k].size >= size + HEADER + MIN_SPLIT then CutCore(c, k, size, c.bs[k].addr)
    else FreedCore(c, k, false).(lastFit := c.bs[k].addr)
  }

  lemma TakeCoreOk(c: Core, k: nat, size: nat)
    requires CoreOk(c) && Sparse(c.bs) && k < |c.bs| && c.bs[k].free && Request(size) && c.bs[k].size >= size
    ensures c.bs[k].addr in c.chain.hdr
    ensures c.bs[k].size >= size + HEADER + MIN_SPLIT ==> CanCut(c, k, size)
    ensures var d := TakeCore(c, k, size);
            && CoreOk(d) && Sparse(d.bs) && d.bs == TakeBlocks(c.bs, k, size)
            && PoolsKept(c.bs, c.chain.hdr, d.bs, d.chain.hdr)
  {
    assert HasAddr(c.bs, c.bs[k].addr);
    TakeLayout(c.bs, k, size);
    if c.bs[k].size >= size + HEADER + MIN_SPLIT {
      CutCoreOk(c, k, size, c.bs[k].addr);
    } else {
      FreedCoreOk(c, k, false);
      UsedLast(c.bs, k, false, c.bs[k].addr);
    }
    hide Tiled, Rep, HasAddr, Replace, CutChain, PoolsKept, Sparse, Cut, SetFree;
  }

  /** What handing out block k needs. */
  lemma TakeReady(c: Core, k: nat, size: nat)
    requires CoreOk(c) && k < |c.bs| && c.bs[k].free && Request(size) && c.bs[k].size >= size
    ensures c.bs[k].addr in c.chain.hdr && c.chain.hdr[c.bs[k].addr].size == c.bs[k].size
    ensures Writable(c.bs, c.bs[k].addr)
    ensures c.bs[k].size >= size + HEADER + MIN_SPLIT ==>
              var a := c.bs[k].addr; var h := c.chain.hdr;
              && CanCut(c, k, size) && Writable(c.bs, SplitAddr(a, size))
              && h[a].next != a && h[a].next != SplitAddr(a, size)
              && (h[a].next != 0 ==> Writable(c.bs, h[a].next))
  {
    TiledNoDup(c.bs);
    PoolsNotFree(c.bs, k);
    Neighbours(c.chain, c.bs, k);
    HeaderWritable(c.bs, k);
    if c.bs[k].size >= size + HEADER + MIN_SPLIT {
      CutReady(c, k, size);
      FreeWritable(c.bs, k, SplitAddr(c.bs[k].addr, size));
    }
    hide Tiled, Rep, NoDup, HasAddr, Writable;
  }

  /** What the headers of a block and its neighbours say. */
  lemma HeaderMeaning(c: Core, k: nat)
    requires CoreOk(c) && k < |c.bs|
    ensures var h := c.chain.hdr; var a := c.bs[k].addr;
            && a in h && a != 0 && h[a].size == c.bs[k].size && h[a].free == c.bs[k].free
            && h[a].pool == (c.bs[k].kind == PoolPage) && h[a].boundary == (c.bs[k].kind == First)
            && (h[a].next != 0 <==> k + 1 < |c.bs|) && (h[a].prev != 0 <==> k > 0)
            && (k + 1 < |c.bs| ==>
                  && h[a].next == c.bs[k + 1].addr && h[a].next in h
                  && h[h[a].next].size == c.bs[k + 1].size && h[h[a].next].free == c.bs[k + 1].free
                  && h[h[a].next].pool == (c.bs[k + 1].kind == PoolPage)
                  && h[h[a].next].boundary == (c.bs[k + 1].kind == First))
            && (k > 0 ==>
                  && h[a].prev == c.bs[k - 1].addr && h[a].prev in h && h[h[a].prev].free == c.bs[k - 1].free
                  && h[h[a].prev].pool == (c.bs[k - 1].kind == PoolPage))
    ensures c.bs[k].kind == PoolPage ==> !c.bs[k].free
  {
    TiledNoDup(c.bs);
    PoolsNotFree(c.bs, k);
    Neighbours(c.chain, c.bs, k);
    if k + 1 < |c.bs| { Neighbours(c.chain, c.bs, k + 1); }
    if k > 0 { Neighbours(c.chain, c.bs, k - 1); }
    hide Tiled, Rep, NoDup, HasAddr;
  }

  lemma PoolsKeptSelf(bs: seq<Block>, h: Headers)
    ensures PoolsKept(bs, h, bs, h)
  {
  }

  // ----- adding and removing whole blocks

  /** list_append of a block with the given header fields. */
  ghost function AppendChain(c: Chain, a: nat, x: Header): Chain
    requires c.tail != 0 ==> c.tail in c.hdr
  {
    var h := c.hdr[a := x.(next := 0, prev := c.tail)];
    Chain(if c.tail != 0 then h[c.tail := h[c.tail].(next := a)] else h, if c.head == 0 then a else c.head, a)
  }

  ghost predicate Describes(x: Header, b: Block) {
    x.size == b.size && x.free == b.free && x.pool == (b.kind == PoolPage) && x.boundary == (b.kind == First)
  }

  /** A block that may be added: it fills a region of its own. */
  ghost predicate Fresh(bs: seq<Block>, b: Block) {
    BlockOk(b) && b.kind != Inner && End(b) == b.region.end && forall i :: 0 <= i < |bs| ==> Apart(bs[i], b)
  }

  ghost function AppendCore(c: Core, b: Block, x: Header): Core
    requires c.chain.tail != 0 ==> c.chain.tail in c.chain.hdr
  {
    Core(AppendChain(c.chain, b.addr, x), c.bs + [b], c.lastFit)
  }

  lemma AppendReady(c: Core, b: Block)
    requires CoreOk(c) && Fresh(c.bs, b)
    ensures c.chain.tail != 0 ==> c.chain.tail in c.chain.hdr && c.chain.tail != b.addr && Writable(c.bs, c.chain.tail)
    ensures c.chain.tail == 0 <==> c.bs == []
    ensures Writable(c.bs, b.addr)
    ensures forall i :: 0 <= i < |c.bs| ==> c.bs[i].addr != b.addr
  {
    ChainEnds(c.chain, c.bs);
    var n := |c.bs|;
    if n > 0 {
      TiledNoDup(c.bs);
      Neighbours(c.chain, c.bs, n - 1);
      HeaderWritable(c.bs, n - 1);
    }
    forall i | 0 <= i < n
      ensures c.bs[i].addr != b.addr
    {
      assert Apart(c.bs[i], b);
    }
    hide Tiled, Rep, NoDup, HasAddr;
  }

  lemma AppendCoreOk(c: Core, b: Block, x: Header)
    requires CoreOk(c) && Fresh(c.bs, b) && Describes(x, b)
    requires c.chain.tail != 0 ==> c.chain.tail in c.chain.hdr
    ensures CoreOk(AppendCore(c, b, x)) && (Sparse(c.bs) ==> Sparse(c.bs + [b]))
    ensures PoolFields(c.bs, c.chain.hdr, AppendCore(c, b, x).chain.hdr)
  {
    var d := AppendCore(c, b, x);
    AppendReady(c, b);
    AppendKeeps(c.bs, b);
    ChainEnds(c.chain, c.bs);
    TiledNoDup(c.bs);
    AppendLast(c.bs, b, c.lastFit);
    hide Tiled, HasAddr, Writable, Sparse, Fresh, Rep;
    var r := c.bs + [b];
    assert HeaderAt(d.chain.hdr, r, |c.bs|);
    hide HeaderAt;
    AppendRep(c.chain, d.chain, c.bs, b);
  }

  lemma AppendLast(bs: seq<Block>, b: Block, last: nat)
    requires HasAddr(bs, last) || last == 0
    ensures HasAddr(bs + [b], last) || last == 0
  {
    if last != 0 {
      var i :| 0 <= i < |bs| && bs[i].addr == last;
      assert (bs + [b])[i].addr == last;
    }
  }

  /** list_unlink */
  ghost function UnlinkChain(c: Chain, a: nat): Chain
    requires a in c.hdr && (c.hdr[a].prev != 0 ==> c.hdr[a].prev in c.hdr)
    requires (c.hdr[a].next != 0 ==> c.hdr[a].next in c.hdr)
  {
    var x := c.hdr[a];
    var h := if x.prev != 0 then c.hdr[x.prev := c.hdr[x.prev].(next := x.next)] else c.hdr;
    Chain(if x.next != 0 then h[x.next := h[x.next].(prev := x.prev)] else h,
          if x.prev != 0 then c.head else x.next, if x.next != 0 then c.tail else x.prev)
  }

  function Without(bs: seq<Block>, k: nat): seq<Block>
    requires k < |bs|
  {
    bs[..k] + bs[k + 1..]
  }

  ghost predicate CanUnlink(c: Core, k: nat) {
    && k < |c.bs| && c.bs[k].addr in c.chain.hdr
    && var x := c.chain.hdr[c.bs[k].addr];
       (x.prev != 0 ==> x.prev in c.chain.hdr) && (x.next != 0 ==> x.next in c.chain.hdr)
  }

  ghost function UnlinkCore(c: Core, k: nat): Core
    requires CanUnlink(c, k)
  {
    Core(UnlinkChain(c.chain, c.bs[k].addr), Without(c.bs, k), if c.lastFit == c.bs[k].addr then 0 else c.lastFit)
  }

  lemma UnlinkReady(c: Core, k: nat)
    requires CoreOk(c) && k < |c.bs|
    ensures CanUnlink(c, k)
    ensures var x := c.chain.hdr[c.bs[k].addr];
            && x.prev == AddrAt(c.bs, k - 1) && x.next == AddrAt(c.bs, k + 1)
            && (x.prev != 0 <==> k > 0) && (x.next != 0 <==> k + 1 < |c.bs|)
            && (x.prev != 0 ==> x.prev != c.bs[k].addr && Writable(c.bs, x.prev))
            && (x.next != 0 ==> x.next != c.bs[k].addr && Writable(c.bs, x.next))
  {
    TiledNoDup(c.bs);
    Neighbours(c.chain, c.bs, k);
    if k > 0 { HeaderWritable(c.bs, k - 1); }
    if k + 1 < |c.bs| { HeaderWritable(c.bs, k + 1); }
    hide Tiled, Rep, NoDup, HasAddr, Writable;
  }

  lemma UnlinkRep(c: Core, k: nat)
    requires CoreOk(c) && k < |c.bs|
    ensures CanUnlink(c, k)
    ensures Rep(UnlinkCore(c, k).chain, Without(c.bs, k))
  {
    UnlinkReady(c, k);
    TiledNoDup(c.bs);
    ChainEnds(c.chain, c.bs);
    UnlinkWrites(c.chain, c.bs, k);
    hide Tiled, Rep, HasAddr, Writable, NoDup;
    assert UnlinkChain(c.chain, c.bs[k].addr).head == if k == 0 then AddrAt(c.bs, 1) else c.chain.head;
    assert UnlinkChain(c.chain, c.bs[k].addr).tail == if k + 1 == |c.bs| then AddrAt(c.bs, k - 1) else c.chain.tail;
    hide UnlinkChain;
    DropRep(c.chain, UnlinkChain(c.chain, c.bs[k].addr), c.bs, k);
  }

  lemma UnlinkCoreOk(c: Core, k: nat)
    requires CoreOk(c) && k < |c.bs| && c.bs[k].kind == PoolPage
    ensures CanUnlink(c, k)
    ensures CoreOk(UnlinkCore(c, k)) && (Sparse(c.bs) ==> Sparse(Without(c.bs, k)))
    ensures PoolFields(c.bs, c.chain.hdr, UnlinkCore(c, k).chain.hdr)
  {
    UnlinkRep(c, k);
    DropKeeps(c.bs, k);
    WithoutLast(c.bs, k, c.lastFit);
    hide Tiled, Rep, HasAddr, Sparse;
  }

  /** Only the two neighbours of an unlinked block are written. */
  lemma UnlinkWrites(c: Chain, bs: seq<Block>, k: nat)
    requires NoDup(bs) && k < |bs| && bs[k].addr in c.hdr
    requires var x := c.hdr[bs[k].addr];
             && x.prev == AddrAt(bs, k - 1) && x.next == AddrAt(bs, k + 1)
             && (x.prev != 0 ==> x.prev in c.hdr) && (x.next != 0 ==> x.next in c.hdr)
    ensures var h := UnlinkChain(c, bs[k].addr).hdr;
            && (forall i :: 0 <= i < |bs| && bs[i].addr in c.hdr && (i < k - 1 || i > k + 1) ==>
                  bs[i].addr in h && h[bs[i].addr] == c.hdr[bs[i].addr])
            && (k > 0 ==> bs[k - 1].addr in h && h[bs[k - 1].addr] == c.hdr[bs[k - 1].addr].(next := AddrAt(bs, k + 1)))
            && (k + 1 < |bs| ==>
                  bs[k + 1].addr in h && h[bs[k + 1].addr] == c.hdr[bs[k + 1].addr].(prev := AddrAt(bs, k - 1)))
  {
  }

  lemma WithoutLast(bs: seq<Block>, k: nat, last: nat)
    requires k < |bs| && (last == 0 || HasAddr(bs, last))
    ensures last == 0 || last == bs[k].addr || HasAddr(Without(bs, k), last)
  {
    if last != 0 && last != bs[k].addr {
      var i :| 0 <= i < |bs| && bs[i].addr == last;
      assert Without(bs, k)[if i < k then i else i - 1].addr == last;
    }
  }

  /** Where the next-fit scan starts. */
  lemma StartAt(c: Core) returns (s: nat)
    requires CoreOk(c) && c.bs != []
    ensures s < |c.bs| && c.bs[s].addr == (if c.lastFit != 0 then c.lastFit else c.chain.head)
    ensures c.chain.head == c.bs[0].addr
  {
    ChainEnds(c.chain, c.bs);
    s := 0;
    if c.lastFit != 0 {
      s :| 0 <= s < |c.bs| && c.bs[s].addr == c.lastFit;
    }
  }

  lemma DistinctAt(bs: seq<Block>, s: nat, k: nat)
    requires NoDup(bs) && s < |bs| && k < |bs|
    ensures k + 1 < |bs| && bs[k + 1].addr == bs[s].addr ==> k + 1 == s
    ensures bs[0].addr == bs[s].addr ==> s == 0
  {
  }

  lemma CoreTiled(c: Core)
    requires CoreOk(c)
    ensures Tiled(c.bs) && c.chain.head == AddrAt(c.bs, 0)
    ensures c.bs == [] ==> c.chain.head == 0 && c.lastFit == 0
  {
  }

  // ----- realloc in place

  const HEAP_MAGIC: nat := 0x1E16_0E06

  /** The 64-bit words of a header in memory, at offset 0 the magic number
      below the flags. */
  function Word(x: Header, off: nat): nat {
    if off == 0 then
      var flags := (if x.free then 1 else 0) + (if x.pool then 2 else 0) + (if x.boundary then 4 else 0);
      HEAP_MAGIC + 0x1_0000_0000 * flags
    else if off == 8 then x.size
    else if off == 16 then x.binSize
    else if off == 24 then x.used
    else if off == 32 then x.next
    else x.prev
  }

  /** What reading the old neighbour's next field gives once a new header has
      been written `delta` bytes further on: offset 32 of the old header is
      offset 32 - delta of the new one. */
  function NextRead(split: Header, delta: nat, next: nat): nat {
    if delta <= 32 then Word(split, 32 - delta) else next
  }

  /** A block in use grows into the free one after it, and the rest stays free. */
  ghost function GrownBlocks(bs: seq<Block>, k: nat, size: nat): seq<Block>
    requires k + 1 < |bs| && Melt(bs[k], bs[k + 1]).size >= size + HEADER
  {
    var m := Replace(bs, k, k + 2, [Melt(bs[k], bs[k + 1])]);
    Replace(m, k, k + 1, Cut(m[k], size))
  }

  ghost predicate CanGrow(bs: seq<Block>, k: nat, size: nat) {
    && k + 1 < |bs| && !bs[k].free && bs[k].kind != PoolPage && bs[k + 1].kind == Inner && bs[k + 1].free
    && Request(size) && bs[k].size < size && Melt(bs[k], bs[k + 1]).size >= size + HEADER + MIN_SPLIT
  }

  /** The growth is so small that the new header overlaps the old neighbour's,
      and what is then read as its successor is not its successor. */
  ghost predicate Tears(bs: seq<Block>, k: nat, size: nat) {
    CanGrow(bs, k, size) && (size == bs[k].size + 32 || (size == bs[k].size + 16 && k + 2 < |bs|))
  }

  /** The header writes of growing in place, given the successor read. */
  ghost function GrowChain(c: Chain, a: nat, size: nat, next: nat): Chain
    requires a in c.hdr && c.hdr[a].next in c.hdr && c.hdr[a].size + HEADER + c.hdr[c.hdr[a].next].size >= size + HEADER
  {
    var s, total := SplitAddr(a, size), c.hdr[a].size + HEADER + c.hdr[c.hdr[a].next].size;
    var h1 := c.hdr[a := c.hdr[a].(size := size)]
                   [s := Header(total - size - HEADER, true, false, false, 0, 0, next, a)];
    var h2 := if next in h1 && next != 0 then h1[next := h1[next].(prev := s)] else h1;
    Chain(h2[a := h2[a].(next := s)], c.head, if next != 0 then c.tail else s)
  }

  ghost function GrowCore(c: Core, k: nat, size: nat, next: nat): Core
    requires CanMelt(c, k) && Melt(c.bs[k], c.bs[k + 1]).size >= size + HEADER
    requires c.chain.hdr[c.bs[k].addr].size == c.bs[k].size
    requires c.chain.hdr[c.chain.hdr[c.bs[k].addr].next].size == c.bs[k + 1].size
  {
    Core(GrowChain(c.chain, c.bs[k].addr, size, next), GrownBlocks(c.bs, k, size),
         if c.lastFit == c.bs[k + 1].addr then SplitAddr(c.bs[k].addr, size) else c.lastFit)
  }

  lemma GrowChainIs(c: Chain, a: nat, size: nat)
    requires a in c.hdr && c.hdr[a].next in c.hdr && c.hdr[a].next != a && !c.hdr[a].free
    requires var f := c.hdr[c.hdr[a].next];
             && c.hdr[a].size + HEADER + f.size >= size + HEADER
             && (f.next != 0 ==> f.next in c.hdr && f.next != a && f.next != SplitAddr(a, size))
    ensures GrowChain(c, a, size, c.hdr[c.hdr[a].next].next) == CutChain(MeltChain(c, a), a, size)
  {
    var x, y := GrowChain(c, a, size, c.hdr[c.hdr[a].next].next), CutChain(MeltChain(c, a), a, size);
    assert x.hdr.Keys == y.hdr.Keys;
    assert x.hdr == y.hdr;
  }

  /** With the true successor, growing in place is absorbing and then cutting. */
  lemma GrowIsMeltCut(c: Core, k: nat, size: nat)
    requires CoreOk(c) && CanGrow(c.bs, k, size) && CanMelt(c, k)
    requires CanCut(MeltCore(c, k), k, size)
    ensures var h := c.chain.hdr; var f := h[c.bs[k].addr].next; var next := h[f].next;
            && h[c.bs[k].addr].size == c.bs[k].size && h[f].size == c.bs[k + 1].size
            && GrowCore(c, k, size, next) ==
               CutCore(MeltCore(c, k), k, size,
                       if c.lastFit == c.bs[k + 1].addr then SplitAddr(c.bs[k].addr, size) else c.lastFit)
  {
    hide CoreOk, Tiled, GrowChain, CutChain, MeltChain;
    HeaderMeaning(c, k);
    HeaderMeaning(c, k + 1);
    CoreTiled(c);
    if k + 2 < |c.bs| { AddrsDistinct(c.bs, k, k + 2); }
    AddrsDistinct(c.bs, k, k + 1);
    CutIsApart(c, k, size);
    GrowChainIs(c.chain, c.bs[k].addr, size);
    assert MeltCore(c, k).bs[k] == Melt(c.bs[k], c.bs[k + 1]);
  }

  /** The new header's address is none of the other blocks'. */
  lemma CutIsApart(c: Core, k: nat, size: nat)
    requires CoreOk(c) && CanGrow(c.bs, k, size)
    ensures k + 2 < |c.bs| ==> c.bs[k + 2].addr != SplitAddr(c.bs[k].addr, size)
  {
    if k + 2 < |c.bs| {
      PayloadsDisjoint(c.bs, k + 1, k + 2);
      MeltKeeps(c.bs, k);
      assert BlockOk(c.bs[k + 2]);
    }
  }

  lemma GrowSparse(bs: seq<Block>, k: nat, size: nat)
    requires Tiled(bs) && Sparse(bs) && CanGrow(bs, k, size)
    ensures Sparse(GrownBlocks(bs, k, size))
  {
    hide Tiled;
    var m := Replace(bs, k, k + 2, [Melt(bs[k], bs[k + 1])]);
    if k + 2 < |bs| { assert SparseAt(bs, k + 1); }
    ReplaceSparse(bs, k, k + 2, [Melt(bs[k], bs[k + 1])]);
    assert m[k] == Melt(bs[k], bs[k + 1]);
    assert k + 2 < |bs| ==> m[k + 1] == bs[k + 2];
    ReplaceSparse(m, k, k + 1, Cut(m[k], size));
  }

  /** Reading the true successor, growing in place keeps the list. */
  lemma GrowCoreOk(c: Core, k: nat, size: nat)
    requires CoreOk(c) && Sparse(c.bs) && CanGrow(c.bs, k, size)
    ensures CanMelt(c, k)
    ensures var h := c.chain.hdr; var f := h[c.bs[k].addr].next;
            && h[c.bs[k].addr].size == c.bs[k].size && h[f].size == c.bs[k + 1].size
            && var d := GrowCore(c, k, size, h[f].next);
               && CoreOk(d) && Sparse(d.bs) && PoolsKept(c.bs, c.chain.hdr, d.bs, d.chain.hdr)
  {
    hide CoreOk, Tiled, PoolsKept, Sparse, CutChain, MeltChain, GrowChain, HasAddr;
    MeltCoreOk(c, k);
    var m := MeltCore(c, k);
    assert m.bs[k] == Melt(c.bs[k], c.bs[k + 1]);
    var last := if c.lastFit == c.bs[k + 1].addr then SplitAddr(c.bs[k].addr, size) else c.lastFit;
    LastFitIn(m);
    CutCoreOk(m, k, size, last);
    GrowIsMeltCut(c, k, size);
    CoreTiled(c);
    GrowSparse(c.bs, k, size);
    PoolsKeptTrans(c.bs, c.chain.hdr, m.bs, m.chain.hdr, GrownBlocks(c.bs, k, size),
                   CutCore(m, k, size, last).chain.hdr);
  }

  lemma LastFitIn(c: Core)
    requires CoreOk(c)
    ensures c.lastFit == 0 || HasAddr(c.bs, c.lastFit)
  {
  }

  /** Reading anything else, the list is broken. */
  lemma GrowTorn(c: Core, k: nat, size: nat, next: nat)
    requires CoreOk(c) && CanGrow(c.bs, k, size) && CanMelt(c, k)
    requires c.chain.hdr[c.bs[k].addr].size == c.bs[k].size && c.chain.hdr[c.bs[k].addr].next == c.bs[k + 1].addr
    requires c.chain.hdr[c.bs[k + 1].addr].size == c.bs[k + 1].size
    requires next != AddrAt(c.bs, k + 2) && next != SplitAddr(c.bs[k].addr, size)
    ensures !CoreOk(GrowCore(c, k, size, next))
  {
    var d := GrowCore(c, k, size, next);
    var s := SplitAddr(c.bs[k].addr, size);
    assert d.chain.hdr[s].next == next;
    assert d.bs[k + 1].addr == s;
    assert AddrAt(d.bs, k + 2) == AddrAt(c.bs, k + 2);
    assert !HeaderAt(d.chain.hdr, d.bs, k + 1);
  }

  /** The header written at the split, before it is linked. */
  function SplitHeader(size: nat): Header {
    Header(size, true, false, false, 0, 0, 0, 0)
  }

  /** The successor read is the true one exactly when the growth is at least a
      header, or it is 16 bytes and there is no successor. */
  lemma NextReadRight(rest: nat, delta: nat, next: nat)
    requires delta % ALIGNMENT == 0 && delta > 0 && next % ALIGNMENT == 0
    ensures NextRead(SplitHeader(rest), delta, next) == next <==> delta >= HEADER || (delta == 16 && next == 0)
    ensures NextRead(SplitHeader(rest), delta, next) != next ==> delta == 32 || (delta == 16 && next != 0)
    ensures delta == 32 ==> NextRead(SplitHeader(rest), delta, next) % ALIGNMENT != 0
    ensures delta == 16 ==> NextRead(SplitHeader(rest), delta, next) == 0
  {
  }

  /** What growing block k in place reads and writes. */
  lemma GrowReady(c: Core, k: nat, size: nat)
    requires CoreOk(c) && CanGrow(c.bs, k, size)
    ensures var h := c.chain.hdr; var a := c.bs[k].addr;
            && a in h && h[a].next == c.bs[k + 1].addr && h[a].next in h && h[a].size == c.bs[k].size
            && h[h[a].next].size == c.bs[k + 1].size && CanMelt(c, k)
            && Writable(c.bs, a) && Writable(c.bs, SplitAddr(a, size))
            && (var n := h[h[a].next].next;
                && n == AddrAt(c.bs, k + 2) && n % ALIGNMENT == 0 && (n == 0 <==> k + 2 == |c.bs|)
                && n != a && n != SplitAddr(a, size)
                && (n != 0 ==> n in h && Writable(c.bs, n)))
            && (size - c.bs[k].size) % ALIGNMENT == 0 && SplitAddr(a, size) % ALIGNMENT == 0
            && 0 < a < SplitAddr(a, size) && a % ALIGNMENT == 0
  {
    hide Writable, Tiled, CoreOk;
    CoreTiled(c);
    MeltCoreOk(c, k);
    HeaderMeaning(c, k);
    HeaderMeaning(c, k + 1);
    HeaderWritable(c.bs, k);
    GrowAligned(c.bs, k, size);
    FreeWritable(c.bs, k + 1, SplitAddr(c.bs[k].addr, size));
    if k + 2 < |c.bs| {
      HeaderWritable(c.bs, k + 2);
      AddrsDistinct(c.bs, k, k + 2);
    }
    CutIsApart(c, k, size);
  }

  lemma AlignedSums(addr: nat, size: nat, newSize: nat)
    requires addr % ALIGNMENT == 0 && size % ALIGNMENT == 0 && newSize % ALIGNMENT == 0
    ensures (newSize - size) % ALIGNMENT == 0 && (addr + HEADER + newSize) % ALIGNMENT == 0
  {
  }

  lemma GrowAligned(bs: seq<Block>, k: nat, size: nat)
    requires Tiled(bs) && CanGrow(bs, k, size)
    ensures (size - bs[k].size) % ALIGNMENT == 0 && SplitAddr(bs[k].addr, size) % ALIGNMENT == 0
    ensures bs[k].addr % ALIGNMENT == 0
    ensures bs[k + 1].addr == End(bs[k]) && AddrAt(bs, k + 2) % ALIGNMENT == 0
  {
    MeltKeeps(bs, k);
    assert BlockOk(bs[k]);
    assert k + 2 < |bs| ==> BlockOk(bs[k + 2]);
    hide Tiled;
    AlignedSums(bs[k].addr, bs[k].size, size);
  }

  /** A block in use that absorbs its neighbour leaves no free neighbours. */
  lemma MeltSparse(c: Core, k: nat)
    requires Sparse(c.bs) && k + 1 < |c.bs| && !c.bs[k].free && CanMelt(c, k)
    ensures Sparse(MeltCore(c, k).bs)
  {
    ReplaceSparse(c.bs, k, k + 2, [Melt(c.bs[k], c.bs[k + 1])]);
  }

  // ----- round trip

  /** Taking a block and releasing it at once gives back the same layout. */
  lemma TakeRelease(bs: seq<Block>, k: nat, size: nat)
    requires Sparse(bs) && k < |bs| && bs[k].free && bs[k].size >= size
    ensures k < |TakeBlocks(bs, k, size)| && ReleaseBlocks(TakeBlocks(bs, k, size), k) == bs
  {
    if k > 0 { assert SparseAt(bs, k - 1); }
    if k + 1 < |bs| { assert SparseAt(bs, k); }
    hide Sparse;
    if bs[k].size >= size + HEADER + MIN_SPLIT {
      CutRelease(bs, k, size);
    } else {
      var t := TakeBlocks(bs, k, size);
      assert t == bs[k := bs[k].(free := false)];
      assert ReleaseStart(t, k) == k && ReleaseEnd(t, k) == k + 1;
    }
  }

  lemma CutRelease(bs: seq<Block>, k: nat, size: nat)
    requires k < |bs| && bs[k].free && bs[k].size >= size + HEADER
    requires k > 0 && bs[k].kind == Inner ==> !bs[k - 1].free
    ensures var t := Replace(bs, k, k + 1, Cut(bs[k], size)); k < |t| && ReleaseBlocks(t, k) == bs
  {
    var t := Replace(bs, k, k + 1, Cut(bs[k], size));
    assert t[k] == Cut(bs[k], size)[0] && t[k + 1] == Cut(bs[k], size)[1];
    assert k > 0 ==> t[k - 1] == bs[k - 1];
    assert ReleaseStart(t, k) == k && ReleaseEnd(t, k) == k + 2 && Released(t, k) == bs[k];
    assert t[..k] == bs[..k] && t[k + 2..] == bs[k + 1..];
  }
}
