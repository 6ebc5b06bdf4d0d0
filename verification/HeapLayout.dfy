/** The kernel heap's blocks in list order, as values: each region the heap has
    grown by is tiled by header-and-payload blocks. */
module HeapLayout {

  const HEADER: nat := 48
  const ALIGNMENT: nat := 16
  const MIN_SPLIT: nat := 16

  datatype Region = Region(start: nat, end: nat)

  /** How a block begins: it opens a grown region, follows another block of its
      region, or is a pool page, which is a region of its own. */
  datatype Kind = First | Inner | PoolPage

  datatype Block = Block(addr: nat, size: nat, free: bool, kind: Kind, region: Region)

  function End(b: Block): nat {
    b.addr + HEADER + b.size
  }

  function Payload(b: Block): nat {
    b.addr + HEADER
  }

  ghost predicate BlockOk(b: Block)
  {
    && b.addr > 0 && b.addr % ALIGNMENT == 0 && b.size % ALIGNMENT == 0 && b.size >= MIN_SPLIT
    && b.region.start <= b.addr && End(b) <= b.region.end
    && (b.kind != Inner ==> b.addr == b.region.start)
    && (b.kind == PoolPage ==> !b.free)
  }

  /** Two neighbours of the list: the second follows the first inside a region,
      or the first one ends its region. */
  ghost predicate Joined(a: Block, b: Block)
  {
    if b.kind == Inner then
      a.kind != PoolPage && b.region == a.region && b.addr == End(a)
    else
      End(a) == a.region.end
  }

  /** Neighbours of one region are not both free. */
  ghost predicate SparseAt(bs: seq<Block>, i: nat)
    requires i + 1 < |bs|
  {
    bs[i + 1].kind == Inner ==> !(bs[i].free && bs[i + 1].free)
  }

  ghost predicate Sparse(bs: seq<Block>) {
    forall i :: 0 <= i < |bs| - 1 ==> SparseAt(bs, i)
  }

  ghost predicate JoinedAt(bs: seq<Block>, i: nat)
    requires i + 1 < |bs|
  {
    Joined(bs[i], bs[i + 1])
  }

  /** The next block starts where this one ends. */
  ghost predicate Touches(bs: seq<Block>, i: nat)
    requires i + 1 < |bs|
  {
    bs[i + 1].addr == End(bs[i])
  }

  ghost predicate Apart(a: Block, b: Block) {
    End(a) <= b.addr || End(b) <= a.addr
  }

  ghost predicate Tiled(bs: seq<Block>)
  {
    && (forall i :: 0 <= i < |bs| ==> BlockOk(bs[i]))
    && (forall i :: 0 <= i < |bs| - 1 ==> JoinedAt(bs, i))
    && (forall i, j :: 0 <= i < j < |bs| ==> Apart(bs[i], bs[j]))
    && (|bs| > 0 ==> bs[0].kind != Inner && End(bs[|bs| - 1]) == bs[|bs| - 1].region.end)
  }

  /** The next block is in the same region and starts where this one ends. */
  ghost predicate Follows(bs: seq<Block>, i: nat)
    requires i + 1 < |bs|
  {
    bs[i + 1].kind == Inner && bs[i + 1].region == bs[i].region && bs[i + 1].addr == End(bs[i])
  }

  /** Every region is tiled: from its first block on, the blocks follow each
      other without a hole up to its end. */
  lemma RegionTiled(bs: seq<Block>, i: nat) returns (j: nat)
    requires Tiled(bs) && i < |bs| && bs[i].kind != Inner
    ensures i <= j < |bs|
    ensures bs[i].addr == bs[i].region.start && End(bs[j]) == bs[i].region.end
    ensures forall k :: i <= k < j ==> Follows(bs, k)
    ensures j + 1 < |bs| ==> bs[j + 1].kind != Inner
  {
    hide Apart;
    assert BlockOk(bs[i]);
    j := i;
    while j + 1 < |bs| && bs[j + 1].kind == Inner
      invariant i <= j < |bs| && bs[j].region == bs[i].region
      invariant forall k :: i <= k < j ==> Follows(bs, k)
    {
      assert JoinedAt(bs, j);
      assert Follows(bs, j);
      j := j + 1;
    }
    if j + 1 < |bs| {
      assert JoinedAt(bs, j);
    }
  }

  /** Live payloads are aligned and pairwise disjoint, and no payload meets a
      header. */
  lemma PayloadsDisjoint(bs: seq<Block>, i: nat, j: nat)
    requires Tiled(bs) && i < |bs| && j < |bs| && i != j
    ensures Payload(bs[i]) % ALIGNMENT == 0
    ensures End(bs[i]) <= bs[j].addr || End(bs[j]) <= bs[i].addr
  {
    assert BlockOk(bs[i]);
    if i < j {
      assert Apart(bs[i], bs[j]);
    } else {
      assert Apart(bs[j], bs[i]);
    }
  }

  // ----- replacing a stretch of blocks

  /** The blocks with positions lo .. hi replaced by the given ones. */
  function Replace(bs: seq<Block>, lo: nat, hi: nat, mid: seq<Block>): seq<Block>
    requires lo <= hi <= |bs|
  {
    bs[..lo] + mid + bs[hi..]
  }

  /** The stretch covers the same bytes, and its ends fit its neighbours. */
  ghost predicate Fits(bs: seq<Block>, lo: nat, hi: nat, mid: seq<Block>)
    requires lo < hi <= |bs| && mid != []
  {
    && (forall k :: 0 <= k < |mid| ==> BlockOk(mid[k]) && bs[lo].addr <= mid[k].addr && End(mid[k]) <= End(bs[hi - 1]))
    && (forall k :: 0 <= k < |mid| - 1 ==> JoinedAt(mid, k))
    && (forall k, l :: 0 <= k < l < |mid| ==> Apart(mid[k], mid[l]))
    && (lo > 0 ==> Joined(bs[lo - 1], mid[0]))
    && (lo == 0 ==> mid[0].kind != Inner)
    && (hi < |bs| ==> Joined(mid[|mid| - 1], bs[hi]))
    && (hi == |bs| ==> End(mid[|mid| - 1]) == mid[|mid| - 1].region.end)
    && (hi == lo + 2 ==> Touches(bs, lo))
  }

  lemma ReplaceKeeps(bs: seq<Block>, lo: nat, hi: nat, mid: seq<Block>)
    requires Tiled(bs) && lo < hi <= |bs| && hi <= lo + 2 && mid != [] && Fits(bs, lo, hi, mid)
    ensures Tiled(Replace(bs, lo, hi, mid))
  {
    var r, m := Replace(bs, lo, hi, mid), |mid|;
    StretchApart(bs, lo, hi);
    forall i | 0 <= i < |r|
      ensures BlockOk(r[i])
    {
      assert r[i] == if i < lo then bs[i] else if i < lo + m then mid[i - lo] else bs[i - m + (hi - lo)];
    }
    forall i | 0 <= i < |r| - 1
      ensures JoinedAt(r, i)
    {
      ReplacedJoin(bs, lo, hi, mid, i);
    }
    forall i, j | 0 <= i < j < |r|
      ensures Apart(r[i], r[j])
    {
      ReplacedApart(bs, lo, hi, mid, i, j);
    }
  }

  lemma ReplacedJoin(bs: seq<Block>, lo: nat, hi: nat, mid: seq<Block>, i: nat)
    requires Tiled(bs) && lo < hi <= |bs| && mid != [] && Fits(bs, lo, hi, mid)
    requires i + 1 < |Replace(bs, lo, hi, mid)|
    ensures JoinedAt(Replace(bs, lo, hi, mid), i)
  {
    hide BlockOk, Joined, Apart;
    var r, m := Replace(bs, lo, hi, mid), |mid|;
    if i + 1 < lo {
      assert r[i] == bs[i] && r[i + 1] == bs[i + 1] && JoinedAt(bs, i);
    } else if i + 1 == lo {
      assert r[i] == bs[lo - 1] && r[i + 1] == mid[0];
    } else if i + 1 < lo + m {
      assert r[i] == mid[i - lo] && r[i + 1] == mid[i - lo + 1] && JoinedAt(mid, i - lo);
    } else if i + 1 == lo + m {
      assert r[i] == mid[m - 1] && r[i + 1] == bs[hi];
    } else {
      var k := i - m + (hi - lo);
      assert r[i] == bs[k] && r[i + 1] == bs[k + 1] && JoinedAt(bs, k);
    }
  }

  /** What is apart from both of two touching blocks is apart from their union. */
  lemma StretchApart(bs: seq<Block>, lo: nat, hi: nat)
    requires Tiled(bs) && lo < hi <= |bs| && hi <= lo + 2
    requires hi == lo + 2 ==> Touches(bs, lo)
    ensures forall j :: 0 <= j < lo || hi <= j < |bs| ==> End(bs[j]) <= bs[lo].addr || End(bs[hi - 1]) <= bs[j].addr
  {
    forall j | 0 <= j < lo || hi <= j < |bs|
      ensures End(bs[j]) <= bs[lo].addr || End(bs[hi - 1]) <= bs[j].addr
    {
      PayloadsDisjoint(bs, lo, j);
      PayloadsDisjoint(bs, hi - 1, j);
    }
  }

  lemma ReplacedApart(bs: seq<Block>, lo: nat, hi: nat, mid: seq<Block>, i: nat, j: nat)
    requires lo < hi <= |bs| && i < j < |Replace(bs, lo, hi, mid)|
    requires forall i, j :: 0 <= i < j < |bs| ==> Apart(bs[i], bs[j])
    requires forall k, l :: 0 <= k < l < |mid| ==> Apart(mid[k], mid[l])
    requires forall k :: 0 <= k < |mid| ==> bs[lo].addr <= mid[k].addr && End(mid[k]) <= End(bs[hi - 1])
    requires forall j :: 0 <= j < lo || hi <= j < |bs| ==> End(bs[j]) <= bs[lo].addr || End(bs[hi - 1]) <= bs[j].addr
    ensures var r := Replace(bs, lo, hi, mid); Apart(r[i], r[j])
  {
    var r, m, d := Replace(bs, lo, hi, mid), |mid|, |mid| - (hi - lo);
    if i < lo + m {
      assert r[i] == if i < lo then bs[i] else mid[i - lo];
      assert r[j] == if j < lo then bs[j] else if j < lo + m then mid[j - lo] else bs[j - d];
    } else {
      assert r[i] == bs[i - d] && r[j] == bs[j - d];
    }
  }

  // ----- the operations on the layout

  /** A block cut after `size` payload bytes: the front in use, the rest free. */
  function Cut(b: Block, size: nat): seq<Block>
    requires b.size >= size + HEADER
  {
    [b.(size := size, free := false),
     Block(b.addr + HEADER + size, b.size - size - HEADER, true, Inner, b.region)]
  }

  /** A replacement keeps neighbours from being both free when its own blocks
      and its two seams do. */
  lemma ReplaceSparse(bs: seq<Block>, lo: nat, hi: nat, mid: seq<Block>)
    requires Sparse(bs) && lo < hi <= |bs| && mid != [] && Sparse(mid)
    requires lo > 0 && mid[0].kind == Inner ==> !(bs[lo - 1].free && mid[0].free)
    requires hi < |bs| && bs[hi].kind == Inner ==> !(mid[|mid| - 1].free && bs[hi].free)
    ensures Sparse(Replace(bs, lo, hi, mid))
  {
    var r, m := Replace(bs, lo, hi, mid), |mid|;
    forall i | 0 <= i < |r| - 1
      ensures SparseAt(r, i)
    {
      if i + 1 < lo {
        assert r[i] == bs[i] && r[i + 1] == bs[i + 1] && SparseAt(bs, i);
      } else if i + 1 == lo {
        assert r[i] == bs[lo - 1] && r[i + 1] == mid[0];
      } else if i + 1 < lo + m {
        assert r[i] == mid[i - lo] && r[i + 1] == mid[i - lo + 1] && SparseAt(mid, i - lo);
      } else if i + 1 == lo + m {
        assert r[i] == mid[m - 1] && r[i + 1] == bs[hi];
      } else {
        var k := i - m + (hi - lo);
        assert r[i] == bs[k] && r[i + 1] == bs[k + 1] && SparseAt(bs, k);
      }
    }
  }

  lemma UseKeeps(bs: seq<Block>, k: nat, free: bool)
    requires Tiled(bs) && k < |bs| && (free ==> bs[k].kind != PoolPage)
    ensures Tiled(Replace(bs, k, k + 1, [bs[k].(free := free)]))
    ensures Sparse(bs) && !free ==> Sparse(Replace(bs, k, k + 1, [bs[k].(free := free)]))
  {
    var mid := [bs[k].(free := free)];
    assert BlockOk(bs[k]);
    assert k > 0 ==> JoinedAt(bs, k - 1);
    assert k + 1 < |bs| ==> JoinedAt(bs, k);
    assert Fits(bs, k, k + 1, mid);
    ReplaceKeeps(bs, k, k + 1, mid);
    if Sparse(bs) && !free {
      ReplaceSparse(bs, k, k + 1, mid);
    }
  }

  lemma CutKeeps(bs: seq<Block>, k: nat, size: nat)
    requires Tiled(bs) && k < |bs| && bs[k].kind != PoolPage
    requires size % ALIGNMENT == 0 && size >= MIN_SPLIT && bs[k].size >= size + HEADER + MIN_SPLIT
    ensures Tiled(Replace(bs, k, k + 1, Cut(bs[k], size)))
    ensures Sparse(bs) && (k + 1 < |bs| && bs[k + 1].kind == Inner ==> !bs[k + 1].free)
            ==> Sparse(Replace(bs, k, k + 1, Cut(bs[k], size)))
  {
    var mid := Cut(bs[k], size);
    CutFits(bs, k, size);
    hide Tiled, Fits;
    ReplaceKeeps(bs, k, k + 1, mid);
    if Sparse(bs) && (k + 1 < |bs| && bs[k + 1].kind == Inner ==> !bs[k + 1].free) {
      ReplaceSparse(bs, k, k + 1, mid);
    }
  }

  lemma CutFits(bs: seq<Block>, k: nat, size: nat)
    requires Tiled(bs) && k < |bs| && bs[k].kind != PoolPage
    requires size % ALIGNMENT == 0 && size >= MIN_SPLIT && bs[k].size >= size + HEADER + MIN_SPLIT
    ensures Fits(bs, k, k + 1, Cut(bs[k], size))
  {
    var mid := Cut(bs[k], size);
    assert BlockOk(bs[k]);
    assert k > 0 ==> JoinedAt(bs, k - 1);
    assert k + 1 < |bs| ==> JoinedAt(bs, k);
    assert JoinedAt(mid, 0);
    hide Tiled;
    CutAligned(bs[k].addr, bs[k].size, size);
  }

  lemma CutAligned(addr: nat, total: nat, size: nat)
    requires addr % ALIGNMENT == 0 && total % ALIGNMENT == 0 && size % ALIGNMENT == 0 && total >= size + HEADER
    ensures (addr + HEADER + size) % ALIGNMENT == 0 && (total - size - HEADER) % ALIGNMENT == 0
  {
  }

  /** A block that has absorbed the one after it. */
  function Melt(a: Block, b: Block): Block {
    a.(size := a.size + HEADER + b.size)
  }

  lemma MeltKeeps(bs: seq<Block>, k: nat)
    requires Tiled(bs) && k + 1 < |bs| && bs[k + 1].kind == Inner
    ensures bs[k + 1].addr == End(bs[k]) && bs[k].kind != PoolPage
    ensures Tiled(Replace(bs, k, k + 2, [Melt(bs[k], bs[k + 1])]))
  {
    var mid := [Melt(bs[k], bs[k + 1])];
    assert JoinedAt(bs, k) && BlockOk(bs[k]) && BlockOk(bs[k + 1]);
    MeltAligned(bs[k].size, bs[k + 1].size);
    assert k > 0 ==> JoinedAt(bs, k - 1);
    assert k + 2 < |bs| ==> JoinedAt(bs, k + 1);
    assert Touches(bs, k);
    assert Fits(bs, k, k + 2, mid);
    ReplaceKeeps(bs, k, k + 2, mid);
  }

  lemma MeltAligned(a: nat, b: nat)
    requires a % ALIGNMENT == 0 && b % ALIGNMENT == 0
    ensures (a + HEADER + b) % ALIGNMENT == 0
  {
  }

  lemma AppendKeeps(bs: seq<Block>, b: Block)
    requires Tiled(bs) && BlockOk(b) && b.kind != Inner && End(b) == b.region.end
    requires forall i :: 0 <= i < |bs| ==> Apart(bs[i], b)
    ensures Tiled(bs + [b]) && (Sparse(bs) ==> Sparse(bs + [b]))
  {
    var r := bs + [b];
    forall i | 0 <= i < |r| - 1
      ensures JoinedAt(r, i)
    {
      if i + 1 < |bs| { assert JoinedAt(bs, i); }
    }
    if Sparse(bs) {
      forall i | 0 <= i < |r| - 1
        ensures SparseAt(r, i)
      {
        if i + 1 < |bs| { assert SparseAt(bs, i); }
      }
    }
  }

  lemma DropKeeps(bs: seq<Block>, k: nat)
    requires Tiled(bs) && k < |bs| && bs[k].kind == PoolPage
    ensures Tiled(bs[..k] + bs[k + 1..]) && (Sparse(bs) ==> Sparse(bs[..k] + bs[k + 1..]))
  {
    var r := bs[..k] + bs[k + 1..];
    assert forall i :: 0 <= i < |r| ==> r[i] == bs[if i < k then i else i + 1];
    if k + 1 < |bs| { assert JoinedAt(bs, k); }
    if k > 0 { assert JoinedAt(bs, k - 1); }
    DropJoined(bs, k);
    if Sparse(bs) {
      DropSparse(bs, k);
    }
  }

  lemma DropJoined(bs: seq<Block>, k: nat)
    requires Tiled(bs) && k < |bs| && bs[k].kind == PoolPage
    ensures var r := bs[..k] + bs[k + 1..]; forall i :: 0 <= i < |r| - 1 ==> JoinedAt(r, i)
  {
    hide Apart, BlockOk;
    var r := bs[..k] + bs[k + 1..];
    forall i | 0 <= i < |r| - 1
      ensures JoinedAt(r, i)
    {
      assert r[i] == bs[if i < k then i else i + 1] && r[i + 1] == bs[if i + 1 < k then i + 1 else i + 2];
      assert JoinedAt(bs, i) && JoinedAt(bs, i + 1);
    }
  }

  lemma DropSparse(bs: seq<Block>, k: nat)
    requires Tiled(bs) && Sparse(bs) && k < |bs| && bs[k].kind == PoolPage
    ensures Sparse(bs[..k] + bs[k + 1..])
  {
    hide Apart, BlockOk;
    var r := bs[..k] + bs[k + 1..];
    forall i | 0 <= i < |r| - 1
      ensures SparseAt(r, i)
    {
      assert r[i] == bs[if i < k then i else i + 1] && r[i + 1] == bs[if i + 1 < k then i + 1 else i + 2];
      assert SparseAt(bs, i) && SparseAt(bs, i + 1) && JoinedAt(bs, i) && JoinedAt(bs, i + 1);
    }
  }
}
