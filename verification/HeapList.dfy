/** The doubly linked list of block headers, and how relinking a stretch of it
    realises a replacement in the layout. Address 0 is the null pointer. */
module HeapList {
  import opened HeapLayout

  datatype Header = Header(size: nat, free: bool, pool: bool, boundary: bool, binSize: nat, used: nat, next: nat,
                           prev: nat)

  type Headers = map<nat, Header>

  function AddrAt(bs: seq<Block>, i: int): nat {
    if 0 <= i < |bs| then bs[i].addr else 0
  }

  /** The header in memory describes block i and links it to its neighbours. */
  ghost predicate HeaderAt(hdr: Headers, bs: seq<Block>, i: nat)
    requires i < |bs|
  {
    var b := bs[i];
    && b.addr in hdr
    && var h := hdr[b.addr];
       && h.size == b.size && h.free == b.free
       && h.pool == (b.kind == PoolPage) && h.boundary == (b.kind == First)
       && h.next == AddrAt(bs, i + 1) && h.prev == AddrAt(bs, i - 1)
  }

  datatype Chain = Chain(hdr: Headers, head: nat, tail: nat)

  ghost predicate Rep(c: Chain, bs: seq<Block>)
  {
    match c
    case Chain(hdr, head, tail) =>
      && (forall i :: 0 <= i < |bs| ==> HeaderAt(hdr, bs, i))
      && head == AddrAt(bs, 0) && tail == AddrAt(bs, |bs| - 1)
  }

  lemma AddrsDistinct(bs: seq<Block>, i: nat, j: nat)
    requires Tiled(bs) && i < |bs| && j < |bs| && i != j
    ensures bs[i].addr != bs[j].addr && bs[i].addr > 0
  {
    PayloadsDisjoint(bs, i, j);
    assert BlockOk(bs[i]);
  }

  /** Only the new blocks and the two links into the stretch are written. */
  ghost predicate Relinked(hdr: Headers, hdr': Headers, bs: seq<Block>, lo: nat, hi: nat, mid: seq<Block>)
    requires lo < hi <= |bs| && mid != []
  {
    && (forall i :: 0 <= i < |bs| && bs[i].addr in hdr && (i < lo - 1 || i > hi) ==>
          bs[i].addr in hdr' && hdr'[bs[i].addr] == hdr[bs[i].addr])
    && (lo > 0 && bs[lo - 1].addr in hdr ==>
          bs[lo - 1].addr in hdr' && hdr'[bs[lo - 1].addr] == hdr[bs[lo - 1].addr].(next := mid[0].addr))
    && (hi < |bs| && bs[hi].addr in hdr ==>
          bs[hi].addr in hdr' && hdr'[bs[hi].addr] == hdr[bs[hi].addr].(prev := mid[|mid| - 1].addr))
  }

  lemma ReplaceRep(c: Chain, c': Chain, bs: seq<Block>, lo: nat, hi: nat, mid: seq<Block>)
    requires Rep(c, bs) && lo < hi <= |bs| && mid != []
    requires Relinked(c.hdr, c'.hdr, bs, lo, hi, mid)
    requires forall i :: lo <= i < lo + |mid| ==> HeaderAt(c'.hdr, Replace(bs, lo, hi, mid), i)
    requires c'.head == (if lo == 0 then mid[0].addr else c.head)
    requires c'.tail == (if hi == |bs| then mid[|mid| - 1].addr else c.tail)
    ensures Rep(c', Replace(bs, lo, hi, mid))
  {
    var r, m := Replace(bs, lo, hi, mid), |mid|;
    forall i | 0 <= i < |r|
      ensures HeaderAt(c'.hdr, r, i)
    {
      if !(lo <= i < lo + m) {
        KeptHeader(c, c', bs, lo, hi, mid, i);
      }
    }
  }

  lemma KeptHeader(c: Chain, c': Chain, bs: seq<Block>, lo: nat, hi: nat, mid: seq<Block>, i: nat)
    requires Rep(c, bs) && lo < hi <= |bs| && mid != []
    requires Relinked(c.hdr, c'.hdr, bs, lo, hi, mid)
    requires i < |Replace(bs, lo, hi, mid)| && !(lo <= i < lo + |mid|)
    ensures HeaderAt(c'.hdr, Replace(bs, lo, hi, mid), i)
  {
    var r, m := Replace(bs, lo, hi, mid), |mid|;
    var k := if i < lo then i else i - m + (hi - lo);
    assert r[i] == bs[k];
    assert HeaderAt(c.hdr, bs, k);
    assert AddrAt(r, i + 1) == if i + 1 == lo then mid[0].addr else AddrAt(bs, k + 1);
    assert AddrAt(r, i - 1) == if i == lo + m then mid[m - 1].addr else AddrAt(bs, k - 1);
  }

  /** Appending a block behind the tail. */
  lemma AppendRep(c: Chain, c': Chain, bs: seq<Block>, b: Block)
    requires Rep(c, bs) && Tiled(bs + [b])
    requires HeaderAt(c'.hdr, bs + [b], |bs|)
    requires forall i :: 0 <= i < |bs| - 1 && bs[i].addr in c.hdr ==>
               bs[i].addr in c'.hdr && c'.hdr[bs[i].addr] == c.hdr[bs[i].addr]
    requires |bs| > 0 && c.tail in c.hdr ==> c.tail in c'.hdr && c'.hdr[c.tail] == c.hdr[c.tail].(next := b.addr)
    requires c'.head == (if bs == [] then b.addr else c.head) && c'.tail == b.addr
    ensures Rep(c', bs + [b])
  {
    var r := bs + [b];
    forall i | 0 <= i < |r|
      ensures HeaderAt(c'.hdr, r, i)
    {
      if i < |bs| {
        assert HeaderAt(c.hdr, bs, i);
      }
    }
  }

  /** Taking one block out of the list. */
  lemma DropRep(c: Chain, c': Chain, bs: seq<Block>, k: nat)
    requires Rep(c, bs) && k < |bs|
    requires forall i :: 0 <= i < |bs| && bs[i].addr in c.hdr && (i < k - 1 || i > k + 1) ==>
               bs[i].addr in c'.hdr && c'.hdr[bs[i].addr] == c.hdr[bs[i].addr]
    requires k > 0 && bs[k - 1].addr in c.hdr ==>
               bs[k - 1].addr in c'.hdr && c'.hdr[bs[k - 1].addr] == c.hdr[bs[k - 1].addr].(next := AddrAt(bs, k + 1))
    requires k + 1 < |bs| && bs[k + 1].addr in c.hdr ==>
               bs[k + 1].addr in c'.hdr && c'.hdr[bs[k + 1].addr] == c.hdr[bs[k + 1].addr].(prev := AddrAt(bs, k - 1))
    requires c'.head == (if k == 0 then AddrAt(bs, 1) else c.head)
    requires c'.tail == (if k + 1 == |bs| then AddrAt(bs, k - 1) else c.tail)
    ensures Rep(c', bs[..k] + bs[k + 1..])
  {
    var r := bs[..k] + bs[k + 1..];
    forall i | 0 <= i < |r|
      ensures HeaderAt(c'.hdr, r, i)
    {
      var j := if i < k then i else i + 1;
      assert r[i] == bs[j];
      assert HeaderAt(c.hdr, bs, j);
    }
  }

  // ----- the header writes of the operations

  ghost predicate NoDup(bs: seq<Block>)
  {
    && (forall i :: 0 <= i < |bs| ==> bs[i].addr > 0)
    && (forall i, j :: 0 <= i < j < |bs| ==> bs[i].addr != bs[j].addr)
  }

  lemma TiledNoDup(bs: seq<Block>)
    requires Tiled(bs)
    ensures NoDup(bs)
  {
    forall i | 0 <= i < |bs|
      ensures bs[i].addr > 0
    {
      assert BlockOk(bs[i]);
    }
    forall i, j | 0 <= i < j < |bs|
      ensures bs[i].addr != bs[j].addr
    {
      AddrsDistinct(bs, i, j);
    }
  }

  /** Block, its successor and predecessor as the header names them. */
  lemma Neighbours(c: Chain, bs: seq<Block>, k: nat)
    requires Rep(c, bs) && NoDup(bs) && k < |bs|
    ensures bs[k].addr in c.hdr && bs[k].addr > 0
    ensures var h := c.hdr[bs[k].addr];
            && h.size == bs[k].size && h.free == bs[k].free
            && h.pool == (bs[k].kind == PoolPage) && h.boundary == (bs[k].kind == First)
            && h.next == AddrAt(bs, k + 1) && h.prev == AddrAt(bs, k - 1)
            && (h.next != 0 <==> k + 1 < |bs|) && (h.prev != 0 <==> k > 0)
            && (h.next != 0 ==> h.next in c.hdr && h.next != bs[k].addr)
            && (h.prev != 0 ==> h.prev in c.hdr && h.prev != bs[k].addr)
  {
    assert HeaderAt(c.hdr, bs, k);
    assert k + 1 < |bs| ==> HeaderAt(c.hdr, bs, k + 1);
    assert k > 0 ==> HeaderAt(c.hdr, bs, k - 1);
  }

  ghost function SetFree(c: Chain, a: nat, free: bool): Chain
    requires a in c.hdr
  {
    c.(hdr := c.hdr[a := c.hdr[a].(free := free)])
  }

  lemma SetFreeRep(c: Chain, bs: seq<Block>, k: nat, free: bool)
    requires Rep(c, bs) && NoDup(bs) && k < |bs|
    ensures bs[k].addr in c.hdr
    ensures Rep(SetFree(c, bs[k].addr, free), Replace(bs, k, k + 1, [bs[k].(free := free)]))
  {
    hide Rep, NoDup, HeaderAt, Relinked, SetFree;
    Neighbours(c, bs, k);
    ChainEnds(c, bs);
    SetFreeWrites(c, bs, k, free);
    ReplaceRep(c, SetFree(c, bs[k].addr, free), bs, k, k + 1, [bs[k].(free := free)]);
  }

  lemma SetFreeWrites(c: Chain, bs: seq<Block>, k: nat, free: bool)
    requires Rep(c, bs) && NoDup(bs) && k < |bs| && bs[k].addr in c.hdr
    ensures var mid, c' := [bs[k].(free := free)], SetFree(c, bs[k].addr, free);
            && c'.head == c.head && c'.tail == c.tail
            && HeaderAt(c'.hdr, Replace(bs, k, k + 1, mid), k) && Relinked(c.hdr, c'.hdr, bs, k, k + 1, mid)
  {
    hide Rep;
    Neighbours(c, bs, k);
    var mid := [bs[k].(free := free)];
    var r := Replace(bs, k, k + 1, mid);
    if k > 0 { Neighbours(c, bs, k - 1); }
    if k + 1 < |bs| { Neighbours(c, bs, k + 1); }
    assert r[k] == mid[0];
    assert k > 0 ==> r[k - 1] == bs[k - 1];
    assert k + 1 < |bs| ==> r[k + 1] == bs[k + 1];
  }

  /** Writing the header of the rest, linking it in, and shortening the front. */
  ghost function CutChain(c: Chain, a: nat, size: nat): Chain
    requires a in c.hdr && c.hdr[a].size >= size + HEADER
    requires c.hdr[a].next != 0 ==> c.hdr[a].next in c.hdr
  {
    var s, h := a + HEADER + size, c.hdr[a];
    var h1 := c.hdr[s := Header(h.size - size - HEADER, true, false, false, 0, 0, h.next, a)];
    var h2 := if h.next != 0 then h1[h.next := h1[h.next].(prev := s)] else h1;
    Chain(h2[a := h2[a].(next := s, size := size, free := false)], c.head, if h.next != 0 then c.tail else s)
  }

  lemma CutHeaders(c: Chain, bs: seq<Block>, k: nat, size: nat)
    requires Rep(c, bs) && NoDup(bs) && k < |bs| && bs[k].size >= size + HEADER && bs[k].kind != PoolPage
    requires NoDup(Replace(bs, k, k + 1, Cut(bs[k], size)))
    ensures bs[k].addr in c.hdr && c.hdr[bs[k].addr].size == bs[k].size
    ensures c.hdr[bs[k].addr].next != 0 ==> c.hdr[bs[k].addr].next in c.hdr
    ensures var r := Replace(bs, k, k + 1, Cut(bs[k], size));
            var h := CutChain(c, bs[k].addr, size).hdr;
            HeaderAt(h, r, k) && HeaderAt(h, r, k + 1)
  {
    Neighbours(c, bs, k);
    hide Rep;
    var mid := Cut(bs[k], size);
    var c', r := CutChain(c, bs[k].addr, size), Replace(bs, k, k + 1, mid);
    assert r[k] == mid[0] && r[k + 1] == mid[1];
    assert k > 0 ==> r[k - 1] == bs[k - 1];
    assert k + 1 < |bs| ==> r[k + 2] == bs[k + 1];
  }

  lemma CutRelinked(c: Chain, bs: seq<Block>, k: nat, size: nat)
    requires Rep(c, bs) && NoDup(bs) && k < |bs| && bs[k].size >= size + HEADER
    requires NoDup(Replace(bs, k, k + 1, Cut(bs[k], size)))
    ensures bs[k].addr in c.hdr && c.hdr[bs[k].addr].size == bs[k].size
    ensures c.hdr[bs[k].addr].next != 0 ==> c.hdr[bs[k].addr].next in c.hdr
    ensures Relinked(c.hdr, CutChain(c, bs[k].addr, size).hdr, bs, k, k + 1, Cut(bs[k], size))
  {
    hide Rep, Replace;
    Neighbours(c, bs, k);
    if k > 0 { Neighbours(c, bs, k - 1); }
    if k + 1 < |bs| { Neighbours(c, bs, k + 1); }
    CutIsNew(bs, k, size);
  }

  lemma CutIsNew(bs: seq<Block>, k: nat, size: nat)
    requires k < |bs| && bs[k].size >= size + HEADER && NoDup(Replace(bs, k, k + 1, Cut(bs[k], size)))
    ensures forall i :: 0 <= i < |bs| ==> bs[i].addr != bs[k].addr + HEADER + size
  {
    var mid := Cut(bs[k], size);
    var r := Replace(bs, k, k + 1, mid);
    assert r[k + 1] == mid[1];
    forall i | 0 <= i < |bs|
      ensures bs[i].addr != mid[1].addr
    {
      assert i < k ==> r[i] == bs[i];
      assert i > k ==> r[i + 1] == bs[i];
    }
  }

  lemma CutRep(c: Chain, bs: seq<Block>, k: nat, size: nat)
    requires Rep(c, bs) && NoDup(bs) && k < |bs| && bs[k].size >= size + HEADER && bs[k].kind != PoolPage
    requires NoDup(Replace(bs, k, k + 1, Cut(bs[k], size)))
    ensures bs[k].addr in c.hdr && c.hdr[bs[k].addr].size == bs[k].size
    ensures c.hdr[bs[k].addr].next != 0 ==> c.hdr[bs[k].addr].next in c.hdr
    ensures Rep(CutChain(c, bs[k].addr, size), Replace(bs, k, k + 1, Cut(bs[k], size)))
  {
    CutHeaders(c, bs, k, size);
    CutRelinked(c, bs, k, size);
    Neighbours(c, bs, k);
    ChainEnds(c, bs);
    hide Rep, HeaderAt, Relinked, NoDup;
    ReplaceRep(c, CutChain(c, bs[k].addr, size), bs, k, k + 1, Cut(bs[k], size));
  }

  lemma ChainEnds(c: Chain, bs: seq<Block>)
    requires Rep(c, bs)
    ensures c.head == AddrAt(bs, 0) && c.tail == AddrAt(bs, |bs| - 1)
  {
  }

  /** Absorbing the next block. */
  ghost function MeltChain(c: Chain, a: nat): Chain
    requires a in c.hdr && c.hdr[a].next in c.hdr
    requires c.hdr[c.hdr[a].next].next != 0 ==> c.hdr[c.hdr[a].next].next in c.hdr
  {
    var f := c.hdr[c.hdr[a].next];
    var h1 := c.hdr[a := c.hdr[a].(size := c.hdr[a].size + HEADER + f.size, next := f.next)];
    Chain(if f.next != 0 then h1[f.next := h1[f.next].(prev := a)] else h1,
          c.head, if f.next != 0 then c.tail else a)
  }

  lemma MeltRep(c: Chain, bs: seq<Block>, k: nat)
    requires Rep(c, bs) && NoDup(bs) && k + 1 < |bs|
    ensures var a := bs[k].addr;
            && a in c.hdr && c.hdr[a].next == bs[k + 1].addr && c.hdr[a].next in c.hdr
            && (c.hdr[c.hdr[a].next].next != 0 ==> c.hdr[c.hdr[a].next].next in c.hdr)
            && Rep(MeltChain(c, a), Replace(bs, k, k + 2, [Melt(bs[k], bs[k + 1])]))
  {
    hide Rep, NoDup, HeaderAt, Relinked, MeltChain, Melt;
    Neighbours(c, bs, k);
    Neighbours(c, bs, k + 1);
    ChainEnds(c, bs);
    MeltHeader(c, bs, k);
    MeltRelinked(c, bs, k);
    ReplaceRep(c, MeltChain(c, bs[k].addr), bs, k, k + 2, [Melt(bs[k], bs[k + 1])]);
  }

  /** The absorbing block's header, and the ends of the list. */
  lemma MeltHeader(c: Chain, bs: seq<Block>, k: nat)
    requires Rep(c, bs) && NoDup(bs) && k + 1 < |bs|
    ensures var a := bs[k].addr;
            && a in c.hdr && c.hdr[a].next == bs[k + 1].addr && c.hdr[a].next in c.hdr
            && (c.hdr[c.hdr[a].next].next != 0 ==> c.hdr[c.hdr[a].next].next in c.hdr)
    ensures var c', mid := MeltChain(c, bs[k].addr), [Melt(bs[k], bs[k + 1])];
            && HeaderAt(c'.hdr, Replace(bs, k, k + 2, mid), k) && mid[0].addr == bs[k].addr
            && c'.head == c.head && c'.tail == (if k + 2 == |bs| then bs[k].addr else c.tail)
  {
    hide Rep;
    Neighbours(c, bs, k);
    Neighbours(c, bs, k + 1);
    var mid := [Melt(bs[k], bs[k + 1])];
    var r := Replace(bs, k, k + 2, mid);
    assert r[k] == mid[0];
    assert k > 0 ==> r[k - 1] == bs[k - 1];
    assert k + 2 < |bs| ==> r[k + 1] == bs[k + 2];
  }

  lemma MeltRelinked(c: Chain, bs: seq<Block>, k: nat)
    requires Rep(c, bs) && NoDup(bs) && k + 1 < |bs|
    ensures var a := bs[k].addr;
            && a in c.hdr && c.hdr[a].next in c.hdr
            && (c.hdr[c.hdr[a].next].next != 0 ==> c.hdr[c.hdr[a].next].next in c.hdr)
    ensures Relinked(c.hdr, MeltChain(c, bs[k].addr).hdr, bs, k, k + 2, [Melt(bs[k], bs[k + 1])])
  {
    hide Rep;
    Neighbours(c, bs, k);
    Neighbours(c, bs, k + 1);
    if k > 0 { Neighbours(c, bs, k - 1); }
    if k + 2 < |bs| { Neighbours(c, bs, k + 2); }
  }
}
