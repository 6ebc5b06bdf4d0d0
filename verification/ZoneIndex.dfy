/** The whole index of a zone as one value, and its two primitive updates. */
module ZoneIndex {
  import opened TlsfMapping
  import opened FreeRuns
  import opened FreeLists

  const MAX_PAGES: nat := SIZE_LIMIT / PAGE_SIZE

  datatype Index = Index(fl: set<nat>, sl: seq<set<nat>>, heads: map<Bin, nat>, hdr: seq<Header>,
                         lists: Lists, runs: Blocks)

  /** The bin every free block belongs to. */
  ghost function Home(runs: Blocks): map<nat, Bin> {
    map p | p in runs :: BinOf(runs[p])
  }

  ghost predicate SizesOk(hdr: seq<Header>, runs: Blocks)
  {
    forall p :: p in runs ==>
      0 < p < |hdr| && 1 <= runs[p] < MAX_PAGES && hdr[p].size == runs[p] * PAGE_SIZE && hdr[p].free
  }

  /** Bins, bitmaps and headers describe exactly the blocks in `runs`. */
  ghost predicate IndexOk(x: Index)
  {
    match x
    case Index(fl, sl, heads, hdr, lists, runs) =>
      BitsOk(fl, sl, lists) && ListsOk(heads, hdr, lists, Home(runs)) && SizesOk(hdr, runs)
  }

  ghost predicate SameSizes(h: seq<Header>, h': seq<Header>)
  {
    |h| == |h'| && forall p :: 0 <= p < |h| ==> h'[p].size == h[p].size && h'[p].free == h[p].free
  }

  /** The shape facts the code needs before it may touch block b. */
  lemma Touchable(x: Index, b: nat)
    requires IndexOk(x) && b in x.runs
    ensures 0 < b < |x.hdr| && x.hdr[b].next < |x.hdr| && x.hdr[b].prev < |x.hdr|
    ensures 1 <= x.runs[b] < MAX_PAGES && x.hdr[b].size == x.runs[b] * PAGE_SIZE && x.hdr[b].free
    ensures var bin := BinOf(x.runs[b]);
            bin in x.heads && InTable(bin) && bin in x.lists && b in x.lists[bin]
    ensures |x.sl| == FL_COUNT
  {
    hide MappingInsert;
    RemoveKeeps(x.heads, x.hdr, x.lists, Home(x.runs), b);
  }

  lemma BinReady(x: Index, pages: nat)
    requires IndexOk(x) && 1 <= pages < MAX_PAGES
    ensures var bin := BinOf(pages);
            InTable(bin) && bin in x.heads && bin in x.lists && x.heads[bin] < |x.hdr|
    ensures |x.sl| == FL_COUNT
  {
    MappingBounds(pages * PAGE_SIZE);
    HeadInMemory(x, BinOf(pages));
  }

  lemma HeadInMemory(x: Index, bin: Bin)
    requires IndexOk(x) && InTable(bin)
    ensures bin in x.heads && bin in x.lists && x.heads[bin] < |x.hdr|
  {
    hide MappingInsert;
    assert Linked(x.hdr, x.lists[bin], x.heads[bin]);
  }

  /** The index without block b. */
  ghost function Removed(x: Index, b: nat): Index
    requires IndexOk(x) && b in x.runs
  {
    Touchable(x, b);
    var bin, next := BinOf(x.runs[b]), x.hdr[b].next;
    var emptied := x.heads[bin] == b && next == BLOCK_NULL;
    var row := x.sl[bin.fl] - {bin.sl};
    Index(if emptied && row == {} then x.fl - {bin.fl} else x.fl,
          if emptied then x.sl[bin.fl := row] else x.sl,
          if x.heads[bin] == b then x.heads[bin := next] else x.heads,
          Unlink(x.hdr, b), Drop(x.lists, bin, b), x.runs - {b})
  }

  lemma RemovedLists(x: Index, b: nat)
    requires IndexOk(x) && b in x.runs
    ensures var y := Removed(x, b); ListsOk(y.heads, y.hdr, y.lists, Home(y.runs))
  {
    hide MappingInsert, Linked, BitsOk, SizesOk;
    Touchable(x, b);
    var bin := BinOf(x.runs[b]);
    RemoveKeeps(x.heads, x.hdr, x.lists, Home(x.runs), b);
    assert Home(x.runs - {b}) == Home(x.runs) - {b};
    assert x.heads == x.heads[bin := x.heads[bin]];
  }

  lemma RemovedBits(x: Index, b: nat)
    requires IndexOk(x) && b in x.runs
    ensures var y := Removed(x, b); BitsOk(y.fl, y.sl, y.lists)
  {
    hide MappingInsert;
    Touchable(x, b);
    var bin := BinOf(x.runs[b]);
    RemoveKeeps(x.heads, x.hdr, x.lists, Home(x.runs), b);
    var l' := Drop(x.lists, bin, b)[bin];
    if l' == [] {
      BitsCleared(x.fl, x.sl, x.lists, bin);
    } else {
      BitsSet(x.fl, x.sl, x.lists, bin, l');
    }
  }

  lemma RemovedOk(x: Index, b: nat)
    requires IndexOk(x) && b in x.runs
    ensures IndexOk(Removed(x, b))
    ensures Removed(x, b).runs == x.runs - {b}
    ensures SameSizes(x.hdr, Removed(x, b).hdr)
  {
    hide MappingInsert, ListsOk, BitsOk;
    Touchable(x, b);
    RemovedLists(x, b);
    RemovedBits(x, b);
  }

  /** The index with a new block b of the given length. */
  ghost function Inserted(x: Index, b: nat, pages: nat): Index
    requires IndexOk(x) && b < |x.hdr| && 1 <= pages < MAX_PAGES
  {
    BinReady(x, pages);
    var bin := BinOf(pages);
    Index(x.fl + {bin.fl}, x.sl[bin.fl := x.sl[bin.fl] + {bin.sl}], x.heads[bin := b],
          PushFront(x.hdr, b, x.heads[bin]), x.lists[bin := [b] + x.lists[bin]], x.runs[b := pages])
  }

  lemma InsertedLists(x: Index, b: nat, pages: nat)
    requires IndexOk(x) && b !in x.runs && 0 < b < |x.hdr| && 1 <= pages < MAX_PAGES
    ensures var y := Inserted(x, b, pages); ListsOk(y.heads, y.hdr, y.lists, Home(y.runs))
  {
    hide MappingInsert, Linked, BitsOk, SizesOk;
    BinReady(x, pages);
    var bin := BinOf(pages);
    InsertKeeps(x.heads, x.hdr, x.lists, Home(x.runs), b, bin);
    assert Home(x.runs[b := pages]) == Home(x.runs)[b := bin];
  }

  lemma InsertedBits(x: Index, b: nat, pages: nat)
    requires IndexOk(x) && b < |x.hdr| && 1 <= pages < MAX_PAGES
    ensures var y := Inserted(x, b, pages); BitsOk(y.fl, y.sl, y.lists)
  {
    hide MappingInsert;
    BinReady(x, pages);
    var bin := BinOf(pages);
    BitsSet(x.fl, x.sl, x.lists, bin, [b] + x.lists[bin]);
  }

  lemma InsertedOk(x: Index, b: nat, pages: nat)
    requires IndexOk(x) && b !in x.runs && 0 < b < |x.hdr| && 1 <= pages < MAX_PAGES
    requires x.hdr[b].size == pages * PAGE_SIZE && x.hdr[b].free
    ensures IndexOk(Inserted(x, b, pages))
    ensures SameSizes(x.hdr, Inserted(x, b, pages).hdr)
  {
    hide MappingInsert, ListsOk, BitsOk;
    BinReady(x, pages);
    InsertedLists(x, b, pages);
    InsertedBits(x, b, pages);
  }

  /** Headers outside the free blocks may hold anything. */
  lemma HeadersFrame(x: Index, hdr': seq<Header>)
    requires IndexOk(x) && |hdr'| == |x.hdr|
    requires forall p :: p in x.runs && p < |x.hdr| ==> hdr'[p] == x.hdr[p]
    ensures IndexOk(x.(hdr := hdr'))
  {
    hide MappingInsert;
    ListsFrame(x.heads, x.hdr, hdr', x.lists, Home(x.runs));
  }

  /** What the search for a block of `pages` pages finds. */
  ghost function Found(x: Index, pages: nat): nat
    requires IndexOk(x)
  {
    Candidate(x.fl, x.sl, x.heads, BinOf(pages))
  }

  /** The bin the search stops at is the bin of the block it finds there. */
  lemma FoundInBin(x: Index, want: Bin)
    requires IndexOk(x) && want.fl < FL_COUNT
    ensures match SearchSuitable(x.fl, x.sl, want)
            case None => true
            case Some(bin) => bin in x.heads && x.heads[bin] in x.runs && BinOf(x.runs[x.heads[bin]]) == bin
  {
    hide MappingInsert;
    match SearchSuitable(x.fl, x.sl, want)
    case None =>
    case Some(bin) =>
      assert InTable(bin) && x.lists[bin] != [];
      assert Linked(x.hdr, x.lists[bin], x.heads[bin]);
      assert x.heads[bin] == x.lists[bin][0];
      assert x.heads[bin] in Home(x.runs);
  }

  /** No block is found exactly when every free block is in an earlier bin; a
      block that is found is in the first bin that could serve the request, and
      short of it by less than one bin width. */
  lemma FoundFits(x: Index, pages: nat)
    requires IndexOk(x)
    ensures var c := Found(x, pages);
            if c == BLOCK_NULL then
              forall p :: p in x.runs ==> x.runs[p] < pages && !BinLe(BinOf(pages), BinOf(x.runs[p]))
            else
              && c in x.runs && BinLe(BinOf(pages), BinOf(x.runs[c]))
              && pages * PAGE_SIZE < x.runs[c] * PAGE_SIZE + BinWidth(BinOf(pages))
              && (pages < 64 ==> pages <= x.runs[c])
              && (pages >= 64 ==> 32 * pages < 33 * x.runs[c])
              && forall p :: p in x.runs && BinLe(BinOf(pages), BinOf(x.runs[p]))
                             ==> BinLe(BinOf(x.runs[c]), BinOf(x.runs[p]))
  {
    hide MappingInsert, BinLe, BinWidth;
    CandidateIsFirstFit(x.fl, x.sl, x.heads, x.hdr, x.lists, Home(x.runs), BinOf(pages));
    var c := Found(x, pages);
    if c == BLOCK_NULL {
      forall p | p in x.runs
        ensures x.runs[p] < pages && !BinLe(BinOf(pages), BinOf(x.runs[p]))
      {
        assert Home(x.runs)[p] == BinOf(x.runs[p]);
        if pages <= x.runs[p] {
          MappingMonotone(pages * PAGE_SIZE, x.runs[p] * PAGE_SIZE);
        }
      }
    } else {
      FoundBlockSize(pages, x.runs[c]);
      forall p | p in x.runs && BinLe(BinOf(pages), BinOf(x.runs[p]))
        ensures BinLe(BinOf(x.runs[c]), BinOf(x.runs[p]))
      {
        assert Home(x.runs)[p] == BinOf(x.runs[p]);
      }
    }
  }
}
