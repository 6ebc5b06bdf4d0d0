/** One zone of the physical page allocator. Block addresses and lengths are
    counted in pages; sizes kept in headers are in bytes, as the size classes
    need them. The zone lock makes every operation atomic. */
module Pma {
  import opened TlsfMapping
  import opened FreeRuns
  import opened FreeLists
  import opened ZoneIndex

  const HEADER_SIZE: nat := 24

  /** The allocations handed out and not yet freed. */
  ghost predicate LiveOk(bm: seq<bool>, live: Blocks)
  {
    && Disjoint(live)
    && forall p :: p in live ==> p > 0 && live[p] >= 1 && AllAre(bm, p, p + live[p], true)
  }

  /** The bitmap, the free blocks and the live allocations agree: free blocks
      tile the clear bits, live allocations are disjoint ranges of set bits. */
  datatype Pages = Pages(bm: seq<bool>, runs: Blocks, live: Blocks)

  ghost predicate PagesOk(g: Pages)
  {
    match g
    case Pages(bm, runs, live) => |bm| > 0 && bm[0] && Tiles(bm, runs) && LiveOk(bm, live)
  }

  /** The two alignments in use: one page, and 2 MB. */
  predicate Alignment(align: nat) {
    align == 1 || align == 512
  }

  function AlignUp(p: nat, align: nat): nat
    requires Alignment(align)
  {
    if align == 1 then p else (p + 511) / 512 * 512
  }

  class Zone {
    const totalPages: nat
    const bitmap: array<bool>          // true = used
    var flBitmap: set<nat>
    var slBitmap: seq<set<nat>>
    var heads: map<Bin, nat>
    var hdr: seq<Header>
    ghost var lists: Lists
    ghost var runs: Blocks
    ghost var live: Blocks

    ghost function View(): Index
      reads this
    {
      Index(flBitmap, slBitmap, heads, hdr, lists, runs)
    }

    ghost predicate Indexed()
      reads this
    {
      && 0 < totalPages <= MAX_PAGES
      && |hdr| == totalPages
      && IndexOk(View())
    }

    ghost predicate Valid()
      reads this, bitmap
    {
      && Indexed()
      && bitmap.Length == totalPages
      && PagesOk(Pages(bitmap[..], runs, live))
    }

    /** No two free blocks touch: they are the maximal runs of the bitmap. */
    ghost predicate Maximal()
      reads this, bitmap
    {
      MaximalRuns(bitmap[..], runs)
    }

    constructor (total: nat)
      requires 0 < total <= MAX_PAGES
      ensures Valid() && Maximal() && fresh(bitmap)
      ensures totalPages == total && runs == map[] && live == map[]
      ensures forall i :: 0 <= i < total ==> bitmap[i]
    {
      totalPages := total;
      bitmap := new bool[total](_ => true);
      flBitmap := {};
      slBitmap := seq(FL_COUNT, _ => {});
      heads := map f: nat, s: nat | f < FL_COUNT && s < SL_COUNT :: Bin(f, s) := BLOCK_NULL;
      hdr := seq(total, _ => Header(BLOCK_NULL, BLOCK_NULL, 0, false));
      lists := map f: nat, s: nat | f < FL_COUNT && s < SL_COUNT :: Bin(f, s) := [];
      runs, live := map[], map[];
      new;
      EmptyIndexOk(View());
      NoRuns(bitmap[..]);
    }

    method RemoveFreeBlock(b: nat, bin: Bin)
      requires Indexed() && b in runs && bin == BinOf(runs[b])
      modifies this`flBitmap, this`slBitmap, this`heads, this`hdr, this`lists, this`runs
      ensures Indexed() && View() == Removed(old(View()), b)
      ensures runs == old(runs) - {b} && SameSizes(old(hdr), hdr)
    {
      hide IndexOk, MappingInsert;
      ghost var x := View();
      Touchable(x, b);
      RemovedOk(x, b);
      var prev, next := hdr[b].prev, hdr[b].next;
      hdr := hdr[next := hdr[next].(prev := prev)];
      hdr := hdr[prev := hdr[prev].(next := next)];
      if heads[bin] == b {
        heads := heads[bin := next];
        if next == BLOCK_NULL {
          slBitmap := slBitmap[bin.fl := slBitmap[bin.fl] - {bin.sl}];
          if slBitmap[bin.fl] == {} {
            flBitmap := flBitmap - {bin.fl};
          }
        }
      }
      lists, runs := Drop(lists, bin, b), runs - {b};
    }

    method BlockRemove(b: nat)
      requires Indexed() && b in runs
      modifies this`flBitmap, this`slBitmap, this`heads, this`hdr, this`lists, this`runs
      ensures Indexed() && View() == Removed(old(View()), b)
      ensures runs == old(runs) - {b} && SameSizes(old(hdr), hdr)
    {
      hide IndexOk, MappingInsert;
      Touchable(View(), b);
      RemovedOk(View(), b);
      RemoveFreeBlock(b, MappingInsert(hdr[b].size));
    }

    method BlockInsert(b: nat, ghost pages: nat)
      requires Indexed() && b !in runs && 0 < b < totalPages && 1 <= pages < MAX_PAGES
      requires hdr[b].size == pages * PAGE_SIZE && hdr[b].free
      modifies this`flBitmap, this`slBitmap, this`heads, this`hdr, this`lists, this`runs
      ensures Indexed() && View() == Inserted(old(View()), b, pages)
      ensures runs == old(runs)[b := pages] && SameSizes(old(hdr), hdr)
    {
      hide IndexOk, MappingInsert;
      ghost var x := View();
      BinReady(x, pages);
      InsertedOk(x, b, pages);
      var bin := MappingInsert(hdr[b].size);
      var current := heads[bin];
      hdr := hdr[b := hdr[b].(next := current, prev := BLOCK_NULL)];
      hdr := hdr[current := hdr[current].(prev := b)];
      heads := heads[bin := b];
      flBitmap := flBitmap + {bin.fl};
      slBitmap := slBitmap[bin.fl := slBitmap[bin.fl] + {bin.sl}];
      lists, runs := lists[bin := [b] + lists[bin]], runs[b := pages];
    }

    /** Write the header of a new free block and index it. */
    method IndexNew(b: nat, pages: nat)
      requires Indexed() && b !in runs && 0 < b < totalPages && 1 <= pages < MAX_PAGES
      modifies this`flBitmap, this`slBitmap, this`heads, this`hdr, this`lists, this`runs
      ensures Indexed() && runs == old(runs)[b := pages]
    {
      hide IndexOk, Inserted;
      ghost var y := View();
      hdr := hdr[b := Header(BLOCK_NULL, BLOCK_NULL, pages * PAGE_SIZE, true)];
      HeadersFrame(y, hdr);
      assert View() == y.(hdr := hdr);
      BlockInsert(b, pages);
    }

    /** Find a block and take it off its list. */
    method LocateFree(pages: nat) returns (block: nat)
      requires Indexed() && pages >= 1
      modifies this`flBitmap, this`slBitmap, this`heads, this`hdr, this`lists, this`runs
      ensures Indexed() && block == old(Found(View(), pages))
      ensures block == BLOCK_NULL ==> View() == old(View())
      ensures block != BLOCK_NULL ==> block in old(runs) && View() == Removed(old(View()), block)
      ensures block != BLOCK_NULL ==> runs == old(runs) - {block} && SameSizes(old(hdr), hdr)
    {
      hide MappingInsert;
      var want := MappingInsert(pages * PAGE_SIZE);
      FoundFits(View(), pages);
      block := BLOCK_NULL;
      if want.fl < FL_COUNT {
        FoundInBin(View(), want);
        match SearchSuitable(flBitmap, slBitmap, want)
        case None =>
        case Some(bin) =>
          block := heads[bin];
          RemoveFreeBlock(block, bin);
      }
    }

    /** Cut `size` pages off the front of a block that is on no list. */
    method BlockSplit(block: nat, size: nat, ghost total: nat) returns (rest: nat)
      requires Indexed() && block !in runs && block + size !in runs
      requires 1 <= size < total && 0 < block && block + total <= totalPages
      requires hdr[block].size == total * PAGE_SIZE && hdr[block].free
      modifies this`hdr
      ensures Indexed() && rest == block + size
      ensures hdr == old(hdr)[rest := Header(old(hdr)[rest].prev, old(hdr)[rest].next, (total - size) * PAGE_SIZE,
                                             true)]
                     [block := old(hdr)[block].(size := size * PAGE_SIZE)]
    {
      hide IndexOk, MappingInsert;
      rest := block + size;
      var remain := hdr[block].size - size * PAGE_SIZE;
      ghost var x := View();
      hdr := hdr[rest := hdr[rest].(size := remain, free := true)];
      hdr := hdr[block := hdr[block].(size := size * PAGE_SIZE)];
      HeadersFrame(x, hdr);
      assert View() == x.(hdr := hdr);
    }

    /** Give the pages before the aligned address back as a block of their own. */
    method TrimHead(block: nat, alloc: nat, ghost n: nat)
      requires Indexed() && Detached(runs, block, n) && block + n <= totalPages
      requires 0 < block <= alloc < block + n
      requires hdr[block].size == n * PAGE_SIZE && hdr[block].free
      modifies this`flBitmap, this`slBitmap, this`heads, this`hdr, this`lists, this`runs
      ensures Indexed()
      ensures runs == if block < alloc then old(runs)[block := alloc - block] else old(runs)
      ensures hdr[alloc].size == (n - (alloc - block)) * PAGE_SIZE && hdr[alloc].free
    {
      hide IndexOk, MappingInsert, Removed, Inserted;
      Touchables(View());
      var headGap := alloc - block;
      // A gap is a whole number of pages, so it is either zero or large
      // enough for a header.
      if headGap * PAGE_SIZE >= HEADER_SIZE {
        var _ := BlockSplit(block, headGap, n);
        BlockInsert(block, headGap);
      }
    }

    /** Keep `pages` pages and give the rest back; or give it all back when the
        block turns out to be too short. */
    method TrimTail(block: nat, pages: nat, ghost n: nat) returns (ok: bool)
      requires Indexed() && Detached(runs, block, n) && block + n <= totalPages
      requires 0 < block && n >= 1 && pages >= 1
      requires hdr[block].size == n * PAGE_SIZE && hdr[block].free
      modifies this`flBitmap, this`slBitmap, this`heads, this`hdr, this`lists, this`runs
      ensures Indexed() && ok == (n >= pages)
      ensures runs == if n > pages then old(runs)[block + pages := n - pages]
                      else if n == pages then old(runs) else old(runs)[block := n]
    {
      hide IndexOk, MappingInsert, Removed, Inserted;
      Touchables(View());
      var size := hdr[block].size;
      if size > pages * PAGE_SIZE + HEADER_SIZE {
        var rest := BlockSplit(block, pages, n);
        BlockInsert(rest, n - pages);
      } else if size < pages * PAGE_SIZE {
        BlockInsert(block, n);
        return false;
      }
      ghost var y := View();
      hdr := hdr[block := hdr[block].(free := false)];
      HeadersFrame(y, hdr);
      assert View() == y.(hdr := hdr);
      ok := true;
    }

    /** Carve an aligned range of `pages` pages out of the found block. */
    method CarveBlock(pages: nat, align: nat) returns (r: nat)
      requires Valid()
      requires pages >= 1 && Alignment(align) && pages % align == 0
      modifies this`flBitmap, this`slBitmap, this`heads, this`hdr, this`lists, this`runs
      ensures Indexed()
      ensures AllocOutcome(old(View()), pages, align, r, runs)
    {
      hide IndexOk, PagesOk, MappingInsert, Removed, Inserted, AlignUp, BinOf, Found;
      var search := pages;
      if align > 1 {
        search := search + align - 1;
      }
      ghost var x := View();
      CandidateBlock(x, Pages(bitmap[..], runs, live), pages, align);
      var block := LocateFree(search);
      if block == BLOCK_NULL {
        return 0;
      }
      Touchable(x, block);
      var alloc := AlignUp(block, align);
      ghost var n := x.runs[block];
      TrimHead(block, alloc, n);
      var ok := TrimTail(alloc, pages, n - (alloc - block));
      r := if ok then alloc else 0;
      Outcome(x, pages, align, runs);
    }

    /** pma_alloc_from_zone. A result of 0 is failure. */
    method Alloc(pages: nat, align: nat) returns (r: nat)
      requires Valid() && pages >= 1 && Alignment(align) && pages % align == 0
      modifies this, bitmap
      ensures Valid()
      ensures AllocOutcome(old(View()), pages, align, r, runs)
      ensures r == 0 ==> bitmap[..] == old(bitmap[..]) && live == old(live)
      ensures r != 0 ==>
                var c := Found(old(View()), pages + align - 1);
                && c in old(runs) && LeastMultiple(c, align, r) && r + pages <= c + old(runs)[c]
      ensures r != 0 ==> bitmap[..] == SetRange(old(bitmap[..]), r, pages, true)
      ensures r != 0 ==> live == old(live)[r := pages] && AllAre(old(bitmap[..]), r, r + pages, false)
      ensures old(Maximal()) ==> (Maximal() <==> !LeavesHeadSplit(old(View()), pages, align))
    {
      hide IndexOk, PagesOk, AllocOutcome, LeavesHeadSplit;
      ghost var x, g := View(), Pages(bitmap[..], runs, live);
      r := CarveBlock(pages, align);
      AllocPages(x, g, pages, align, r, runs);
      if r != 0 {
        AllocAligned(x, pages, align, r, runs);
        var i := 0;
        while i < pages
          modifies bitmap
          invariant i <= pages && bitmap[..] == SetRange(g.bm, r, i, true)
        {
          bitmap[r + i] := true;
          i := i + 1;
          assert bitmap[..] == SetRange(g.bm, r, i, true);
        }
        live := live[r := pages];
      }
    }

    method FindFreeStart(from: nat) returns (pfn: nat)
      requires from <= bitmap.Length
      ensures pfn == Before(bitmap[..], from)
    {
      pfn := from;
      while pfn > 0 && !bitmap[pfn - 1]
        invariant pfn <= from && Before(bitmap[..], pfn) == Before(bitmap[..], from)
      {
        pfn := pfn - 1;
      }
    }

    method FindFreeEnd(from: nat) returns (pfn: nat)
      requires from <= bitmap.Length
      ensures pfn == After(bitmap[..], from)
    {
      pfn := from;
      while pfn < bitmap.Length && !bitmap[pfn]
        invariant from <= pfn <= bitmap.Length && After(bitmap[..], pfn) == After(bitmap[..], from)
      {
        pfn := pfn + 1;
      }
    }

    /** Absorb the free blocks before and after a range whose bits have just
        been cleared, and index the result as one block. */
    method Coalesce(s: nat, count: nat, ghost g: Pages)
      requires Indexed() && bitmap.Length == totalPages && runs == g.runs
      requires PagesOk(g) && MaximalRuns(g.bm, g.runs) && |g.bm| == totalPages
      requires s > 0 && count >= 1 && AllAre(g.bm, s, s + count, true)
      requires bitmap[..] == SetRange(g.bm, s, count, false)
      modifies this`flBitmap, this`slBitmap, this`heads, this`hdr, this`lists, this`runs
      ensures Indexed() && runs == Merge(g.bm, g.runs, s, count)
    {
      hide IndexOk, PagesOk, MaximalRuns, Removed, Inserted, MappingInsert, BinOf, Merge, Before, After;
      BlockBefore(g, s, count);
      BlockAfter(g, s, count);
      MergedRuns(g, s, count);
      assert bitmap[s - 1] == g.bm[s - 1] && (s + count < totalPages ==> bitmap[s + count] == g.bm[s + count]);
      hide SetRange, AllAre, SameSizes;
      var mergeStart := s;
      if s > 0 && !bitmap[s - 1] {
        mergeStart := FindFreeStart(s - 1);
        BlockRemove(mergeStart);
      }
      var mergeEnd := s + count;
      if mergeEnd < totalPages && !bitmap[mergeEnd] {
        var nextEnd := FindFreeEnd(mergeEnd);
        BlockRemove(mergeEnd);
        mergeEnd := nextEnd;
      }
      IndexNew(mergeStart, mergeEnd - mergeStart);
    }

    /** pma_zone_free_range. Empty ranges and ranges past the end of the zone
        are ignored; otherwise the range is a live allocation, or a part of one
        whose other pages stay live. */
    method FreeRange(s: nat, count: nat, ghost owner: nat)
      requires Valid() && Maximal()
      requires count > 0 && s + count <= totalPages ==> Within(live, owner, s, count)
      modifies this, bitmap
      ensures Valid() && Maximal()
      ensures if count == 0 || s + count > totalPages then
                bitmap[..] == old(bitmap[..]) && View() == old(View()) && live == old(live)
              else
                && bitmap[..] == SetRange(old(bitmap[..]), s, count, false)
                && runs == Merge(old(bitmap[..]), old(runs), s, count)
                && live == Released(old(live), owner, s, count)
    {
      hide IndexOk, PagesOk, MaximalRuns, Merge;
      if count == 0 {
        return;
      }
      if s + count > totalPages {
        return;
      }
      ghost var g := Pages(bitmap[..], runs, live);
      FreePages(g, owner, s, count);
      var i := 0;
      while i < count
        modifies bitmap
        invariant i <= count && bitmap[..] == SetRange(g.bm, s, i, false)
      {
        bitmap[s + i] := false;
        i := i + 1;
        assert bitmap[..] == SetRange(g.bm, s, i, false);
      }
      Coalesce(s, count, g);
      live := Released(live, owner, s, count);
    }

    /** Clear the bits of a range of used pages and index it as one block. */
    method AddBlock(s: nat, n: nat)
      requires Valid() && s >= 1 && n >= 1 && s + n <= totalPages
      requires AllAre(bitmap[..], s, s + n, true) && Detached(live, s, n)
      modifies this, bitmap
      ensures Valid() && live == old(live) && runs == old(runs)[s := n]
      ensures bitmap[..] == SetRange(old(bitmap[..]), s, n, false)
      ensures old(Maximal()) ==> (Maximal() <==> Apart(old(bitmap[..]), s, n))
    {
      hide IndexOk, PagesOk, MaximalRuns, Inserted;
      ghost var g := Pages(bitmap[..], runs, live);
      AddPages(g, s, n);
      var i := 0;
      while i < n
        modifies bitmap
        invariant i <= n && bitmap[..] == SetRange(g.bm, s, i, false)
      {
        bitmap[s + i] := false;
        i := i + 1;
        assert bitmap[..] == SetRange(g.bm, s, i, false);
      }
      IndexNew(s, n);
    }

    /** pma_zone_add_region, for a byte range inside the zone whose whole pages
        have not been added before. Regions that touch a free page leave two
        adjacent free blocks. */
    method AddRegion(base: nat, length: nat)
      requires Valid() && base + length <= totalPages * PAGE_SIZE
      requires var (s, n) := RegionPages(base, length);
               n > 0 ==> AllAre(bitmap[..], s, s + n, true) && Detached(live, s, n)
      modifies this, bitmap
      ensures Valid() && live == old(live)
      ensures var (s, n) := RegionPages(base, length);
              if n == 0 then bitmap[..] == old(bitmap[..]) && View() == old(View())
              else
                && bitmap[..] == SetRange(old(bitmap[..]), s, n, false)
                && runs == old(runs)[s := n]
                && (old(Maximal()) ==> (Maximal() <==> Apart(old(bitmap[..]), s, n)))
    {
      hide IndexOk, PagesOk, MaximalRuns;
      if length < HEADER_SIZE {
        return;
      }
      var start := (base + PAGE_SIZE - 1) / PAGE_SIZE * PAGE_SIZE;
      var end := (base + length) / PAGE_SIZE * PAGE_SIZE;
      if end <= start {
        return;
      }
      if start == 0 {
        start := start + PAGE_SIZE;
        if end <= start {
          return;
        }
      }
      AddBlock(start / PAGE_SIZE, (end - start) / PAGE_SIZE);
    }

    /** The owner of a used page may write anything into it, header included. */
    method ClientWrite(page: nat, h: Header)
      requires Valid() && page < totalPages && bitmap[page]
      modifies this`hdr
      ensures Valid() && hdr == old(hdr)[page := h]
    {
      hide IndexOk, PagesOk;
      FreeIsClear(Pages(bitmap[..], runs, live));
      ghost var y := View();
      hdr := hdr[page := h];
      HeadersFrame(y, hdr);
      assert View() == y.(hdr := hdr);
    }

    /** Freeing what an allocation returned restores the same free blocks. */
    method AllocThenFree(pages: nat, align: nat) returns (r: nat)
      requires Valid() && Maximal() && pages >= 1 && Alignment(align) && pages % align == 0
      requires !LeavesHeadSplit(View(), pages, align)
      modifies this, bitmap
      ensures Valid() && Maximal()
      ensures bitmap[..] == old(bitmap[..]) && runs == old(runs)
      ensures r != 0 ==> AllAre(bitmap[..], r, r + pages, false)
    {
      hide IndexOk, PagesOk, AllocOutcome, MaximalRuns, LeavesHeadSplit, Merge;
      r := Alloc(pages, align);
      if r != 0 {
        LiveInZone(Pages(bitmap[..], runs, live), r);
        FreeRange(r, pages, r);
        assert bitmap[..] == old(bitmap[..]);
      }
      RunsDetermined(bitmap[..], runs, old(runs));
    }

    /** The block LocateFree would take. */
    method Peek(pages: nat) returns (block: nat)
      requires Indexed() && pages >= 1
      ensures block == Found(View(), pages)
      ensures block != BLOCK_NULL ==> block in runs && block < totalPages && hdr[block].size == runs[block] * PAGE_SIZE
    {
      hide MappingInsert;
      var want := MappingInsert(pages * PAGE_SIZE);
      FoundFits(View(), pages);
      block := BLOCK_NULL;
      if want.fl < FL_COUNT {
        FoundInBin(View(), want);
        match SearchSuitable(flBitmap, slBitmap, want)
        case None =>
        case Some(bin) =>
          block := heads[bin];
          Touchable(View(), block);
      }
    }

    /** Whether an aligned allocation would end at the exit that splits off a
        block's head and then fails, read from the zone before the call. */
    method WouldSplitHead(pages: nat, align: nat) returns (split: bool)
      requires Valid() && pages >= 1 && Alignment(align) && pages % align == 0
      ensures split == LeavesHeadSplit(View(), pages, align)
    {
      hide IndexOk, PagesOk, AlignUp, Found;
      var block := Peek(pages + align - 1);
      if block == BLOCK_NULL {
        return false;
      }
      var a := AlignUp(block, align);
      split := block < a && block + hdr[block].size / PAGE_SIZE < a + pages;
    }

    /** Any history of page and 2 MB allocations, frees of live allocations or of
        parts of them, and writes by page owners keeps every invariant of the
        zone, as long as no aligned allocation ends at its failing exit after a
        head split; what is live is what was allocated and not yet freed, and
        every 2 MB allocation was handed out on a multiple of 512 pages. */
    method Run(ops: seq<Op>) returns (held: Blocks, grants: seq<Grant>)
      requires Valid() && Maximal() && live == map[]
      modifies this, bitmap
      ensures Valid() && Maximal() && held == live
      ensures AllGranted(held, grants)
    {
      hide IndexOk, PagesOk, AllocOutcome, MaximalRuns, LeavesHeadSplit, AllGranted, Found, LeastMultiple;
      held, grants := map[], [];
      NoneGranted();
      for k := 0 to |ops|
        invariant Valid() && Maximal() && held == live && AllGranted(held, grants)
      {
        match ops[k]
        case DoAlloc(n, large) =>
          if n >= 1 {
            var align := if large then 512 else 1;
            var split := WouldSplitHead(n * align, align);
            if !split {
              ghost var c := Found(View(), n * align + align - 1);
              var r := Alloc(n * align, align);
              if r != 0 {
                Granted(held, grants, r, n, large, c);
                held, grants := held[r := n * align], grants + [Grant(r, n * align, large)];
              }
            }
          }
        case DoFree(p, from, n) =>
          if p in held && n >= 1 && from + n <= held[p] {
            LiveInZone(Pages(bitmap[..], runs, live), p);
            FreeRange(p + from, n, p);
            PartGranted(held, grants, p, p + from, n);
            held := Released(held, p, p + from, n);
          }
        case DoWrite(p, h) =>
          if p < totalPages && bitmap[p] { ClientWrite(p, h); }
      }
    }
  }

  /** What was handed out: the first page, how many, and whether as 2 MB blocks. */
  datatype Grant = Grant(page: nat, pages: nat, large: bool)

  /** 2 MB blocks were handed out on multiples of 512 pages, and everything held
      lies in what was handed out. */
  ghost predicate AllGranted(held: Blocks, grants: seq<Grant>) {
    && (forall i :: 0 <= i < |grants| && grants[i].large ==> grants[i].page % 512 == 0 && grants[i].pages % 512 == 0)
    && (forall p :: p in held ==> exists i :: 0 <= i < |grants| && InGrant(p, held[p], grants[i]))
  }

  ghost predicate InGrant(p: nat, n: nat, g: Grant) {
    g.page <= p && p + n <= g.page + g.pages
  }

  lemma NoneGranted()
    ensures AllGranted(map[], [])
  {
  }

  lemma Granted(held: Blocks, grants: seq<Grant>, r: nat, n: nat, large: bool, c: nat)
    requires AllGranted(held, grants) && LeastMultiple(c, if large then 512 else 1, r)
    ensures var pages := n * if large then 512 else 1;
            AllGranted(held[r := pages], grants + [Grant(r, pages, large)])
  {
    var pages := n * if large then 512 else 1;
    var gs, all := grants + [Grant(r, pages, large)], held[r := pages];
    assert gs[|grants|] == Grant(r, pages, large) && forall i :: 0 <= i < |grants| ==> gs[i] == grants[i];
    forall p | p in all
      ensures exists i :: 0 <= i < |gs| && InGrant(p, all[p], gs[i])
    {
      if p == r {
        assert InGrant(r, pages, gs[|grants|]);
      } else {
        var i :| 0 <= i < |grants| && InGrant(p, held[p], grants[i]);
        assert InGrant(p, held[p], gs[i]);
      }
    }
  }

  lemma PartGranted(held: Blocks, grants: seq<Grant>, owner: nat, s: nat, n: nat)
    requires AllGranted(held, grants) && Within(held, owner, s, n)
    ensures AllGranted(Released(held, owner, s, n), grants)
  {
    var rest := Released(held, owner, s, n);
    forall p | p in rest
      ensures exists i :: 0 <= i < |grants| && InGrant(p, rest[p], grants[i])
    {
      var q := if p == owner || (p == s + n && s + n < owner + held[owner]) then owner else p;
      var i :| 0 <= i < |grants| && InGrant(q, held[q], grants[i]);
      assert InGrant(p, rest[p], grants[i]);
    }
  }

  /** An allocation of n pages or n 2 MB blocks; a free of n pages of the
      allocation at p, from an offset on; a write by a page's owner. */
  datatype Op = DoAlloc(n: nat, large: bool) | DoFree(p: nat, from: nat, n: nat) | DoWrite(p: nat, h: Header)

  /** The range belongs to one live allocation. */
  predicate Within(live: Blocks, owner: nat, s: nat, count: nat) {
    owner in live && owner <= s && s + count <= owner + live[owner]
  }

  /** What stays live when part of an allocation is freed. */
  function Released(live: Blocks, owner: nat, s: nat, count: nat): Blocks
    requires Within(live, owner, s, count)
  {
    var end := owner + live[owner];
    var head := if owner < s then live[owner := s - owner] else live - {owner};
    if s + count < end then head[s + count := end - (s + count)] else head
  }

  /** First page and page count of the whole pages in a byte range, page 0
      excepted. */
  function RegionPages(base: nat, length: nat): (nat, nat) {
    var s := (base + PAGE_SIZE - 1) / PAGE_SIZE;
    var s' := if s == 0 then 1 else s;
    var e := (base + length) / PAGE_SIZE;
    if length < HEADER_SIZE || e <= s' then (s', 0) else (s', e - s')
  }

  /** The pages of a region are exactly those that lie in its bytes, page 0
      excepted; a region too short for a header has none. */
  lemma RegionWhole(base: nat, length: nat)
    ensures var (s, n) := RegionPages(base, length);
            forall p: nat :: s <= p < s + n <==>
              p >= 1 && length >= HEADER_SIZE && base <= p * PAGE_SIZE && (p + 1) * PAGE_SIZE <= base + length
  {
  }

  /** The pages next to a range are used. */
  ghost predicate Apart(bm: seq<bool>, s: nat, n: nat)
    requires s + n <= |bm|
  {
    (s == 0 || bm[s - 1]) && (s + n == |bm| || bm[s + n])
  }

  lemma AddPages(g: Pages, s: nat, n: nat)
    requires PagesOk(g) && s >= 1 && n >= 1 && AllAre(g.bm, s, s + n, true) && Detached(g.live, s, n)
    ensures PagesOk(Pages(SetRange(g.bm, s, n, false), g.runs[s := n], g.live))
    ensures forall p :: p in g.runs ==> p != s
    ensures MaximalRuns(g.bm, g.runs) ==>
              (MaximalRuns(SetRange(g.bm, s, n, false), g.runs[s := n]) <==> Apart(g.bm, s, n))
  {
    AddTiles(g.bm, g.runs, s, n);
    assert LiveOk(SetRange(g.bm, s, n, false), g.live) by {
      forall p | p in g.live
        ensures AllAre(SetRange(g.bm, s, n, false), p, p + g.live[p], true)
      {
        assert AllAre(g.bm, p, p + g.live[p], true);
      }
    }
    if MaximalRuns(g.bm, g.runs) {
      AddMaximal(g.bm, g.runs, s, n);
    }
  }

  lemma AddTiles(bm: seq<bool>, runs: Blocks, s: nat, n: nat)
    requires Tiles(bm, runs) && n >= 1 && AllAre(bm, s, s + n, true)
    ensures s !in runs && Tiles(SetRange(bm, s, n, false), runs[s := n])
  {
    var bm', runs' := SetRange(bm, s, n, false), runs[s := n];
    forall p | p in runs
      ensures p + runs[p] <= s || s + n <= p
      ensures AllAre(bm', p, p + runs[p], false)
    {
      assert AllAre(bm, p, p + runs[p], false);
      assert !bm[p] && bm[s];
    }
    forall q: nat | q < |bm'| && !bm'[q]
      ensures exists p :: Covers(runs', p, q)
    {
      if s <= q < s + n {
        assert Covers(runs', s, q);
      } else {
        var p :| Covers(runs, p, q);
        assert Covers(runs', p, q);
      }
    }
  }

  lemma AddMaximal(bm: seq<bool>, runs: Blocks, s: nat, n: nat)
    requires s >= 1 && n >= 1 && AllAre(bm, s, s + n, true)
    requires MaximalRuns(bm, runs)
    ensures MaximalRuns(SetRange(bm, s, n, false), runs[s := n]) <==> Apart(bm, s, n)
  {
    var bm', runs' := SetRange(bm, s, n, false), runs[s := n];
    assert IsRun(bm', s, n) ==> Apart(bm, s, n);
    if Apart(bm, s, n) {
      AddApart(bm, runs, s, n);
    }
  }

  lemma AddApart(bm: seq<bool>, runs: Blocks, s: nat, n: nat)
    requires s >= 1 && n >= 1 && AllAre(bm, s, s + n, true) && Apart(bm, s, n)
    requires MaximalRuns(bm, runs)
    ensures MaximalRuns(SetRange(bm, s, n, false), runs[s := n])
  {
    MergeMaximal(bm, runs, s, n);
    StartsClear(bm, runs);
    hide MaximalRuns;
    assert Before(bm, s) == s && After(bm, s + n) == s + n;
    assert runs[s := n] == Merge(bm, runs, s, n);
  }

  lemma FreeIsClear(g: Pages)
    requires PagesOk(g)
    ensures forall p :: p in g.runs ==> p < |g.bm| && !g.bm[p]
  {
    forall p | p in g.runs
      ensures p < |g.bm| && !g.bm[p]
    {
      assert AllAre(g.bm, p, p + g.runs[p], false);
    }
  }

  lemma LiveInZone(g: Pages, p: nat)
    requires PagesOk(g) && p in g.live
    ensures p + g.live[p] <= |g.bm| && g.live[p] >= 1
  {
    assert AllAre(g.bm, p, p + g.live[p], true);
  }

  lemma NoHeadSplit(x: Index, pages: nat)
    requires IndexOk(x)
    ensures !LeavesHeadSplit(x, pages, 1)
  {
  }

  /** Below 64 pages the bins are exact: a page-aligned allocation fails
      exactly when no free run is long enough. */
  lemma SmallAllocFailsIff(x: Index, pages: nat, r: nat, runs: Blocks)
    requires IndexOk(x) && 1 <= pages < 64 && AllocOutcome(x, pages, 1, r, runs)
    ensures r == 0 <==> forall p :: p in x.runs ==> x.runs[p] < pages
  {
    hide IndexOk, Found, BinOf, BinWidth;
    FoundFits(x, pages);
    var c := Found(x, pages);
    if c != BLOCK_NULL {
      Touchable(x, c);
    }
  }

  /** For any length, an allocation that fails although some free run is long
      enough does so because the block at the head of the request's own bin is
      the candidate and is too short. */
  lemma AllocFailsIff(x: Index, pages: nat, r: nat, runs: Blocks)
    requires IndexOk(x) && 1 <= pages && AllocOutcome(x, pages, 1, r, runs)
    ensures var c := Found(x, pages);
            r == 0 <==>
              || (forall p :: p in x.runs ==> x.runs[p] < pages && BinOf(x.runs[p]) != BinOf(pages))
              || (c in x.runs && BinOf(x.runs[c]) == BinOf(pages) && x.runs[c] < pages)
  {
    hide IndexOk, Found, MappingInsert, BinWidth;
    FoundFits(x, pages);
    var c := Found(x, pages);
    if c == BLOCK_NULL {
      hide BinOf;
    } else {
      Touchable(x, c);
      FoundBlockSize(pages, x.runs[c]);
    }
  }

  lemma FreePages(g: Pages, owner: nat, s: nat, count: nat)
    requires PagesOk(g) && MaximalRuns(g.bm, g.runs) && count >= 1
    requires Within(g.live, owner, s, count)
    ensures s > 0 && s + count <= |g.bm| && AllAre(g.bm, s, s + count, true)
    ensures var bm', runs' := SetRange(g.bm, s, count, false), Merge(g.bm, g.runs, s, count);
            MaximalRuns(bm', runs') && PagesOk(Pages(bm', runs', Released(g.live, owner, s, count)))
  {
    assert AllAre(g.bm, owner, owner + g.live[owner], true);
    MergeMaximal(g.bm, g.runs, s, count);
    var bm', runs' := SetRange(g.bm, s, count, false), Merge(g.bm, g.runs, s, count);
    MaximalTiles(bm', runs');
    ReleasedOk(g.bm, g.live, owner, s, count);
  }

  /** The remaining allocations stay disjoint and their pages used. */
  lemma ReleasedOk(bm: seq<bool>, live: Blocks, owner: nat, s: nat, count: nat)
    requires LiveOk(bm, live) && Within(live, owner, s, count) && count >= 1 && s + count <= |bm|
    ensures LiveOk(SetRange(bm, s, count, false), Released(live, owner, s, count))
  {
    var end, rest := owner + live[owner], Released(live, owner, s, count);
    assert AllAre(bm, owner, end, true);
    forall p | p in live && p != owner
      ensures p + live[p] <= owner || end <= p
    {
    }
    forall p | p in rest
      ensures p > 0 && rest[p] >= 1 && AllAre(SetRange(bm, s, count, false), p, p + rest[p], true)
    {
      assert p in live && p != owner && p != s + count ==> AllAre(bm, p, p + live[p], true);
    }
  }

  lemma MergedRuns(g: Pages, s: nat, count: nat)
    requires s + count <= |g.bm|
    ensures var b, n := Before(g.bm, s), s + count;
            var r1 := if b in g.runs then g.runs - {b} else g.runs;
            var r2 := if n in g.runs then r1 - {n} else r1;
            r2[b := After(g.bm, n) - b] == Merge(g.bm, g.runs, s, count)
  {
  }

  /** The scans of the bitmap find exactly the free blocks next to a range. */
  lemma BlockBefore(g: Pages, s: nat, count: nat)
    requires PagesOk(g) && MaximalRuns(g.bm, g.runs)
    requires s > 0 && count >= 1 && AllAre(g.bm, s, s + count, true)
    ensures var b := Before(g.bm, s);
            && 0 < b
            && if g.bm[s - 1] then b == s && s !in g.runs
               else b < s && b in g.runs && g.runs[b] == s - b
                    && Before(SetRange(g.bm, s, count, false), s - 1) == b
  {
    hide Tiles, LiveOk;
    BeforeSpec(g.bm, s);
    var b := Before(g.bm, s);
    assert !g.bm[s - 1] ==> IsRun(g.bm, b, s - b);
    StartsClear(g.bm, g.runs);
    if !g.bm[s - 1] {
      BeforeFrame(g.bm, SetRange(g.bm, s, count, false), s - 1);
    }
  }

  lemma BlockAfter(g: Pages, s: nat, count: nat)
    requires PagesOk(g) && MaximalRuns(g.bm, g.runs)
    requires s > 0 && count >= 1 && AllAre(g.bm, s, s + count, true)
    ensures var n, e := s + count, After(g.bm, s + count);
            && e <= |g.bm|
            && if n == |g.bm| || g.bm[n] then e == n && n !in g.runs
               else n in g.runs && g.runs[n] == e - n && After(SetRange(g.bm, s, count, false), n) == e
  {
    hide Tiles, LiveOk, After;
    AfterSpec(g.bm, s + count);
    var n, e := s + count, After(g.bm, s + count);
    assert n < |g.bm| && !g.bm[n] ==> IsRun(g.bm, n, e - n);
    StartsClear(g.bm, g.runs);
    AfterFrame(g.bm, SetRange(g.bm, s, count, false), n);
  }

  /** The one outcome that leaves two touching free blocks: the candidate was
      not aligned, so its head was split off, and what remained was too short. */
  ghost predicate LeavesHeadSplit(x: Index, pages: nat, align: nat)
    requires IndexOk(x) && Alignment(align)
  {
    var c := Found(x, pages + align - 1);
    c != BLOCK_NULL && c in x.runs && c < AlignUp(c, align) && c + x.runs[c] < AlignUp(c, align) + pages
  }

  ghost function AfterAlloc(g: Pages, r: nat, pages: nat, runs: Blocks): Pages {
    if r == 0 then g.(runs := runs)
    else Pages(SetRange(g.bm, r, pages, true), runs, g.live[r := pages])
  }

  lemma AllocPages(x: Index, g: Pages, pages: nat, align: nat, r: nat, runs: Blocks)
    requires IndexOk(x) && PagesOk(g) && g.runs == x.runs
    requires pages >= 1 && Alignment(align) && pages % align == 0
    requires AllocOutcome(x, pages, align, r, runs)
    ensures PagesOk(AfterAlloc(g, r, pages, runs))
    ensures r != 0 ==> AllAre(g.bm, r, r + pages, false)
    ensures MaximalRuns(g.bm, g.runs) ==>
              (MaximalRuns(AfterAlloc(g, r, pages, runs).bm, runs) <==> !LeavesHeadSplit(x, pages, align))
  {
    hide IndexOk, PagesOk, MaximalRuns, Found, AlignUp, Carve;
    CandidateBlock(x, g, pages, align);
    var c := Found(x, pages + align - 1);
    if c != BLOCK_NULL {
      Touchable(x, c);
      var a := AlignUp(c, align);
      if a + pages <= c + g.runs[c] {
        CarvePages(g, c, a, pages);
      } else if c < a {
        SplitPages(g, c, a);
      }
    }
  }

  /** a is the least multiple of the alignment from c on. */
  ghost predicate LeastMultiple(c: nat, align: nat, a: nat)
    requires align >= 1
  {
    a % align == 0 && c <= a && forall b: nat :: c <= b && b % align == 0 ==> a <= b
  }

  lemma AlignUpIsLeast(c: nat, align: nat)
    requires Alignment(align)
    ensures LeastMultiple(c, align, AlignUp(c, align))
  {
    if align == 512 {
      var q := (c + 511) / 512;
      assert q * 512 % 512 == 0;
      forall b: nat | c <= b && b % 512 == 0
        ensures q * 512 <= b
      {
        assert b == b / 512 * 512;
      }
    }
  }

  /** A successful allocation lies at the first aligned page of the block found. */
  lemma AllocAligned(x: Index, pages: nat, align: nat, r: nat, runs: Blocks)
    requires IndexOk(x) && Alignment(align) && AllocOutcome(x, pages, align, r, runs) && r != 0
    ensures var c := Found(x, pages + align - 1);
            c in x.runs && LeastMultiple(c, align, r) && r + pages <= c + x.runs[c]
  {
    hide IndexOk, Found, AlignUp, LeastMultiple;
    AlignUpIsLeast(Found(x, pages + align - 1), align);
  }

  lemma CarvePages(g: Pages, c: nat, a: nat, pages: nat)
    requires PagesOk(g) && pages >= 1 && c in g.runs && 0 < c <= a && a + pages <= c + g.runs[c]
    ensures PagesOk(Pages(SetRange(g.bm, a, pages, true), Carve(g.runs, c, a, pages), g.live[a := pages]))
    ensures AllAre(g.bm, a, a + pages, false)
    ensures MaximalRuns(g.bm, g.runs) ==> MaximalRuns(SetRange(g.bm, a, pages, true), Carve(g.runs, c, a, pages))
  {
    assert AllAre(g.bm, c, c + g.runs[c], false);
    CarveTiles(g.bm, g.runs, c, a, pages);
    LiveAfterAlloc(g.bm, g.live, a, pages);
    if MaximalRuns(g.bm, g.runs) {
      CarveMaximal(g.bm, g.runs, c, a, pages);
    }
  }

  lemma SplitPages(g: Pages, c: nat, a: nat)
    requires PagesOk(g) && c in g.runs && c < a < c + g.runs[c]
    ensures var runs := g.runs[c := a - c][a := c + g.runs[c] - a];
            PagesOk(g.(runs := runs)) && (MaximalRuns(g.bm, g.runs) ==> !MaximalRuns(g.bm, runs))
  {
    SplitTiles(g.bm, g.runs, c, a);
    if MaximalRuns(g.bm, g.runs) {
      assert IsRun(g.bm, c, g.runs[c]);
    }
  }

  lemma SplitTiles(bm: seq<bool>, runs: Blocks, c: nat, a: nat)
    requires Tiles(bm, runs) && c in runs && c < a < c + runs[c]
    ensures Tiles(bm, runs[c := a - c][a := c + runs[c] - a])
  {
    var runs', end := runs[c := a - c][a := c + runs[c] - a], c + runs[c];
    assert AllAre(bm, c, end, false);
    assert forall p :: p in runs && p != c ==> p + runs[p] <= c || end <= p;
    forall p | p in runs'
      ensures runs'[p] >= 1 && AllAre(bm, p, p + runs'[p], false)
    {
      assert p != c && p != a ==> AllAre(bm, p, p + runs[p], false);
    }
    forall q: nat | q < |bm| && !bm[q]
      ensures exists p :: Covers(runs', p, q)
    {
      var p :| Covers(runs, p, q);
      assert Covers(runs', if p == c && a <= q then a else p, q);
    }
  }

  lemma LiveAfterAlloc(bm: seq<bool>, live: Blocks, r: nat, pages: nat)
    requires LiveOk(bm, live) && r > 0 && pages >= 1 && AllAre(bm, r, r + pages, false)
    ensures r !in live && LiveOk(SetRange(bm, r, pages, true), live[r := pages])
  {
    forall p | p in live
      ensures p + live[p] <= r || r + pages <= p
      ensures AllAre(SetRange(bm, r, pages, true), p, p + live[p], true)
    {
      assert AllAre(bm, p, p + live[p], true);
      assert bm[p] && !bm[r];
    }
  }

  /** The candidate lies in the bitmap, apart from the other free blocks, and
      holds the aligned address. */
  lemma CandidateBlock(x: Index, g: Pages, pages: nat, align: nat)
    requires IndexOk(x) && PagesOk(g) && g.runs == x.runs && pages >= 1 && Alignment(align) && pages % align == 0
    ensures var c := Found(x, pages + align - 1);
            c != BLOCK_NULL ==>
              && c in x.runs && c + x.runs[c] <= |g.bm| && Detached(x.runs - {c}, c, x.runs[c])
              && c <= AlignUp(c, align) < c + x.runs[c]
  {
    hide IndexOk, MappingInsert, AlignUp, BinOf, BinWidth, BinLe, Found;
    FoundFits(x, pages + align - 1);
    var c := Found(x, pages + align - 1);
    if c != BLOCK_NULL {
      assert AllAre(g.bm, c, c + x.runs[c], false);
      GapFits(c, x.runs[c], pages, align);
    }
  }

  /** Rounding up to the alignment stays inside the found block, so splitting
      off the head never underflows. */
  lemma GapFits(c: nat, n: nat, pages: nat, align: nat)
    requires pages >= 1 && Alignment(align) && pages % align == 0
    requires var s := pages + align - 1; (s < 64 ==> s <= n) && (s >= 64 ==> 32 * s < 33 * n)
    ensures c <= AlignUp(c, align) < c + n && AlignUp(c, align) < c + align
  {
  }

  lemma Outcome(x: Index, pages: nat, align: nat, runs: Blocks)
    requires IndexOk(x) && Alignment(align) && pages >= 1
    requires var c := Found(x, pages + align - 1);
             && c != BLOCK_NULL && c in x.runs && c <= AlignUp(c, align) < c + x.runs[c]
             && var a, end := AlignUp(c, align), c + x.runs[c];
                var head := if c < a then (x.runs - {c})[c := a - c] else x.runs - {c};
                runs == if end > a + pages then head[a + pages := end - a - pages]
                        else if end == a + pages then head else head[a := end - a]
    ensures var c := Found(x, pages + align - 1);
            var a, end := AlignUp(c, align), c + x.runs[c];
            AllocOutcome(x, pages, align, if a + pages <= end then a else 0, runs)
  {
    hide IndexOk, Found;
    var c := Found(x, pages + align - 1);
    var a := AlignUp(c, align);
    assert (x.runs - {c})[c := x.runs[c]] == x.runs;
    assert (x.runs - {c})[c := a - c] == x.runs[c := a - c];
  }

  /** No block of the map meets the given range. */
  ghost predicate Detached(runs: Blocks, block: nat, n: nat)
  {
    forall p :: p in runs ==> p + runs[p] <= block || block + n <= p
  }

  lemma Touchables(x: Index)
    requires IndexOk(x)
    ensures forall p :: p in x.runs ==> x.runs[p] >= 1
  {
  }

  /** What one allocation attempt does to the free blocks. The candidate is the
      head of the first bin that could serve the enlarged request. */
  ghost predicate AllocOutcome(x: Index, pages: nat, align: nat, r: nat, runs: Blocks)
    requires IndexOk(x) && Alignment(align)
  {
    match x
    case Index(_, _, _, _, _, before) =>
      var c := Found(x, pages + align - 1);
      if c == BLOCK_NULL then
        r == 0 && runs == before
      else
        && c in before
        && var a, end := AlignUp(c, align), c + before[c];
           && c <= a < end
           && if a + pages <= end then r == a && runs == Carve(before, c, a, pages)
              else r == 0 && runs == (if a == c then before else before[c := a - c][a := end - a])
  }

  lemma EmptyIndexOk(x: Index)
    requires |x.hdr| > 0 && x.runs == map[] && x.fl == {}
    requires x.sl == seq(FL_COUNT, _ => {})
    requires forall f: nat, s: nat :: f < FL_COUNT && s < SL_COUNT ==>
               && Bin(f, s) in x.heads && x.heads[Bin(f, s)] == BLOCK_NULL
               && Bin(f, s) in x.lists && x.lists[Bin(f, s)] == []
    ensures IndexOk(x)
  {
    forall b | InTable(b)
      ensures b in x.heads && x.heads[b] == BLOCK_NULL && b in x.lists && x.lists[b] == []
    {
      assert b == Bin(b.fl, b.sl);
    }
  }

  lemma NoRuns(bm: seq<bool>)
    requires forall i :: 0 <= i < |bm| ==> bm[i]
    ensures MaximalRuns(bm, map[]) && Tiles(bm, map[]) && LiveOk(bm, map[])
  {
    forall p: nat, n: nat
      ensures !IsRun(bm, p, n)
    {
      if n >= 1 && p + n <= |bm| {
        assert bm[p];
      }
    }
  }

  /** The failing exit after a head split is reachable: a 1008-page block that
      starts one page after a 2 MB boundary is in the bin of a 1023-page
      request, and the 497 pages from the next boundary on are too few. The
      zone is left with two touching free blocks. */
  method HeadSplitWitness() returns (z: Zone, r: nat)
    ensures r == 0 && z.Valid() && !z.Maximal()
  {
    hide IndexOk, PagesOk, MaximalRuns, MappingInsert, BinWidth;
    z := new Zone(1009);
    z.AddRegion(PAGE_SIZE, 1008 * PAGE_SIZE);
    assert z.runs == map[1 := 1008];
    Bins1008();
    FoundFits(z.View(), 1023);
    assert BinLe(BinOf(1023), BinOf(z.runs[1]));
    assert Found(z.View(), 1023) == 1;
    assert AlignUp(1, 512) == 512;
    assert LeavesHeadSplit(z.View(), 512, 512);
    r := z.Alloc(512, 512);
  }

  lemma Bins1008()
    ensures BinOf(1008) == BinOf(1023) == Bin(5, 31)
  {
    Pow2Table();
    assert Pow2(14) == 4 * Pow2(12) && Pow2(16) == 4 * Pow2(14);
    MappingBounds(1008 * PAGE_SIZE);
    BinFloorUnique(BinOf(1008), Bin(5, 31), 1008 * PAGE_SIZE);
    MappingBounds(1023 * PAGE_SIZE);
    BinFloorUnique(BinOf(1023), Bin(5, 31), 1023 * PAGE_SIZE);
  }

  /** From 64 pages on, an allocation can fail although a long enough run is
      free: 64 and 65 pages share a bin, so the 64-page block hides the
      100-page one from a 65-page request. */
  method ShortHeadWitness() returns (z: Zone, r: nat)
    ensures r == 0 && z.Valid() && z.Maximal() && exists p :: p in z.runs && z.runs[p] >= 65
  {
    hide IndexOk, PagesOk, MaximalRuns, AllocOutcome, LeavesHeadSplit;
    z := new Zone(166);
    z.AddRegion(PAGE_SIZE, 100 * PAGE_SIZE);
    z.AddRegion(102 * PAGE_SIZE, 64 * PAGE_SIZE);
    assert z.runs == map[1 := 100, 102 := 64];
    ghost var x := z.View();
    NoHeadSplit(x, 65);
    r := z.Alloc(65, 1);
    ShortHead(x, r, z.runs);
    assert z.runs[1] == 100;
  }

  lemma ShortHead(x: Index, r: nat, runs: Blocks)
    requires IndexOk(x) && x.runs == map[1 := 100, 102 := 64] && AllocOutcome(x, 65, 1, r, runs)
    ensures r == 0 && runs == x.runs
  {
    hide IndexOk, MappingInsert, BinWidth, Found;
    Bins64();
    FoundFits(x, 65);
    assert BinLe(BinOf(65), BinOf(x.runs[102]));
    assert Found(x, 65) == 102;
  }

  lemma Bins64()
    ensures BinOf(64) == BinOf(65) == Bin(2, 0) && BinOf(100) == Bin(2, 18)
  {
    Pow2Table();
    assert Pow2(13) == 2 * Pow2(12);
    MappingBounds(64 * PAGE_SIZE);
    BinFloorUnique(BinOf(64), Bin(2, 0), 64 * PAGE_SIZE);
    MappingBounds(65 * PAGE_SIZE);
    BinFloorUnique(BinOf(65), Bin(2, 0), 65 * PAGE_SIZE);
    MappingBounds(100 * PAGE_SIZE);
    BinFloorUnique(BinOf(100), Bin(2, 18), 100 * PAGE_SIZE);
  }
}
