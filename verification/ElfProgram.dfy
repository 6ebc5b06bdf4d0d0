/** What the loader's loops achieve for one segment, and for programs whose
    segments share no page. */
module ElfProgram {
  import opened ElfImage
  import opened ElfProof

  // ----- the pages of a segment

  lemma Chunks(g: Segment)
    requires g.memsz >= 1
    ensures First(g) < Last(g) && First(g) <= HugeFirst(g) < First(g) + CHUNK
    ensures HugeLast(g) <= Last(g) < HugeLast(g) + CHUNK
    ensures HugeFirst(g) % CHUNK == 0 && HugeLast(g) % CHUNK == 0
    ensures HugeLast(g) < HugeFirst(g) ==> HugeLast(g) <= First(g)
  {
    Multiple((First(g) + CHUNK - 1) / CHUNK);
    Multiple(Last(g) / CHUNK);
    PageSpan(g.vaddr, g.memsz);
  }

  lemma PageSpan(va: nat, n: nat)
    requires n >= 1
    ensures va / PAGE < (va + n + PAGE - 1) / PAGE
  {
  }

  lemma Multiple(k: nat)
    ensures k * CHUNK % CHUNK == 0 && k * CHUNK / CHUNK == k
  {
  }

  /** A page touched for one segment and in a whole chunk of another means that
      the two share a page. */
  lemma Clash(d: Segment, g: Segment, p: nat) returns (q: nat)
    requires d.memsz >= 1 && g.memsz >= 1 && Touches(d, p) && Whole(g, p)
    ensures Owns(d, q) && Owns(g, q)
  {
    Chunks(d);
    Chunks(g);
    hide HugeFirst, HugeLast, First, Last;
    if Owns(d, p) {
      q := p;
    } else {
      q := First(d);
      SameChunk(HugeLast(d), p, q, HugeFirst(g), HugeLast(g));
    }
  }

  lemma SameChunk(h: nat, p: nat, q: nat, lo: nat, hi: nat)
    requires h % CHUNK == 0 && lo % CHUNK == 0 && hi % CHUNK == 0 && h <= p < h + CHUNK && h <= q < h + CHUNK
    requires lo <= p < hi
    ensures lo <= q < hi
  {
  }

  /** What was mapped for the segments loaded so far. */
  ghost predicate Footprint(m: Mem, gs: seq<Segment>) {
    && (forall p :: p in m.pages ==> exists i :: 0 <= i < |gs| && Touches(gs[i], p))
    && (forall p :: p in m.pages && m.pages[p].huge ==> exists i :: 0 <= i < |gs| && Whole(gs[i], p))
    && (forall i, p :: 0 <= i < |gs| && Touches(gs[i], p) ==> p in m.pages)
  }

  ghost predicate AllProper(gs: seq<Segment>) {
    forall i :: 0 <= i < |gs| ==> Proper(gs[i])
  }

  ghost predicate Apart(gs: seq<Segment>, g: Segment) {
    forall i :: 0 <= i < |gs| ==> Disjoint(gs[i], g)
  }

  /** The next segment's whole chunks are free, and none of the pages it touches
      lies in a huge page. */
  lemma NoClash(m: Mem, gs: seq<Segment>, g: Segment)
    requires Footprint(m, gs) && AllProper(gs) && Proper(g) && Apart(gs, g)
    ensures Unmapped(m, HugeFirst(g), HugeLast(g)) && NoHuge(m, Min(First(g), HugeLast(g)), Last(g))
  {
    hide HugeFirst, HugeLast, First, Last;
    forall p | HugeFirst(g) <= p < HugeLast(g)
      ensures p !in m.pages
    {
      if p in m.pages {
        var i :| 0 <= i < |gs| && Touches(gs[i], p);
        assert Disjoint(gs[i], g);
        var q := Clash(gs[i], g, p);
      }
    }
    forall p | Min(First(g), HugeLast(g)) <= p < Last(g) && p in m.pages
      ensures !m.pages[p].huge
    {
      if m.pages[p].huge {
        var i :| 0 <= i < |gs| && Whole(gs[i], p);
        assert Disjoint(gs[i], g);
        var q := Clash(g, gs[i], p);
      }
    }
  }

  // ----- the mapping loops

  /** The segment meets what the loops expect. */
  ghost predicate Clear(m: Mem, g: Segment) {
    Unmapped(m, HugeFirst(g), HugeLast(g)) && NoHuge(m, Min(First(g), HugeLast(g)), Last(g))
  }

  /** The mapping loops of one segment: old pages keep their frames and contents,
      new pages are empty and lie where the segment touches, and all of the
      segment's mapped pages have its rights. */
  ghost predicate MappedFor(m: Mem, r: Mem, g: Segment) {
    && Fine(r) && Grown(m, r) && Supply(m, r) && AllRights(r, g, Min(First(g), HugeLast(g)), Last(g))
    && Bounded(m, r, g, Min(First(g), HugeLast(g)), Last(g))
    && forall p :: p in r.pages && p !in m.pages ==>
         && Touches(g, p) && ZeroPage(r, p) && r.pages[p].huge == Whole(g, p)
         && (Whole(g, p) ==> r.pages[p].executable == g.executable)
  }

  /** Every page touched is mapped, unless memory ran out on one of the
      segment's own. */
  ghost predicate MappedAll(r: Mem, g: Segment) {
    Covered(r, Min(First(g), HugeLast(g)), Last(g)) || (r.frames == [] && exists q :: Owns(g, q) && q !in r.pages)
  }

  /** A run of small steps maps every page of its range, unless memory ran out
      on the last one. */
  ghost predicate CoveredOrLast(m: Mem, lo: nat, hi: nat) {
    Covered(m, lo, hi) || (m.frames == [] && lo < hi && hi - 1 !in m.pages)
  }

  /** The three loops one after the other, in terms of what each added. */
  ghost predicate Phases(m: Mem, a: Mem, b: Mem, c: Mem, g: Segment) {
    && SmallsDone(m, a, g, First(g), Min(HugeFirst(g), Last(g)))
    && BigsDone(a, b, g, HugeFirst(g), HugeLast(g))
    && SmallsDone(b, c, g, HugeLast(g), Last(g))
  }

  lemma HeadFree(m: Mem, g: Segment)
    requires Clear(m, g)
    ensures NoHuge(m, First(g), Min(HugeFirst(g), Last(g)))
  {
    hide First, Last, HugeFirst, HugeLast;
  }

  lemma AfterHead(m: Mem, a: Mem, g: Segment)
    requires Clear(m, g) && SmallsDone(m, a, g, First(g), Min(HugeFirst(g), Last(g)))
    ensures Unmapped(a, HugeFirst(g), HugeLast(g)) && NoHuge(a, HugeLast(g), Last(g))
  {
    hide Fine, First, Last, HugeFirst, HugeLast, ZeroPage;
    KeepsHuge(m, a);
  }

  lemma KeepsHuge(m: Mem, a: Mem)
    requires Grown(m, a)
    ensures forall p :: p in m.pages ==> p in a.pages && a.pages[p].huge == m.pages[p].huge
  {
  }

  lemma AfterMiddle(a: Mem, b: Mem, g: Segment)
    requires BigsDone(a, b, g, HugeFirst(g), HugeLast(g)) && NoHuge(a, HugeLast(g), Last(g))
    ensures NoHuge(b, HugeLast(g), Last(g))
  {
    hide Fine, First, Last, HugeFirst, HugeLast, ZeroPage;
    KeepsHuge(a, b);
  }

  lemma PhasesOk(m: Mem, a: Mem, b: Mem, c: Mem, g: Segment)
    requires Phases(m, a, b, c, g) && Proper(g)
    ensures MappedFor(m, c, g)
  {
    hide Fine, Grown, First, Last, HugeFirst, HugeLast, NewPages, AllRights, Bounded, Supply;
    PhasesRights(m, a, b, c, g);
    PhasesNew(m, a, b, c, g);
    GrownTrans(m, a, b);
    GrownTrans(m, b, c);
    SupplyTrans(m, a, b);
    SupplyTrans(m, b, c);
    PhasesBounded(m, a, b, c, g);
  }

  lemma PhasesRights(m: Mem, a: Mem, b: Mem, c: Mem, g: Segment)
    requires Phases(m, a, b, c, g)
    ensures AllRights(c, g, Min(First(g), HugeLast(g)), Last(g))
  {
    hide Fine, First, Last, HugeFirst, HugeLast, ZeroPage, Supply, Bounded, ByteOf;
  }

  lemma PhasesBounded(m: Mem, a: Mem, b: Mem, c: Mem, g: Segment)
    requires Proper(g) && Phases(m, a, b, c, g)
    ensures Bounded(m, c, g, Min(First(g), HugeLast(g)), Last(g))
  {
    Chunks(g);
    hide First, Last, HugeFirst, HugeLast, Bounded, Fine, Grown, NewPages, AllRights, Supply;
    var lo := Min(First(g), HugeLast(g));
    BoundedTrans(m, a, b, g, First(g), Min(HugeFirst(g), Last(g)), HugeFirst(g), HugeLast(g), lo, Last(g));
    BoundedTrans(m, b, c, g, lo, Last(g), HugeLast(g), Last(g), lo, Last(g));
  }

  lemma PhasesNew(m: Mem, a: Mem, b: Mem, c: Mem, g: Segment)
    requires Phases(m, a, b, c, g) && Proper(g)
    ensures forall p :: p in c.pages && p !in m.pages ==>
              && Touches(g, p) && ZeroPage(c, p) && c.pages[p].huge == Whole(g, p)
              && (Whole(g, p) ==> c.pages[p].executable == g.executable)
  {
    Chunks(g);
    hide First, Last, HugeFirst, HugeLast, Fine, Supply, Bounded, AllRights;
    forall p | p in c.pages && p !in m.pages
      ensures Touches(g, p) && ZeroPage(c, p) && c.pages[p].huge == Whole(g, p)
      ensures (Whole(g, p) ==> c.pages[p].executable == g.executable)
    {
      if p in a.pages {
        assert ZeroPage(a, p) && ZeroPage(b, p);
      } else if p in b.pages {
        assert ZeroPage(b, p);
      }
    }
  }

  /** A page left unmapped by the head or middle loop stays so. */
  lemma PhasesCover(m: Mem, a: Mem, b: Mem, c: Mem, g: Segment)
    requires Phases(m, a, b, c, g) && Proper(g)
    requires a.frames == [] || Covered(a, First(g), Min(HugeFirst(g), Last(g)))
    requires b.frames == [] || Covered(b, HugeFirst(g), HugeLast(g))
    requires CoveredOrLast(c, HugeLast(g), Last(g))
    ensures MappedAll(c, g)
  {
    Chunks(g);
    KeysGrow(a, b);
    KeysGrow(b, c);
    SupplyNone(a, b);
    SupplyNone(b, c);
    hide First, Last, HugeFirst, HugeLast, Fine, Supply, Bounded, AllRights, ZeroPage, Grown;
    if !Covered(a, First(g), Min(HugeFirst(g), Last(g))) {
      var q :| First(g) <= q < Min(HugeFirst(g), Last(g)) && q !in a.pages;
      assert q !in b.pages;
      assert q !in c.pages && Owns(g, q);
    } else if !Covered(b, HugeFirst(g), HugeLast(g)) {
      var q :| HugeFirst(g) <= q < HugeLast(g) && q !in b.pages;
      assert q !in c.pages && Owns(g, q);
    } else if !Covered(c, HugeLast(g), Last(g)) {
      assert Owns(g, Last(g) - 1);
    }
  }

  lemma KeysGrow(m: Mem, r: Mem)
    requires Grown(m, r)
    ensures forall p :: p in m.pages ==> p in r.pages
  {
  }

  // ----- copying

  function Va(p: nat, off: nat): nat {
    p * PAGE + off
  }

  /** paging_get_phys gives the page's own physical address. */
  predicate Direct(e: Page) {
    !e.huge || e.executable
  }

  /** Bytes of the address space as after a copy of `src` to va. */
  ghost predicate Filled(m: Mem, r: Mem, va: nat, src: seq<int>) {
    && r == m.(ram := r.ram)
    && forall p, off: nat :: p in m.pages && off < PAGE ==>
         ByteOf(r, p, off) == if va <= Va(p, off) < va + |src| then src[Va(p, off) - va] else ByteOf(m, p, off)
  }

  /** Every page of a range is mapped, and at its own physical address. */
  ghost predicate AllDirect(m: Mem, lo: nat, hi: nat) {
    forall p, off: nat :: off < PAGE && lo <= Va(p, off) < hi ==> p in m.pages && Direct(m.pages[p])
  }

  lemma DirectAt(m: Mem, lo: nat, hi: nat, p: nat, off: nat)
    requires AllDirect(m, lo, hi) && off < PAGE
    ensures lo <= Va(p, off) < hi ==> p in m.pages && Direct(m.pages[p])
  {
  }

  lemma WriteSeen(m: Mem, p: nat, at: nat, src: seq<int>, q: nat, off: nat)
    requires Fine(m) && p in m.pages && q in m.pages && at + |src| <= PAGE && off < PAGE
    ensures Copied(m.ram, m.pages[p].frame * PAGE + at, src)(m.pages[q].frame * PAGE + off) ==
            if q == p && at <= off < at + |src| then src[off - at] else ByteOf(m, q, off)
  {
    var f, h := m.pages[p].frame, m.pages[q].frame;
    if q != p {
      assert f != h;
      FramesDiffer(f, h, off);
    }
  }

  /** One turn of the copy loop. */
  lemma FillStep(m: Mem, va: nat, src: seq<int>)
    requires Fine(m) && va / PAGE in m.pages && Direct(m.pages[va / PAGE]) && va % PAGE + |src| <= PAGE
    ensures var p, off := va / PAGE, va % PAGE;
            var r := m.(ram := Copied(m.ram, m.pages[p].frame * PAGE + off, src));
            Fine(r) && Filled(m, r, va, src) && AllDirect(m, va, va + |src|)
  {
    var p, at := va / PAGE, va % PAGE;
    var r := m.(ram := Copied(m.ram, m.pages[p].frame * PAGE + at, src));
    assert Fine(r);
    hide Fine, Copied;
    forall q, off: nat | q in m.pages && off < PAGE
      ensures ByteOf(r, q, off) == if va <= Va(q, off) < va + |src| then src[Va(q, off) - va] else ByteOf(m, q, off)
    {
      WriteSeen(m, p, at, src, q, off);
      InPage(va, |src|, q, off);
    }
    forall q, off: nat | off < PAGE && va <= Va(q, off) < va + |src|
      ensures q in m.pages && Direct(m.pages[q])
    {
      InPage(va, |src|, q, off);
    }
  }

  lemma InPage(va: nat, n: nat, q: nat, off: nat)
    requires off < PAGE && va % PAGE + n <= PAGE
    ensures va <= Va(q, off) < va + n <==> q == va / PAGE && va % PAGE <= off < va % PAGE + n
    ensures q == va / PAGE ==> Va(q, off) - va == off - va % PAGE
  {
    assert va == va / PAGE * PAGE + va % PAGE;
  }

  /** What a copy of the first n bytes has done so far. */
  ghost predicate Filling(m: Mem, r: Mem, va: nat, src: seq<int>, n: nat)
    requires n <= |src|
  {
    Fine(r) && Filled(m, r, va, src[..n]) && AllDirect(m, va, va + n)
  }

  lemma FillStart(m: Mem, va: nat, src: seq<int>)
    requires Fine(m)
    ensures Filling(m, m, va, src, 0)
  {
  }

  lemma FillNext(m: Mem, r: Mem, va: nat, src: seq<int>, n: nat, k: nat)
    requires n <= n + k <= |src| && Filling(m, r, va, src, n)
    requires (va + n) / PAGE in r.pages && Direct(r.pages[(va + n) / PAGE]) && (va + n) % PAGE + k <= PAGE
    ensures var p, off := (va + n) / PAGE, (va + n) % PAGE;
            Filling(m, r.(ram := Copied(r.ram, r.pages[p].frame * PAGE + off, src[n..n + k])), va, src, n + k)
  {
    hide Fine, Filled, AllDirect, Copied;
    var p, off := (va + n) / PAGE, (va + n) % PAGE;
    var s := r.(ram := Copied(r.ram, r.pages[p].frame * PAGE + off, src[n..n + k]));
    FillStep(r, va + n, src[n..n + k]);
    assert src[..n + k][..n] == src[..n] && src[..n + k][n..] == src[n..n + k];
    FilledTrans(m, r, s, va, src[..n + k], n);
    DirectTrans(m, r, va, n, n + k, src);
  }

  lemma FilledTrans(m: Mem, r: Mem, s: Mem, va: nat, src: seq<int>, n: nat)
    requires n <= |src| && Filled(m, r, va, src[..n]) && Filled(r, s, va + n, src[n..])
    ensures Filled(m, s, va, src)
  {
    forall p, off: nat | p in m.pages && off < PAGE
      ensures ByteOf(s, p, off) == if va <= Va(p, off) < va + |src| then src[Va(p, off) - va] else ByteOf(m, p, off)
    {
      var k := Va(p, off) - va;
      if 0 <= k < n {
        assert src[..n][k] == src[k];
      } else if n <= k < |src| {
        assert src[n..][k - n] == src[k];
      }
    }
  }

  lemma DirectTrans(m: Mem, r: Mem, va: nat, n: nat, k: nat, src: seq<int>)
    requires n <= |src| && n <= k && Filled(m, r, va, src[..n]) && AllDirect(m, va, va + n)
    requires AllDirect(r, va + n, va + k)
    ensures AllDirect(m, va, va + k)
  {
    assert r.pages == m.pages;
    hide Filled, Va;
  }

  /** Some page of a range satisfies what stops the copy. */
  ghost predicate MissingIn(m: Mem, lo: nat, hi: nat) {
    exists va :: lo <= va < hi && va / PAGE !in m.pages
  }

  ghost predicate AstrayIn(m: Mem, lo: nat, hi: nat) {
    exists va :: lo <= va < hi && va / PAGE in m.pages && !Direct(m.pages[va / PAGE])
  }

  // ----- whole segments

  ghost predicate Loaded(m: Mem, g: Segment, file: seq<int>)
    requires InFile(g, file)
  {
    && AllRights(m, g, First(g), Last(g))
    && forall p, off: nat :: off < PAGE && g.vaddr <= Va(p, off) < g.vaddr + g.memsz ==>
         p in m.pages && ByteOf(m, p, off) == Content(g, file, Va(p, off))
  }

  lemma OwnPages(g: Segment, p: nat, off: nat)
    requires off < PAGE && g.vaddr <= Va(p, off) < g.vaddr + g.memsz
    ensures Owns(g, p)
  {
  }

  lemma OwnAddress(g: Segment, va: nat)
    requires g.vaddr <= va < g.vaddr + g.memsz
    ensures Owns(g, va / PAGE)
  {
  }

  /** Pages of no loaded segment are empty. */
  ghost predicate RestZero(m: Mem, gs: seq<Segment>) {
    forall p :: p in m.pages && (forall i :: 0 <= i < |gs| ==> !Owns(gs[i], p)) ==> ZeroPage(m, p)
  }

  /** The huge pages of the segment are exactly its whole chunks. */
  ghost predicate ChunksOf(m: Mem, g: Segment) {
    forall p :: p in m.pages && Owns(g, p) ==>
      m.pages[p].huge == Whole(g, p) && (Whole(g, p) ==> m.pages[p].executable == g.executable)
  }

  lemma NoneOwns(gs: seq<Segment>, g: Segment, p: nat)
    requires Apart(gs, g) && Owns(g, p)
    ensures forall i :: 0 <= i < |gs| ==> !Owns(gs[i], p)
  {
    forall i | 0 <= i < |gs|
      ensures !Owns(gs[i], p)
    {
      assert Disjoint(gs[i], g);
    }
  }

  /** After the mapping loops the segment's own pages are empty, and huge exactly
      in its whole chunks. */
  lemma MappedEmpty(m: Mem, r: Mem, gs: seq<Segment>, g: Segment)
    requires MappedFor(m, r, g) && RestZero(m, gs) && Apart(gs, g) && Proper(g) && Clear(m, g)
    ensures ChunksOf(r, g) && forall p :: p in r.pages && Owns(g, p) ==> ZeroPage(r, p)
  {
    Chunks(g);
    hide Fine, First, Last, HugeFirst, HugeLast, Supply;
    forall p | p in r.pages && Owns(g, p)
      ensures ZeroPage(r, p) && r.pages[p].huge == Whole(g, p)
      ensures (Whole(g, p) ==> r.pages[p].executable == g.executable)
    {
      if p in m.pages {
        NoneOwns(gs, g, p);
        assert ZeroPage(m, p);
        assert !m.pages[p].huge;
      }
    }
  }

  /** A segment whose every byte is reached is not astray. */
  lemma DirectStraight(r: Mem, g: Segment)
    requires Proper(g) && ChunksOf(r, g) && AllDirect(r, g.vaddr, g.vaddr + g.memsz)
    ensures !Astray(g)
  {
    hide AllDirect, Va;
    if Astray(g) {
      Chunks(g);
      hide First, Last, HugeFirst, HugeLast;
      var off := OwnedByte(g, HugeFirst(g));
      DirectAt(r, g.vaddr, g.vaddr + g.memsz, HugeFirst(g), off);
    }
  }

  /** Every page of a segment holds a byte of it. */
  lemma OwnedByte(g: Segment, p: nat) returns (off: nat)
    requires Proper(g) && Owns(g, p)
    ensures off < PAGE && g.vaddr <= Va(p, off) < g.vaddr + g.memsz
  {
    var va, n := g.vaddr, g.memsz;
    off := if p == First(g) then va % PAGE else 0;
    assert va == va / PAGE * PAGE + va % PAGE;
    assert p + 1 <= (va + n + PAGE - 1) / PAGE;
    assert (p + 1) * PAGE <= (va + n + PAGE - 1) / PAGE * PAGE <= va + n + PAGE - 1;
  }

  /** A page that is not at its own physical address lies in a whole chunk of a
      segment that is not executable. */
  lemma AstrayOnly(r: Mem, g: Segment, lo: nat, hi: nat)
    requires Proper(g) && ChunksOf(r, g) && g.vaddr <= lo && hi <= g.vaddr + g.memsz && AstrayIn(r, lo, hi)
    ensures Astray(g)
  {
    var va :| lo <= va < hi && va / PAGE in r.pages && !Direct(r.pages[va / PAGE]);
    OwnAddress(g, va);
  }

  lemma MissingOnly(r: Mem, g: Segment, lo: nat, hi: nat)
    requires Proper(g) && MappedAll(r, g) && g.vaddr <= lo && hi <= g.vaddr + g.memsz && MissingIn(r, lo, hi)
    ensures r.frames == []
  {
    var va :| lo <= va < hi && va / PAGE !in r.pages;
    OwnAddress(g, va);
    hide First, Last, HugeLast;
  }

  /** Where all bytes were reached, all touched pages are mapped. */
  lemma MappedTouched(r: Mem, g: Segment)
    requires Proper(g) && MappedAll(r, g) && AllDirect(r, g.vaddr, g.vaddr + g.memsz)
    ensures Covered(r, Min(First(g), HugeLast(g)), Last(g))
  {
    hide First, Last, HugeLast, Va;
    if r.frames == [] && exists q :: Owns(g, q) && q !in r.pages {
      var q :| Owns(g, q) && q !in r.pages;
      var off := OwnedByte(g, q);
    }
  }

  lemma SameRights(r: Mem, b: Mem, g: Segment)
    requires AllRights(r, g, First(g), Last(g))
    ensures b.pages == r.pages ==> AllRights(b, g, First(g), Last(g))
  {
  }

  /** The copy and bss loops after the mapping loops. */
  ghost predicate Stored(r: Mem, a: Mem, b: Mem, g: Segment, file: seq<int>)
    requires InFile(g, file) && Proper(g)
  {
    && Filled(r, a, g.vaddr, file[g.offset..g.offset + g.filesz]) && AllDirect(r, g.vaddr, g.vaddr + g.filesz)
    && Filled(a, b, g.vaddr + g.filesz, Zeros(g.memsz - g.filesz))
    && AllDirect(a, g.vaddr + g.filesz, g.vaddr + g.memsz)
  }

  /** Without a bss part there is nothing to zero. */
  lemma NoBss(r: Mem, a: Mem, g: Segment, file: seq<int>)
    requires InFile(g, file) && Proper(g) && g.memsz == g.filesz
    requires Filled(r, a, g.vaddr, file[g.offset..g.offset + g.filesz]) && AllDirect(r, g.vaddr, g.vaddr + g.filesz)
    ensures Stored(r, a, a, g, file)
  {
  }

  lemma StoredDirect(r: Mem, a: Mem, b: Mem, g: Segment, file: seq<int>)
    requires InFile(g, file) && Proper(g) && Stored(r, a, b, g, file)
    ensures AllDirect(r, g.vaddr, g.vaddr + g.memsz) && b == r.(ram := b.ram)
  {
    assert a.pages == r.pages;
    hide Va;
  }

  /** Copying the file part and zeroing the rest stores what the header asks. */
  lemma CopyLoads(r: Mem, a: Mem, b: Mem, g: Segment, file: seq<int>)
    requires InFile(g, file) && Proper(g) && Stored(r, a, b, g, file) && AllRights(r, g, First(g), Last(g))
    requires forall p :: p in r.pages && Owns(g, p) ==> ZeroPage(r, p)
    ensures Loaded(b, g, file)
  {
    StoredDirect(r, a, b, g, file);
    hide First, Last, HugeFirst, HugeLast, Va, AllDirect, AllRights;
    SameRights(r, b, g);
    forall p, off: nat | off < PAGE && g.vaddr <= Va(p, off) < g.vaddr + g.memsz
      ensures p in b.pages && ByteOf(b, p, off) == Content(g, file, Va(p, off))
    {
      OwnPages(g, p, off);
      DirectAt(r, g.vaddr, g.vaddr + g.memsz, p, off);
      assert ByteOf(r, p, off) == 0;
      var k := Va(p, off) - g.vaddr;
      if k < g.filesz {
        assert file[g.offset..g.offset + g.filesz][k] == file[g.offset + k];
      }
    }
  }

  // ----- whole programs

  /** Everything that holds after loading some segments. */
  ghost predicate LoadInv(m: Mem, gs: seq<Segment>, file: seq<int>)
  {
    match m
    case Mem(_, _, _, _, _, _, _) =>
      && Fine(m) && Footprint(m, gs) && RestZero(m, gs) && RightsExact(m, gs) && AllProper(gs)
      && forall i :: 0 <= i < |gs| ==> InFile(gs[i], file) && Loaded(m, gs[i], file) && !Astray(gs[i])
  }

  ghost predicate SomeWritable(gs: seq<Segment>, p: nat) {
    exists i :: 0 <= i < |gs| && Touches(gs[i], p) && gs[i].writable
  }

  ghost predicate SomeExecutable(gs: seq<Segment>, p: nat) {
    exists i :: 0 <= i < |gs| && Touches(gs[i], p) && gs[i].executable
  }

  /** A page is writable exactly if a writable segment touches it, and the same
      for executable. */
  ghost predicate RightsExact(m: Mem, gs: seq<Segment>) {
    forall p :: p in m.pages ==>
      (m.pages[p].writable <==> SomeWritable(gs, p)) && (m.pages[p].executable <==> SomeExecutable(gs, p))
  }

  lemma SomeMore(gs: seq<Segment>, g: Segment, p: nat)
    ensures SomeWritable(gs + [g], p) <==> SomeWritable(gs, p) || (Touches(g, p) && g.writable)
    ensures SomeExecutable(gs + [g], p) <==> SomeExecutable(gs, p) || (Touches(g, p) && g.executable)
  {
    hide Touches;
    var hs := gs + [g];
    assert hs[|gs|] == g && forall i :: 0 <= i < |gs| ==> hs[i] == gs[i];
  }

  lemma NextRights(m: Mem, r: Mem, b: Mem, gs: seq<Segment>, g: Segment)
    requires RightsExact(m, gs) && Footprint(m, gs) && b.pages == r.pages && MappedFor(m, r, g)
    ensures RightsExact(b, gs + [g])
  {
    hide First, Last, HugeFirst, HugeLast, Fine, Supply, ByteOf, ZeroPage, SomeWritable, SomeExecutable;
    forall p | p in b.pages
      ensures b.pages[p].writable <==> SomeWritable(gs + [g], p)
      ensures b.pages[p].executable <==> SomeExecutable(gs + [g], p)
    {
      SomeMore(gs, g, p);
      if p !in m.pages {
        NoneBefore(m, gs, p);
      }
    }
  }

  lemma NoneBefore(m: Mem, gs: seq<Segment>, p: nat)
    requires Footprint(m, gs) && p !in m.pages
    ensures !SomeWritable(gs, p) && !SomeExecutable(gs, p)
  {
    hide Touches;
  }

  /** Loading another segment leaves a loaded one as it is. */
  lemma StaysLoaded(m: Mem, r: Mem, b: Mem, d: Segment, g: Segment, file: seq<int>)
    requires Proper(d) && InFile(d, file) && Loaded(m, d, file) && Disjoint(d, g) && Grown(m, r)
    requires Untouched(r, b, g)
    ensures Loaded(b, d, file)
  {
    hide First, Last, HugeFirst, HugeLast, Content;
    forall p | First(d) <= p < Last(d) && p in b.pages
      ensures Rights(b.pages[p], d)
    {
      var off := OwnedByte(d, p);
      assert p in m.pages && Rights(m.pages[p], d);
    }
    forall p, off: nat | off < PAGE && d.vaddr <= Va(p, off) < d.vaddr + d.memsz
      ensures p in b.pages && ByteOf(b, p, off) == Content(d, file, Va(p, off))
    {
      assert p in m.pages && ByteOf(m, p, off) == Content(d, file, Va(p, off));
      OwnPages(d, p, off);
      assert !Owns(g, p);
    }
  }

  /** Only bytes of the segment's own pages change. */
  ghost predicate Untouched(r: Mem, b: Mem, g: Segment) {
    && b.pages == r.pages
    && forall p, off: nat :: p in r.pages && off < PAGE && !Owns(g, p) ==> ByteOf(b, p, off) == ByteOf(r, p, off)
  }

  lemma FillUntouched(r: Mem, a: Mem, b: Mem, g: Segment, file: seq<int>)
    requires InFile(g, file) && Proper(g) && Stored(r, a, b, g, file)
    ensures Untouched(r, b, g)
  {
    hide First, Last, Va, Direct, AllDirect;
    forall p, off: nat | p in r.pages && off < PAGE && !Owns(g, p)
      ensures ByteOf(b, p, off) == ByteOf(r, p, off)
    {
      NotOwned(g, p, off);
    }
  }

  lemma NotOwned(g: Segment, p: nat, off: nat)
    requires off < PAGE && !Owns(g, p)
    ensures !(g.vaddr <= Va(p, off) < g.vaddr + g.memsz)
  {
    if g.vaddr <= Va(p, off) < g.vaddr + g.memsz {
      OwnPages(g, p, off);
    }
  }

  /** The mapping, copy and bss loops of one segment keep all that holds for the
      segments loaded before, and make it hold for the new one. */
  lemma SegmentOk(m: Mem, r: Mem, a: Mem, b: Mem, gs: seq<Segment>, g: Segment, file: seq<int>)
    requires LoadInv(m, gs, file) && Proper(g) && InFile(g, file) && Apart(gs, g) && Clear(m, g)
    requires MappedFor(m, r, g) && MappedAll(r, g) && Stored(r, a, b, g, file) && Fine(b)
    ensures LoadInv(b, gs + [g], file)
  {
    hide Fine, First, Last, HugeFirst, HugeLast, Loaded, Footprint, RestZero, RightsExact, Bounded, MappedFor, Clear;
    hide Stored, Apart, Grown, AllRights, ChunksOf, ZeroPage, Disjoint, MappedAll, AllDirect, Covered, Astray, Touches;
    MappedEmpty(m, r, gs, g);
    MappedParts(m, r, g);
    StoredDirect(r, a, b, g, file);
    DirectStraight(r, g);
    MappedTouched(r, g);
    CopyLoads(r, a, b, g, file);
    FillUntouched(r, a, b, g, file);
    NextFootprint(m, r, b, gs, g);
    NextRest(m, r, b, gs, g);
    NextRights(m, r, b, gs, g);
    forall i | 0 <= i < |gs + [g]|
      ensures InFile((gs + [g])[i], file) && Loaded(b, (gs + [g])[i], file) && !Astray((gs + [g])[i])
    {
      if i < |gs| {
        ApartAt(gs, g, i);
        StaysLoaded(m, r, b, gs[i], g, file);
      }
    }
  }

  lemma ApartAt(gs: seq<Segment>, g: Segment, i: nat)
    requires Apart(gs, g) && i < |gs|
    ensures Disjoint(gs[i], g)
  {
  }

  lemma MappedParts(m: Mem, r: Mem, g: Segment)
    requires MappedFor(m, r, g)
    ensures Fine(r) && Grown(m, r) && AllRights(r, g, First(g), Last(g))
  {
  }

  lemma NextFootprint(m: Mem, r: Mem, b: Mem, gs: seq<Segment>, g: Segment)
    requires Footprint(m, gs) && MappedFor(m, r, g) && Untouched(r, b, g)
    requires Covered(r, Min(First(g), HugeLast(g)), Last(g))
    ensures Footprint(b, gs + [g])
  {
    hide First, Last, HugeFirst, HugeLast, Fine, AllRights, Supply, ByteOf, ZeroPage;
    var hs := gs + [g];
    assert hs[|gs|] == g;
    KeysGrow(m, r);
    forall p | p in b.pages
      ensures exists i :: 0 <= i < |hs| && Touches(hs[i], p)
      ensures b.pages[p].huge ==> exists i :: 0 <= i < |hs| && Whole(hs[i], p)
    {
      if p in m.pages {
        var i :| 0 <= i < |gs| && Touches(gs[i], p);
        assert hs[i] == gs[i];
        if b.pages[p].huge {
          var j :| 0 <= j < |gs| && Whole(gs[j], p);
          assert hs[j] == gs[j];
        }
      } else {
        assert Touches(hs[|gs|], p);
      }
    }
  }

  lemma NextRest(m: Mem, r: Mem, b: Mem, gs: seq<Segment>, g: Segment)
    requires RestZero(m, gs) && MappedFor(m, r, g) && Untouched(r, b, g)
    ensures RestZero(b, gs + [g])
  {
    hide First, Last, HugeFirst, HugeLast, Fine, AllRights, Supply;
    var hs := gs + [g];
    forall p | p in b.pages && forall i :: 0 <= i < |hs| ==> !Owns(hs[i], p)
      ensures ZeroPage(b, p)
    {
      assert !Owns(hs[|gs|], p);
      assert forall i :: 0 <= i < |gs| ==> hs[i] == gs[i];
      if p in m.pages {
        assert ZeroPage(m, p);
      } else {
        assert ZeroPage(r, p);
      }
    }
  }
}
