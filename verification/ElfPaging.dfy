/** The loader's page view is read off the page tables: each map operation on
    them is a step on the view, and what the view says holds for translations. */
module ElfPaging {
  import opened PageTable
  import opened PageSpace
  import opened PageSight
  import opened Paging
  import opened ElfImage
  import opened ElfProof
  import opened ElfProgram

  /** What one call of the loader works on: the tables with the pages and 2 MB
      blocks the allocator will hand out, memory, whom the program is for and
      how many frames the direct map reaches. */
  datatype Machine = Machine(space: Space, pool: seq<nat>, ram: Ram, blocks: seq<nat>, user: bool, reach: nat)

  /** The first page of the upper half. */
  function LowEnd(top: nat): nat
    requires top <= 4
  {
    Size(top + 1) / 2 / PAGE
  }

  /** What a hit says about a page of its range. */
  function PageAt(h: Hit, p: nat): Page
    requires h.level <= 4
  {
    var f := h.entry.flags;
    Page((AlignDown(h.entry.addr, h.level) + p * PAGE % Size(h.level)) / PAGE, f.writable, !f.nx, f.user, h.level > 0)
  }

  /** A page in the lower half that is mapped. */
  ghost predicate IsMapped(s: Space, p: nat)
    requires s.top <= 4
  {
    p < LowEnd(s.top) && SightOf(s, p * PAGE).found.Some?
  }

  ghost function PageSeen(s: Space, p: nat): Page
    requires s.top <= 4 && IsMapped(s, p)
  {
    SightTranslates(s.mem, s.top, s.root, p * PAGE);
    PageAt(SightOf(s, p * PAGE).found.value, p)
  }

  ghost function PagesOf(s: Space): Pages
    requires s.top <= 4
  {
    map p: nat | p < LowEnd(s.top) && IsMapped(s, p) :: PageSeen(s, p)
  }

  function Numbers(pages: seq<nat>): seq<nat> {
    seq(|pages|, i requires 0 <= i < |pages| => pages[i] / PAGE)
  }

  ghost function TableFrames(own: Owners): set<nat> {
    set a | a in own :: a / PAGE
  }

  ghost function ViewOf(x: Machine): Mem
    requires x.space.top <= 4
  {
    Mem(PagesOf(x.space), x.ram, Numbers(x.pool), Numbers(x.blocks), TableFrames(x.space.own), x.user, x.reach)
  }

  predicate Aligned(pages: seq<nat>, size: nat)
    requires size > 0
  {
    forall i :: 0 <= i < |pages| ==> pages[i] % size == 0
  }

  /** The lower half was built by this loader: its tables grant everything but
      user access, and no page is larger than 2 MB. */
  ghost predicate NeatAt(s: Space, p: nat)
    requires s.top <= 4
  {
    var x := SightOf(s, p * PAGE);
    x.plain && (x.found.Some? ==> x.found.value.level <= 1)
  }

  ghost predicate Neat(s: Space)
    requires s.top <= 4
  {
    forall p :: 0 <= p < LowEnd(s.top) ==> NeatAt(s, p)
  }

  /** Everything handed out is aligned and below bit 63. */
  ghost predicate StockOk(x: Machine) {
    && Aligned(x.pool, PAGE) && Aligned(x.blocks, 0x20_0000) && x.reach * PAGE <= BIT63
    && (forall a :: a in x.space.own ==> a % PAGE == 0) && PoolOk(x.pool, x.space.own)
  }

  ghost predicate Sound(x: Machine) {
    match x
    case Machine(space, pool, _, blocks, _, reach) =>
      (space.top == 3 || space.top == 4) && Neat(space) && StockOk(x) && Fine(ViewOf(x))
  }

  // ----- single pages

  lemma PageAddress(s: Space, p: nat)
    requires 3 <= s.top <= 4 && p < LowEnd(s.top)
    ensures InSpace(s, p * PAGE) && p * PAGE + PAGE <= Size(s.top + 1) / 2
  {
  }

  lemma PageNumber(p: nat, off: nat)
    requires off < PAGE
    ensures PageNo(p * PAGE + off, 0) == p && (p * PAGE + off) / PAGE == p && (p * PAGE + off) % PAGE == off
  {
  }

  lemma ChunkNumber(p: nat)
    ensures PageNo(p * PAGE, 1) == p / CHUNK
  {
    assert p == p / CHUNK * CHUNK + p % CHUNK;
    assert p * PAGE == p / CHUNK * 0x20_0000 + p % CHUNK * PAGE;
  }

  lemma SameChunkNo(c: nat, q: nat)
    requires c % CHUNK == 0
    ensures PageNo(q * PAGE, 1) == PageNo(c * PAGE, 1) <==> InChunk(c, q)
  {
    ChunkNumber(c);
    ChunkNumber(q);
  }

  lemma FrameAddress(a: nat)
    requires a % PAGE == 0
    ensures AlignDown(a, 0) == a && a / PAGE * PAGE == a
  {
  }

  lemma BlockAddress(a: nat)
    requires a % 0x20_0000 == 0
    ensures AlignDown(a, 1) == a && a % PAGE == 0 && a / PAGE % CHUNK == 0 && AlignDown(a, 0) == a
  {
    var n := a / 0x20_0000;
    assert a == n * 0x20_0000 == n * CHUNK * PAGE;
  }

  lemma AlignedPage(a: nat, level: nat)
    requires level <= 1
    ensures AlignDown(a, level) % PAGE == 0
  {
    if level == 1 {
      DownTo(a);
    }
  }

  lemma DownTo(a: nat)
    ensures (a - a % 0x20_0000) % PAGE == 0
  {
    var n := a / 0x20_0000 * 512;
    assert a - a % 0x20_0000 == n * PAGE;
    assert n * PAGE / PAGE == n;
  }

  /** What a mapped page's hit looks like. */
  lemma MappedHit(s: Space, p: nat)
    requires s.top <= 4 && Neat(s) && p in PagesOf(s)
    ensures p < LowEnd(s.top) && SightOf(s, p * PAGE).found.Some?
    ensures var h := SightOf(s, p * PAGE).found.value;
        h.level <= 1 && h.entry.flags.present && PagesOf(s)[p] == PageAt(h, p)
  {
    hide See, AlignDown, Size;
    assert NeatAt(s, p);
    SightTranslates(s.mem, s.top, s.root, p * PAGE);
  }

  lemma UnmappedSight(s: Space, p: nat)
    requires s.top <= 4 && p < LowEnd(s.top)
    ensures p in PagesOf(s) <==> SightOf(s, p * PAGE).found.Some?
  {
    hide See;
    assert IsMapped(s, p) <==> SightOf(s, p * PAGE).found.Some?;
  }

  /** Steps that see the same have the same view. */
  lemma SameView(s: Space, s': Space)
    requires 3 <= s.top <= 4 && s'.top == s.top && SameSight(s, s')
    ensures PagesOf(s') == PagesOf(s) && (Neat(s) ==> Neat(s'))
  {
    hide See, AlignDown, Size;
    forall p | 0 <= p < LowEnd(s.top)
      ensures SightOf(s', p * PAGE) == SightOf(s, p * PAGE)
    {
      PageAddress(s, p);
    }
    forall p | 0 <= p < LowEnd(s.top)
      ensures IsMapped(s', p) == IsMapped(s, p) && (IsMapped(s, p) ==> PageSeen(s', p) == PageSeen(s, p))
      ensures (NeatAt(s, p) ==> NeatAt(s', p))
    {
    }
  }

  // ----- reading

  /** paging_get_phys of a page, in terms of the view. */
  lemma PhysOfPage(x: Machine, p: nat)
    requires Sound(x) && p < LowEnd(x.space.top)
    ensures var pages, found := PagesOf(x.space), SightOf(x.space, p * PAGE).found;
            && (p !in pages <==> found.None?)
            && (p in pages ==>
                  && found.value.level <= 1 && found.value.entry.flags.present && pages[p] == PageAt(found.value, p)
                  && 0 < pages[p].frame * PAGE < BIT63
                  && RawPhys(found.value, p * PAGE) == pages[p].frame * PAGE + if Direct(pages[p]) then 0 else BIT63)
  {
    hide See, AlignDown, Size, Neat;
    UnmappedSight(x.space, p);
    if p in PagesOf(x.space) {
      MappedHit(x.space, p);
      FrameBelow(ViewOf(x), p);
      FrameOfHit(SightOf(x.space, p * PAGE).found.value, p);
    }
  }

  lemma FrameBelow(m: Mem, p: nat)
    requires Fine(m) && p in m.pages
    ensures 0 < m.pages[p].frame < m.reach
  {
  }

  lemma FrameOfHit(h: Hit, p: nat)
    requires h.level <= 1
    ensures PageAt(h, p).frame * PAGE == AlignDown(h.entry.addr, h.level) + p * PAGE % Size(h.level)
  {
    AlignedPage(h.entry.addr, h.level);
    PartWhole(p, h.level);
    hide AlignDown, Size;
    SumOfPages(AlignDown(h.entry.addr, h.level), p * PAGE % Size(h.level));
  }

  lemma PartWhole(p: nat, level: nat)
    requires level <= 1
    ensures p * PAGE % Size(level) % PAGE == 0
  {
    PageTimes(p);
    if level == 1 {
      PageInChunk(p, 0);
      PageTimes(p % CHUNK);
    }
  }

  lemma PageTimes(p: nat)
    ensures p * PAGE % PAGE == 0 && p * PAGE / PAGE == p
  {
  }

  lemma ChunkTimes(q: nat, r: nat)
    requires r < 0x20_0000
    ensures (q * 0x20_0000 + r) % 0x20_0000 == r
  {
  }

  /** Where a byte of a page lies in its chunk. */
  lemma PageInChunk(p: nat, off: nat)
    requires off < PAGE
    ensures (p * PAGE + off) % 0x20_0000 == p % CHUNK * PAGE + off
  {
    var q, r := p / CHUNK, p % CHUNK;
    assert p == q * CHUNK + r;
    assert p * PAGE + off == q * 0x20_0000 + (r * PAGE + off);
    ChunkTimes(q, r * PAGE + off);
  }

  lemma SumOfPages(a: nat, b: nat)
    requires a % PAGE == 0 && b % PAGE == 0
    ensures (a + b) / PAGE * PAGE == a + b
  {
  }

  /** A page that is not huge has its last-level table, and mapping it again
      splits nothing. */
  lemma SmallThere(x: Machine, p: nat, target: nat)
    requires Sound(x) && p < LowEnd(x.space.top) && target <= 1
    requires p in PagesOf(x.space) ==> !PagesOf(x.space)[p].huge
    ensures Smooth(x.space, p * PAGE, target)
    ensures p in PagesOf(x.space) ==> PathPresent(x.space.mem, x.space.top, x.space.root, p * PAGE, 0)
  {
    hide See, AlignDown, Size;
    UnmappedSight(x.space, p);
    if p in PagesOf(x.space) {
      MappedHit(x.space, p);
      HitPresent(x.space.mem, x.space.top, x.space.root, p * PAGE, 0);
    }
  }

  // ----- mapping

  /** Flags of the loader's entries. */
  function FlagsFor(g: Segment, user: bool): Flags {
    Flags(true, g.writable, user, false, false, !g.executable, 0)
  }

  lemma NoBit(phys: nat)
    requires phys < BIT63
    ensures phys % BIT63 == phys && forall f :: MapFlags(phys, f) == f
  {
  }

  /** A 4 KB map is an update of the view at one page. */
  lemma SmallMap(s: Space, s': Space, p: nat, phys: nat, flags: Flags)
    requires 3 <= s.top <= 4 && s'.top == s.top && p < LowEnd(s.top) && flags.present && phys % PAGE == 0 && Neat(s)
    requires MapsSight(s, s', 0, p * PAGE, PageEntry(0, phys, flags))
    ensures Neat(s')
    ensures PagesOf(s') == PagesOf(s)[p := Page(phys / PAGE, flags.writable, !flags.nx, flags.user, false)]
  {
    var e := PageEntry(0, phys, flags);
    var page := Page(phys / PAGE, flags.writable, !flags.nx, flags.user, false);
    FrameAddress(phys);
    assert p * PAGE % Size(0) == 0;
    assert PageAt(Hit(0, e), p) == page;
    PageAddress(s, p);
    hide See, AlignDown, Size;
    assert NeatAt(s, p);
    forall q | 0 <= q < LowEnd(s.top)
      ensures NeatAt(s', q) && IsMapped(s', q) == (q == p || IsMapped(s, q))
      ensures IsMapped(s', q) ==> PageSeen(s', q) == if q == p then page else PageSeen(s, q)
    {
      PageAddress(s, q);
      PageNumber(p, 0);
      PageNumber(q, 0);
      assert NeatAt(s, q) && SeesEntry(s, s', 0, p * PAGE, e, q * PAGE);
    }
    assert forall q :: q in PagesOf(s') <==> q in PagesOf(s)[p := page];
  }

  /** A 2 MB map is an update of the view at the 512 pages of a chunk. */
  lemma BigMap(s: Space, s': Space, c: nat, phys: nat, flags: Flags, g: Segment, user: bool)
    requires 3 <= s.top <= 4 && s'.top == s.top && c + CHUNK <= LowEnd(s.top) && c % CHUNK == 0
    requires phys % 0x20_0000 == 0 && Neat(s)
    requires flags == FlagsFor(g, user) && MapsSight(s, s', 1, c * PAGE, PageEntry(1, phys, flags))
    ensures Neat(s') && ChunkAdded(PagesOf(s), PagesOf(s'), g, c, phys / PAGE, user)
  {
    hide See, AlignDown, Size, PageAt, LowEnd, MapsSight, NeatAt;
    assert NeatAt(s, c);
    forall q | 0 <= q < LowEnd(s.top)
      ensures NeatAt(s', q) && IsMapped(s', q) == (InChunk(c, q) || IsMapped(s, q))
      ensures IsMapped(s', q) ==>
                PageSeen(s', q) ==
                  if InChunk(c, q) then Page(phys / PAGE + (q - c), g.writable, g.executable, user, true)
                  else PageSeen(s, q)
    {
      assert NeatAt(s, q);
      BigMapAt(s, s', c, phys, flags, q);
    }
  }

  /** What one page of the lower half sees after a 2 MB map. */
  lemma BigMapAt(s: Space, s': Space, c: nat, phys: nat, flags: Flags, q: nat)
    requires 3 <= s.top <= 4 && s'.top == s.top && q < LowEnd(s.top) && c % CHUNK == 0 && phys % 0x20_0000 == 0
    requires NeatAt(s, c) && NeatAt(s, q) && flags.present
    requires MapsSight(s, s', 1, c * PAGE, PageEntry(1, phys, flags))
    ensures NeatAt(s', q) && IsMapped(s', q) == (InChunk(c, q) || IsMapped(s, q))
    ensures IsMapped(s', q) ==>
              PageSeen(s', q) ==
                if InChunk(c, q) then Page(phys / PAGE + (q - c), flags.writable, !flags.nx, flags.user, true)
                else PageSeen(s, q)
  {
    hide See, AlignDown, Size, PageAt, InChunk, LowEnd;
    var e := PageEntry(1, phys, flags);
    PageAddress(s, q);
    SameChunkNo(c, q);
    assert SeesEntry(s, s', 1, c * PAGE, e, q * PAGE);
    PartPage(phys, c, q, e);
  }

  lemma PartPage(phys: nat, c: nat, q: nat, e: Entry)
    requires phys % 0x20_0000 == 0 && c % CHUNK == 0 && e.addr == AlignDown(phys, 1)
    ensures InChunk(c, q) ==>
              PageAt(Hit(1, e), q) == Page(phys / PAGE + (q - c), e.flags.writable, !e.flags.nx, e.flags.user, true)
  {
    BlockAddress(phys);
    if InChunk(c, q) {
      PartFrame(phys, c, q);
    }
  }

  lemma PartFrame(phys: nat, c: nat, q: nat)
    requires phys % 0x20_0000 == 0 && c % CHUNK == 0 && InChunk(c, q)
    ensures (AlignDown(phys, 1) + q * PAGE % Size(1)) / PAGE == phys / PAGE + (q - c)
  {
    BlockAddress(phys);
    assert q == q / CHUNK * CHUNK + (q - c);
    assert q * PAGE == q / CHUNK * 0x20_0000 + (q - c) * PAGE;
    assert q * PAGE % 0x20_0000 == (q - c) * PAGE;
    assert phys == phys / PAGE * PAGE;
  }

  // ----- steps of the loops

  /** Taking pages for tables, in terms of the view. */
  lemma TakenSupply(x: Machine, y: Machine, pool: seq<nat>)
    requires x.space.top <= 4 && y.space.top <= 4 && StockOk(x) && y.user == x.user && y.reach == x.reach
    requires y.blocks == x.blocks || (x.blocks != [] && y.blocks == x.blocks[1..])
    requires pool == x.pool || (x.pool != [] && pool == x.pool[1..])
    requires Taken(x.space.own, pool, y.space.own, y.pool, 4) && PoolOk(y.pool, y.space.own)
    ensures StockOk(y) && Supply(ViewOf(x), ViewOf(y)) && Later(Numbers(pool), Numbers(y.pool))
    ensures y.blocks == x.blocks ==> ViewOf(y).blocks == ViewOf(x).blocks
    ensures x.blocks != [] && y.blocks == x.blocks[1..] ==> ViewOf(y).blocks == ViewOf(x).blocks[1..]
  {
    hide PagesOf, Numbers, PoolOk, TableFrames;
    TakenPool(pool, x, y);
    NumbersFrom(x.pool, 0);
    NumbersFrom(x.blocks, 0);
    if x.pool != [] {
      NumbersFrom(x.pool, 1);
    }
    if x.blocks != [] {
      NumbersFrom(x.blocks, 1);
    }
    NumbersFrom(pool, |pool| - |y.pool|);
    TakenTables(x, y);
  }

  lemma TakenPool(pool: seq<nat>, x: Machine, y: Machine)
    requires Taken(x.space.own, pool, y.space.own, y.pool, 4)
    requires (pool == x.pool || (x.pool != [] && pool == x.pool[1..]))
    ensures forall i :: 0 <= i < |y.pool| ==> y.pool[i] in x.pool
    ensures forall a :: a in y.space.own ==> a in x.space.own || a in x.pool
  {
  }

  lemma NumbersFrom(pages: seq<nat>, i: nat)
    requires i <= |pages|
    ensures Numbers(pages[i..]) == Numbers(pages)[i..] && |Numbers(pages)| == |pages|
    ensures Numbers(pages)[0..] == Numbers(pages)
  {
  }

  lemma TakenTables(x: Machine, y: Machine)
    requires StockOk(x) && forall a :: a in y.space.own ==> a in x.space.own || a in x.pool
    ensures forall a :: a in y.space.own ==> a % PAGE == 0
    ensures forall t :: t in TableFrames(y.space.own) ==> t in TableFrames(x.space.own) || t in Numbers(x.pool)
  {
    hide PoolOk;
    forall a | a in y.space.own
      ensures a % PAGE == 0 && (a / PAGE in TableFrames(x.space.own) || a / PAGE in Numbers(x.pool))
    {
      if a !in x.space.own {
        var j :| 0 <= j < |x.pool| && x.pool[j] == a;
        assert Numbers(x.pool)[j] == a / PAGE;
      }
    }
  }

  /** The step on an unmapped page: the frame taken from the pool is cleared and,
      if `ok`, mapped. */
  lemma SmallNew(x: Machine, y: Machine, g: Segment, p: nat, ok: bool)
    requires Sound(x) && p < LowEnd(x.space.top) && p !in PagesOf(x.space) && x.pool != []
    requires y.space.top == x.space.top && y.user == x.user && y.reach == x.reach && y.blocks == x.blocks
    requires Taken(x.space.own, x.pool[1..], y.space.own, y.pool, 4) && PoolOk(y.pool, y.space.own)
    requires x.pool[0] !in y.space.own && y.ram == Zero(x.ram, x.pool[0], PAGE)
    requires ok ==> MapsSight(x.space, y.space, 0, p * PAGE, PageEntry(0, x.pool[0], FlagsFor(g, x.user)))
    requires !ok ==> SameSight(x.space, y.space) && y.pool == []
    ensures Sound(y) && SmallsDone(ViewOf(x), ViewOf(y), g, p, p + 1)
    ensures ok ==> p in PagesOf(y.space)
    ensures !ok ==> PagesOf(y.space) == PagesOf(x.space)
  {
    hide Neat, MapsSight, SameSight, Taken, Fine, SmallsDone, LowEnd, Supply, Later;
    TakenSupply(x, y, x.pool[1..]);
    FirstFrame(x, y);
    if ok {
      SmallMap(x.space, y.space, p, x.pool[0], FlagsFor(g, x.user));
    } else {
      SameView(x.space, y.space);
    }
    assert SmallAdded(ViewOf(x), ViewOf(y), g, p);
    NewSmall(ViewOf(x), ViewOf(y), g, p);
    SmallsFine(ViewOf(x), ViewOf(y), g, p, p + 1);
  }

  lemma SmallsFine(m: Mem, r: Mem, g: Segment, lo: nat, hi: nat)
    requires SmallsDone(m, r, g, lo, hi)
    ensures Fine(r)
  {
  }

  lemma FirstFrame(x: Machine, y: Machine)
    requires x.space.top <= 4 && y.space.top <= 4 && StockOk(x) && StockOk(y) && x.pool != []
    requires x.pool[0] !in y.space.own
    ensures Numbers(x.pool) != [] && Numbers(x.pool)[1..] == Numbers(x.pool[1..])
    ensures Numbers(x.pool)[0] == x.pool[0] / PAGE && x.pool[0] == x.pool[0] / PAGE * PAGE && x.pool[0] % PAGE == 0
    ensures Numbers(x.pool)[0] !in TableFrames(y.space.own)
  {
    FrameAddress(x.pool[0]);
    forall a | a in y.space.own
      ensures a / PAGE != x.pool[0] / PAGE
    {
      FrameAddress(a);
    }
  }

  /** Flags of a page with the rights of the segment added. */
  function JoinedFlags(e: Page, g: Segment): Flags {
    Flags(true, e.writable || g.writable, e.user, false, false, !(e.executable || g.executable), 0)
  }

  /** The step on a mapped small page: rights are added, nothing else changes. */
  lemma SmallOld(x: Machine, y: Machine, g: Segment, p: nat)
    requires Sound(x) && p < LowEnd(x.space.top) && p in PagesOf(x.space) && !PagesOf(x.space)[p].huge
    requires y == x.(space := y.space) && y.space.top == x.space.top && y.space.own == x.space.own
    requires var e := PagesOf(x.space)[p];
             MapsSight(x.space, y.space, 0, p * PAGE, PageEntry(0, e.frame * PAGE, JoinedFlags(e, g)))
    ensures Sound(y) && SmallsDone(ViewOf(x), ViewOf(y), g, p, p + 1) && p in PagesOf(y.space)
  {
    hide Neat, MapsSight, SameSight, Fine, SmallsDone, LowEnd, PagesOf, PageEntry, Aligned, PoolOk, Numbers,
      TableFrames;
    var e := PagesOf(x.space)[p];
    assert e.frame * PAGE / PAGE == e.frame && e.frame * PAGE % PAGE == 0;
    SmallMap(x.space, y.space, p, e.frame * PAGE, JoinedFlags(e, g));
    assert SmallJoined(ViewOf(x), ViewOf(y), g, p);
    OldSmall(ViewOf(x), ViewOf(y), g, p);
    SmallsFine(ViewOf(x), ViewOf(y), g, p, p + 1);
  }

  /** The step on an unmapped chunk. */
  lemma BigNew(x: Machine, y: Machine, g: Segment, c: nat, ok: bool)
    requires Sound(x) && c + CHUNK <= LowEnd(x.space.top) && c % CHUNK == 0 && Unmapped(ViewOf(x), c, c + CHUNK)
    requires x.blocks != []
    requires y.space.top == x.space.top && y.user == x.user && y.reach == x.reach && y.blocks == x.blocks[1..]
    requires Taken(x.space.own, x.pool, y.space.own, y.pool, 4) && PoolOk(y.pool, y.space.own)
    requires y.ram == Zero(x.ram, x.blocks[0], 0x20_0000)
    requires ok ==> MapsSight(x.space, y.space, 1, c * PAGE, PageEntry(1, x.blocks[0], FlagsFor(g, x.user)))
    requires !ok ==> SameSight(x.space, y.space) && y.pool == []
    ensures Sound(y) && BigsDone(ViewOf(x), ViewOf(y), g, c, c + CHUNK)
    ensures ok ==> Covered(ViewOf(y), c, c + CHUNK)
  {
    hide Neat, MapsSight, SameSight, Taken, Fine, BigsDone, LowEnd, Supply, Later, ChunkAdded;
    TakenSupply(x, y, x.pool);
    BlockAddress(x.blocks[0]);
    if ok {
      BigMap(x.space, y.space, c, x.blocks[0], FlagsFor(g, x.user), g, x.user);
      ChunkCovers(PagesOf(x.space), PagesOf(y.space), g, c, x.blocks[0] / PAGE, x.user);
    } else {
      SameView(x.space, y.space);
    }
    assert BigAdded(ViewOf(x), ViewOf(y), g, c);
    NewBig(ViewOf(x), ViewOf(y), g, c);
    BigsFine(ViewOf(x), ViewOf(y), g, c, c + CHUNK);
  }

  lemma ChunkCovers(was: Pages, pages: Pages, g: Segment, c: nat, b: nat, user: bool)
    requires ChunkAdded(was, pages, g, c, b, user)
    ensures forall q :: c <= q < c + CHUNK ==> q in pages
  {
    forall q | c <= q < c + CHUNK
      ensures q in pages
    {
      assert InChunk(c, q);
    }
  }

  lemma BigsFine(m: Mem, r: Mem, g: Segment, lo: nat, hi: nat)
    requires BigsDone(m, r, g, lo, hi)
    ensures Fine(r)
  {
  }

  /** When a page's walk ran out of memory, its whole chunk is unmapped. */
  lemma StarvedChunk(s: Space, p: nat, q: nat)
    requires 3 <= s.top <= 4 && p < LowEnd(s.top) && q < LowEnd(s.top) && p / CHUNK == q / CHUNK
    requires AllOrNone(s, p * PAGE, 0) && p !in PagesOf(s)
    ensures q !in PagesOf(s)
  {
    hide See, Size, LowEnd;
    UnmappedSight(s, p);
    UnmappedSight(s, q);
    PageAddress(s, q);
    ChunkNumber(p);
    ChunkNumber(q);
  }

  // ----- what the view says about translations

  /** Every address of the lower half translates as its page in the view says,
      and never for users. */
  lemma ViewTranslates(x: Machine, va: nat)
    requires Sound(x) && va / PAGE < LowEnd(x.space.top)
    ensures var p := va / PAGE;
            match Trans(x.space, va)
            case None => p !in PagesOf(x.space)
            case Some(l) =>
              && p in PagesOf(x.space)
              && var e := PagesOf(x.space)[p];
                 l.phys == e.frame * PAGE + va % PAGE && l.rights == Rights(e.writable, false, !e.executable)
  {
    hide See, Walk, AlignDown, Neat, Fine;
    var s, p := x.space, va / PAGE;
    SamePageNo(va);
    SeeSamePage(s.mem, s.top, s.root, va, p * PAGE);
    SightTranslates(s.mem, s.top, s.root, va);
    UnmappedSight(s, p);
    if p in PagesOf(s) {
      NeatHere(s, p);
      MappedHit(s, p);
      var h := SightOf(s, p * PAGE).found.value;
      FrameOfHit(h, p);
      OffsetIn(va, h.level);
    }
  }

  lemma NeatHere(s: Space, p: nat)
    requires s.top <= 4 && Neat(s) && p < LowEnd(s.top)
    ensures NeatAt(s, p)
  {
  }

  lemma SamePageNo(va: nat)
    ensures PageNo(va, 0) == PageNo(va / PAGE * PAGE, 0)
  {
  }

  lemma OffsetIn(va: nat, level: nat)
    requires level <= 1
    ensures va % Size(level) == va / PAGE * PAGE % Size(level) + va % PAGE
  {
    var p, off := va / PAGE, va % PAGE;
    assert va == p * PAGE + off;
    if level == 1 {
      PageInChunk(p, off);
      PageInChunk(p, 0);
    } else {
      PageTimes(p);
    }
  }

  /** Every address of the segment reads as its header asks, and may be written
      and run as it asks. */
  ghost predicate ReadsAs(s: Space, ram: Ram, g: Segment, file: seq<int>)
    requires s.top <= 4 && InFile(g, file)
  {
    forall va :: g.vaddr <= va < g.vaddr + g.memsz ==> ReadsAt(s, ram, g, file, va)
  }

  ghost predicate ReadsAt(s: Space, ram: Ram, g: Segment, file: seq<int>, va: nat)
    requires s.top <= 4 && InFile(g, file) && g.vaddr <= va
  {
    match Trans(s, va)
    case None => false
    case Some(l) =>
      ram(l.phys) == Content(g, file, va) && (g.writable ==> l.rights.writable) && (g.executable ==> !l.rights.nx)
  }

  lemma LoadedReads(x: Machine, g: Segment, file: seq<int>)
    requires x.space.top <= 4 && Sound(x) && InFile(g, file) && Loaded(ViewOf(x), g, file)
    requires Last(g) <= LowEnd(x.space.top)
    ensures ReadsAs(x.space, x.ram, g, file)
  {
    hide Sound, First, Last, LowEnd, Content, Walk, PagesOf;
    forall va | g.vaddr <= va < g.vaddr + g.memsz
      ensures ReadsAt(x.space, x.ram, g, file, va)
    {
      OwnAddress(g, va);
      ViewTranslates(x, va);
      LoadedAt(ViewOf(x), g, file, va);
    }
  }

  lemma LoadedAt(m: Mem, g: Segment, file: seq<int>, va: nat)
    requires InFile(g, file) && Loaded(m, g, file) && g.vaddr <= va < g.vaddr + g.memsz
    ensures va / PAGE in m.pages && ElfProof.Rights(m.pages[va / PAGE], g)
    ensures m.ram(m.pages[va / PAGE].frame * PAGE + va % PAGE) == Content(g, file, va)
  {
    hide First, Last, Content;
    OwnAddress(g, va);
    assert Va(va / PAGE, va % PAGE) == va;
  }

  /** An address of the lower half is mapped exactly if some segment touches its
      page, writable exactly if a writable one does, executable exactly if an
      executable one does, and never open to users. */
  ghost predicate AsAsked(s: Space, gs: seq<Segment>)
    requires s.top <= 4
  {
    forall va: nat :: va / PAGE < LowEnd(s.top) ==> AsAskedAt(s, gs, va)
  }

  ghost predicate AsAskedAt(s: Space, gs: seq<Segment>, va: nat)
    requires s.top <= 4
  {
    var p := va / PAGE;
    match Trans(s, va)
    case None => forall i :: 0 <= i < |gs| ==> !Touches(gs[i], p)
    case Some(l) =>
      && (exists i :: 0 <= i < |gs| && Touches(gs[i], p))
      && l.rights == PageTable.Rights(SomeWritable(gs, p), false, !SomeExecutable(gs, p))
  }

  /** A page of a segment ends with exactly its rights if and only if no segment
      that touches the page, loaded before or after, asks for more. */
  lemma OwnRightsIff(s: Space, gs: seq<Segment>, d: nat, va: nat)
    requires s.top <= 4 && AsAsked(s, gs) && d < |gs| && Owns(gs[d], va / PAGE) && va / PAGE < LowEnd(s.top)
    ensures Trans(s, va).Some?
    ensures var r := Trans(s, va).value.rights;
            r.writable == gs[d].writable && r.nx == !gs[d].executable <==>
              forall i :: 0 <= i < |gs| && Touches(gs[i], va / PAGE) ==>
                (gs[i].writable ==> gs[d].writable) && (gs[i].executable ==> gs[d].executable)
  {
    var p := va / PAGE;
    assert Touches(gs[d], p);
    hide Touches, Walk, LowEnd;
    assert AsAskedAt(s, gs, va);
    if forall i :: 0 <= i < |gs| && Touches(gs[i], p) ==>
        (gs[i].writable ==> gs[d].writable) && (gs[i].executable ==> gs[d].executable) {
      assert SomeWritable(gs, p) <==> gs[d].writable;
      assert SomeExecutable(gs, p) <==> gs[d].executable;
    } else {
      var i :| 0 <= i < |gs| && Touches(gs[i], p)
               && !((gs[i].writable ==> gs[d].writable) && (gs[i].executable ==> gs[d].executable));
      assert gs[i].writable ==> SomeWritable(gs, p);
      assert gs[i].executable ==> SomeExecutable(gs, p);
    }
  }

  /** Different addresses of the lower half lie in different memory, and none in
      a page table. */
  ghost predicate Private(s: Space)
    requires s.top <= 4
  {
    && (forall va: nat :: va / PAGE < LowEnd(s.top) && Trans(s, va).Some? ==> NoTable(s, Trans(s, va).value.phys))
    && (forall va: nat, vb: nat :: va / PAGE < LowEnd(s.top) && vb / PAGE < LowEnd(s.top) && va != vb ==>
          NotShared(Trans(s, va), Trans(s, vb)))
  }

  ghost predicate NotShared(a: Option<Leaf>, b: Option<Leaf>) {
    a.Some? && b.Some? ==> a.value.phys != b.value.phys
  }

  ghost predicate NoTable(s: Space, phys: nat) {
    phys - phys % PAGE !in s.own
  }

  /** The outcome of a successful load. */
  ghost predicate InPlace(s: Space, ram: Ram, gs: seq<Segment>, file: seq<int>)
    requires s.top <= 4
  {
    && AsAsked(s, gs) && Private(s)
    && forall i :: 0 <= i < |gs| ==> InFile(gs[i], file) && ReadsAs(s, ram, gs[i], file)
  }

  lemma LoadInPlace(x: Machine, gs: seq<Segment>, file: seq<int>)
    requires x.space.top <= 4 && Sound(x) && LoadInv(ViewOf(x), gs, file)
    requires forall i :: 0 <= i < |gs| ==> Last(gs[i]) <= LowEnd(x.space.top)
    ensures InPlace(x.space, x.ram, gs, file)
    ensures forall i :: 0 <= i < |gs| ==> !Astray(gs[i])
  {
    hide Sound, Loaded, ReadsAs, Last, LowEnd, AsAsked, Private, Footprint, RightsExact, RestZero, Fine;
    forall i | 0 <= i < |gs|
      ensures InFile(gs[i], file) && ReadsAs(x.space, x.ram, gs[i], file)
    {
      LoadedReads(x, gs[i], file);
    }
    LoadAsAsked(x, gs);
    LoadPrivate(x);
  }

  lemma LoadAsAsked(x: Machine, gs: seq<Segment>)
    requires x.space.top <= 4 && Sound(x) && RightsExact(ViewOf(x), gs) && Footprint(ViewOf(x), gs)
    ensures AsAsked(x.space, gs)
  {
    hide Sound, Touches, LowEnd, Walk, SomeWritable, SomeExecutable, PagesOf;
    forall va: nat | va / PAGE < LowEnd(x.space.top)
      ensures AsAskedAt(x.space, gs, va)
    {
      ViewTranslates(x, va);
    }
  }

  lemma LoadPrivate(x: Machine)
    requires Sound(x)
    ensures x.space.top <= 4 && Private(x.space)
  {
    var s := x.space;
    forall va: nat | va / PAGE < LowEnd(s.top) && Trans(s, va).Some?
      ensures NoTable(s, Trans(s, va).value.phys)
    {
      NotInTable(x, va);
    }
    hide Sound, Walk, LowEnd;
    forall va: nat, vb: nat | va / PAGE < LowEnd(s.top) && vb / PAGE < LowEnd(s.top) && va != vb
      ensures NotShared(Trans(s, va), Trans(s, vb))
    {
      if Trans(s, va).Some? && Trans(s, vb).Some? {
        ApartIn(x, va, vb);
      }
    }
  }

  lemma NotInTable(x: Machine, va: nat)
    requires Sound(x) && va / PAGE < LowEnd(x.space.top) && Trans(x.space, va).Some?
    ensures NoTable(x.space, Trans(x.space, va).value.phys)
  {
    hide Walk, LowEnd, PagesOf;
    ViewTranslates(x, va);
    var e := PagesOf(x.space)[va / PAGE];
    var at := e.frame * PAGE;
    assert (at + va % PAGE) % PAGE == va % PAGE;
    assert at / PAGE == e.frame;
    assert e.frame !in TableFrames(x.space.own) by {
      FrameNoTable(ViewOf(x), va / PAGE);
    }
  }

  lemma FrameNoTable(m: Mem, p: nat)
    requires Fine(m) && p in m.pages
    ensures m.pages[p].frame !in m.tables
  {
  }

  lemma ApartIn(x: Machine, va: nat, vb: nat)
    requires Sound(x) && va / PAGE < LowEnd(x.space.top) && vb / PAGE < LowEnd(x.space.top) && va != vb
    requires Trans(x.space, va).Some? && Trans(x.space, vb).Some?
    ensures Trans(x.space, va).value.phys != Trans(x.space, vb).value.phys
  {
    ViewTranslates(x, va);
    ViewTranslates(x, vb);
    if va / PAGE != vb / PAGE {
      FramesDistinct(ViewOf(x), va / PAGE, vb / PAGE);
    }
    hide Sound, Walk, LowEnd, PagesOf;
  }

  lemma FramesDistinct(m: Mem, p: nat, q: nat)
    requires Fine(m) && p in m.pages && q in m.pages && p != q
    ensures m.pages[p].frame != m.pages[q].frame
  {
  }

  // ----- a fresh space

  /** The root has no entry for the lower half. */
  ghost predicate LowerHalfEmpty(s: Space) {
    s.root in s.mem && forall i :: 0 <= i < 256 ==> !s.mem[s.root][i].flags.present
  }

  /** An empty lower half, and allocators whose pages are unused. */
  ghost predicate Fresh(x: Machine) {
    && (x.space.top == 3 || x.space.top == 4) && LowerHalfEmpty(x.space) && StockOk(x)
    && FramesOk(map[], Numbers(x.pool), x.reach) && BlocksOk(map[], Numbers(x.pool), Numbers(x.blocks), x.reach)
    && TablesOk(map[], Numbers(x.blocks), TableFrames(x.space.own))
  }

  lemma FreshSound(x: Machine, file: seq<int>)
    requires Fresh(x)
    ensures Sound(x) && LoadInv(ViewOf(x), [], file)
  {
    var s := x.space;
    forall p | 0 <= p < LowEnd(s.top)
      ensures NeatAt(s, p) && !IsMapped(s, p)
    {
      FreshPage(s, p);
    }
    assert PagesOf(s) == map[];
  }

  lemma FreshPage(s: Space, p: nat)
    requires 3 <= s.top <= 4 && LowerHalfEmpty(s) && p < LowEnd(s.top)
    ensures SightOf(s, p * PAGE) == Sight(None, true)
  {
    PageAddress(s, p);
    assert Index(p * PAGE, s.top) < 256;
    SeeStep(s.mem, s.top, s.root, p * PAGE);
  }
}
