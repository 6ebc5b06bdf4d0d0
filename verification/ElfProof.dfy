/** The loader's steps on the page view, and what they add up to for segments
    that share no page. */
module ElfProof {
  import opened ElfImage

  // ----- what every step keeps

  /** No two pages share a frame. */
  ghost predicate Injective(pages: Pages) {
    forall p, q :: p in pages && q in pages && p != q ==> pages[p].frame != pages[q].frame
  }

  ghost predicate FrameOk(f: nat, reach: nat) {
    0 < f < reach
  }

  ghost predicate InBlock(b: nat, f: nat) {
    b <= f < b + CHUNK
  }

  /** Frames still to be handed out are unused and different. */
  ghost predicate FramesOk(pages: Pages, frames: seq<nat>, reach: nat) {
    && (forall i :: 0 <= i < |frames| ==> FrameOk(frames[i], reach))
    && (forall i, j :: 0 <= i < j < |frames| ==> frames[i] != frames[j])
    && (forall i, p :: 0 <= i < |frames| && p in pages ==> frames[i] != pages[p].frame)
  }

  ghost predicate BlocksOk(pages: Pages, frames: seq<nat>, blocks: seq<nat>, reach: nat) {
    && (forall i :: 0 <= i < |blocks| ==> 0 < blocks[i] && blocks[i] + CHUNK <= reach)
    && (forall i, j :: 0 <= i < j < |blocks| ==> blocks[i] + CHUNK <= blocks[j] || blocks[j] + CHUNK <= blocks[i])
    && (forall i, p :: 0 <= i < |blocks| && p in pages ==> !InBlock(blocks[i], pages[p].frame))
    && (forall i, j :: 0 <= i < |blocks| && 0 <= j < |frames| ==> !InBlock(blocks[i], frames[j]))
  }

  /** No page and no free block holds a page table. */
  ghost predicate TablesOk(pages: Pages, blocks: seq<nat>, tables: set<nat>) {
    && (forall p :: p in pages ==> pages[p].frame !in tables)
    && (forall i, t :: 0 <= i < |blocks| && t in tables ==> !InBlock(blocks[i], t))
  }

  ghost predicate PagesOk(pages: Pages, user: bool, reach: nat) {
    forall p :: p in pages ==> FrameOk(pages[p].frame, reach) && pages[p].user == user
  }

  ghost predicate Fine(m: Mem)
  {
    match m
    case Mem(pages, ram, frames, blocks, tables, user, reach) =>
      && Injective(pages) && PagesOk(pages, user, reach) && FramesOk(pages, frames, reach)
      && BlocksOk(pages, frames, blocks, reach) && TablesOk(pages, blocks, tables)
  }

  /** The byte at an offset of a page. */
  ghost function ByteOf(m: Mem, p: nat, off: nat): int
    requires p in m.pages
  {
    m.ram(m.pages[p].frame * PAGE + off)
  }

  ghost predicate SamePage(e: Page, e': Page) {
    && e'.frame == e.frame && e'.huge == e.huge && (e.writable ==> e'.writable) && (e.executable ==> e'.executable)
    && (e.huge ==> e' == e)
  }

  /** Mapped pages stay where they are, with at least the rights they had, and
      so does what is in them. */
  ghost predicate Grown(m: Mem, m': Mem) {
    && (forall p :: p in m.pages ==> p in m'.pages && SamePage(m.pages[p], m'.pages[p]))
    && (forall p, off: nat :: p in m.pages && p in m'.pages && off < PAGE ==> ByteOf(m', p, off) == ByteOf(m, p, off))
  }

  ghost predicate ZeroPage(m: Mem, p: nat)
    requires p in m.pages
  {
    forall off: nat :: off < PAGE ==> ByteOf(m, p, off) == 0
  }

  /** New pages lie in a range, are empty, and are huge only where allowed. */
  ghost predicate NewPages(m: Mem, m': Mem, lo: nat, hi: nat, huge: bool, executable: bool) {
    forall p :: p in m'.pages && p !in m.pages ==>
      lo <= p < hi && ZeroPage(m', p) && m'.pages[p].huge == huge && (huge ==> m'.pages[p].executable == executable)
  }

  ghost predicate Rights(e: Page, g: Segment) {
    (g.writable ==> e.writable) && (g.executable ==> e.executable)
  }

  /** Rights come from before or from the segment, and only in a range. */
  ghost predicate Bounded(m: Mem, m': Mem, g: Segment, lo: nat, hi: nat) {
    forall p :: p in m'.pages ==>
      && (m'.pages[p].writable ==> (p in m.pages && m.pages[p].writable) || (lo <= p < hi && g.writable))
      && (m'.pages[p].executable ==> (p in m.pages && m.pages[p].executable) || (lo <= p < hi && g.executable))
  }

  ghost predicate NoHuge(m: Mem, lo: nat, hi: nat) {
    forall p :: lo <= p < hi && p in m.pages ==> !m.pages[p].huge
  }

  ghost predicate AllRights(m: Mem, g: Segment, lo: nat, hi: nat) {
    forall p :: lo <= p < hi && p in m.pages ==> Rights(m.pages[p], g)
  }

  ghost predicate Unmapped(m: Mem, lo: nat, hi: nat) {
    forall p :: lo <= p < hi ==> p !in m.pages
  }

  ghost predicate Covered(m: Mem, lo: nat, hi: nat) {
    forall p :: lo <= p < hi ==> p in m.pages
  }

  /** The frames are those left after taking some from the front. */
  ghost predicate Later(frames: seq<nat>, frames': seq<nat>) {
    |frames'| <= |frames| && frames' == frames[|frames| - |frames'|..]
  }

  /** What is left to hand out is what was left before, or less; new page tables
      come from it. */
  ghost predicate Supply(m: Mem, r: Mem) {
    && r.user == m.user && r.reach == m.reach
    && Later(m.frames, r.frames) && Later(m.blocks, r.blocks)
    && forall t :: t in r.tables ==> t in m.tables || t in m.frames
  }

  lemma LaterTrans(a: seq<nat>, b: seq<nat>, c: seq<nat>)
    requires Later(a, b) && Later(b, c)
    ensures Later(a, c)
  {
  }

  lemma SupplyTrans(a: Mem, b: Mem, c: Mem)
    requires Supply(a, b) && Supply(b, c)
    ensures Supply(a, c)
  {
    LaterTrans(a.frames, b.frames, c.frames);
    LaterTrans(a.blocks, b.blocks, c.blocks);
    forall t | t in c.tables
      ensures t in a.tables || t in a.frames
    {
    }
  }

  // ----- one page

  lemma FramesDiffer(f: nat, g: nat, off: nat)
    requires f != g && off < PAGE
    ensures !(f * PAGE <= g * PAGE + off < f * PAGE + PAGE)
  {
  }

  lemma ZeroElsewhere(m: Mem, f: nat, p: nat, off: nat)
    requires p in m.pages && m.pages[p].frame != f && off < PAGE
    ensures Zero(m.ram, f * PAGE, PAGE)(m.pages[p].frame * PAGE + off) == ByteOf(m, p, off)
  {
    FramesDiffer(f, m.pages[p].frame, off);
  }

  /** A small page for a segment in a frame. */
  function NewPage(f: nat, g: Segment, user: bool): Page {
    Page(f, g.writable, g.executable, user, false)
  }

  /** The page with the rights of the segment added. */
  function Joined(e: Page, g: Segment): Page {
    e.(writable := e.writable || g.writable, executable := e.executable || g.executable, huge := false)
  }

  /** A step of the head or tail loop on an unmapped page: the next frame is
      cleared, and mapped unless page tables ran out. */
  ghost predicate SmallAdded(m: Mem, r: Mem, g: Segment, p: nat) {
    && p !in m.pages && m.frames != [] && Supply(m, r) && Later(m.frames[1..], r.frames) && r.blocks == m.blocks
    && r.ram == Zero(m.ram, m.frames[0] * PAGE, PAGE) && m.frames[0] !in r.tables
    && (r.pages == m.pages[p := NewPage(m.frames[0], g, m.user)] || (r.pages == m.pages && r.frames == []))
  }

  /** A step of the head or tail loop on a mapped small page. */
  ghost predicate SmallJoined(m: Mem, r: Mem, g: Segment, p: nat) {
    p in m.pages && !m.pages[p].huge && r == m.(pages := m.pages[p := Joined(m.pages[p], g)])
  }

  /** What head or tail steps over a range have done. */
  ghost predicate SmallsDone(m: Mem, r: Mem, g: Segment, lo: nat, hi: nat) {
    && Fine(r) && Grown(m, r) && NewPages(m, r, lo, hi, false, false) && AllRights(r, g, lo, hi)
    && Bounded(m, r, g, lo, hi)
    && Supply(m, r) && r.blocks == m.blocks && (m.frames == [] ==> r.pages.Keys == m.pages.Keys)
  }

  lemma NewSmall(m: Mem, r: Mem, g: Segment, p: nat)
    requires Fine(m) && SmallAdded(m, r, g, p)
    ensures SmallsDone(m, r, g, p, p + 1)
  {
    hide Fine, Supply, Later, ByteOf, ZeroPage;
    NewSmallFine(m, r, g, p);
    NewSmallBytes(m, r, g, p);
  }

  lemma NewSmallBytes(m: Mem, r: Mem, g: Segment, p: nat)
    requires Fine(m) && SmallAdded(m, r, g, p)
    ensures forall q, off: nat :: q in m.pages && off < PAGE ==> ByteOf(r, q, off) == ByteOf(m, q, off)
    ensures p in r.pages ==> ZeroPage(r, p)
  {
    hide Fine, Supply, Later;
    forall q, off: nat | q in m.pages && off < PAGE
      ensures ByteOf(r, q, off) == ByteOf(m, q, off)
    {
      FreshFrame(m, q);
      ZeroElsewhere(m, m.frames[0], q, off);
    }
  }

  lemma FreshFrame(m: Mem, q: nat)
    requires Fine(m) && m.frames != [] && q in m.pages
    ensures m.pages[q].frame != m.frames[0]
  {
  }

  lemma NewSmallFine(m: Mem, r: Mem, g: Segment, p: nat)
    requires Fine(m) && SmallAdded(m, r, g, p)
    ensures Fine(r)
  {
    hide Zero;
    assert Injective(r.pages) && PagesOk(r.pages, r.user, r.reach);
    SuffixFresh(m.pages, m.frames, r.pages, r.frames, m.reach);
    assert BlocksOk(r.pages, r.frames, r.blocks, r.reach);
    forall i, t | 0 <= i < |r.blocks| && t in r.tables
      ensures !InBlock(r.blocks[i], t)
    {
    }
  }

  lemma SuffixFresh(pages: Pages, frames: seq<nat>, pages': Pages, frames': seq<nat>, reach: nat)
    requires frames != [] && FramesOk(pages, frames, reach) && Later(frames[1..], frames')
    requires forall q :: q in pages' ==> (q in pages && pages'[q] == pages[q]) || pages'[q].frame == frames[0]
    ensures FramesOk(pages', frames', reach)
  {
  }

  /** A mapped page that is not huge only gains rights. */
  lemma OldSmall(m: Mem, r: Mem, g: Segment, p: nat)
    requires Fine(m) && SmallJoined(m, r, g, p)
    ensures SmallsDone(m, r, g, p, p + 1)
  {
    hide Fine;
    assert r.pages.Keys == m.pages.Keys;
    OldSmallFine(m, r, g, p);
  }

  lemma OldSmallFine(m: Mem, r: Mem, g: Segment, p: nat)
    requires Fine(m) && SmallJoined(m, r, g, p)
    ensures Fine(r)
  {
    assert forall q :: q in r.pages <==> q in m.pages;
    assert forall q :: q in r.pages ==> r.pages[q].frame == m.pages[q].frame && r.pages[q].user == m.pages[q].user;
  }

  // ----- one chunk

  /** A step of the middle loop on an unmapped chunk. */
  ghost predicate BigAdded(m: Mem, r: Mem, g: Segment, c: nat) {
    && m.blocks != [] && Supply(m, r) && r.blocks == m.blocks[1..]
    && r.ram == Zero(m.ram, m.blocks[0] * PAGE, CHUNK * PAGE)
    && (ChunkAdded(m.pages, r.pages, g, c, m.blocks[0], m.user) || (r.pages == m.pages && r.frames == []))
  }

  ghost predicate ChunkAdded(was: Pages, pages: Pages, g: Segment, c: nat, b: nat, user: bool) {
    && (forall q :: q in pages <==> q in was || InChunk(c, q))
    && (forall q :: q in pages ==>
          pages[q] == if InChunk(c, q) then Page(b + (q - c), g.writable, g.executable, user, true) else was[q])
  }

  /** What middle steps over a range have done. */
  ghost predicate BigsDone(m: Mem, r: Mem, g: Segment, lo: nat, hi: nat) {
    && Fine(r) && Grown(m, r) && NewPages(m, r, lo, hi, true, g.executable) && AllRights(r, g, lo, hi)
    && Bounded(m, r, g, lo, hi)
    && Supply(m, r)
  }

  lemma BlockBytes(f: nat, h: nat, off: nat)
    requires off < PAGE
    ensures f * PAGE <= h * PAGE + off < f * PAGE + CHUNK * PAGE <==> InBlock(f, h)
  {
  }

  lemma FreshBlock(m: Mem, q: nat)
    requires Fine(m) && m.blocks != [] && q in m.pages
    ensures !InBlock(m.blocks[0], m.pages[q].frame)
  {
  }

  /** Earlier pages with their frames and new pages with frames of a block. */
  ghost predicate Extended(was: Pages, pages: Pages, b: nat) {
    forall q :: q in pages ==> (q in was && pages[q] == was[q]) || (q !in was && InBlock(b, pages[q].frame))
  }

  lemma NewBigFine(m: Mem, r: Mem, g: Segment, c: nat)
    requires Fine(m) && BigAdded(m, r, g, c) && Unmapped(m, c, c + CHUNK)
    ensures Fine(r)
  {
    hide Injective, FramesOk, BlocksOk, TablesOk, PagesOk;
    NewBigInjective(m, r, g, c);
    assert Extended(m.pages, r.pages, m.blocks[0]);
    ExtendedPools(m.pages, r.pages, m.frames, m.blocks, m.reach, r.frames);
    ExtendedTables(m, r);
  }

  lemma NewBigInjective(m: Mem, r: Mem, g: Segment, c: nat)
    requires Fine(m) && BigAdded(m, r, g, c) && Unmapped(m, c, c + CHUNK)
    ensures Injective(r.pages) && PagesOk(r.pages, r.user, r.reach)
  {
    assert forall q :: q in m.pages ==> !InBlock(m.blocks[0], m.pages[q].frame);
    hide FramesOk, TablesOk;
  }

  lemma ExtendedPools(was: Pages, pages: Pages, frames: seq<nat>, blocks: seq<nat>, reach: nat, frames': seq<nat>)
    requires blocks != [] && FramesOk(was, frames, reach) && BlocksOk(was, frames, blocks, reach)
    requires Extended(was, pages, blocks[0]) && Later(frames, frames')
    ensures FramesOk(pages, frames', reach) && BlocksOk(pages, frames', blocks[1..], reach)
  {
    assert forall i :: 0 <= i < |blocks| - 1 ==> blocks[1..][i] == blocks[i + 1];
  }

  lemma ExtendedTables(m: Mem, r: Mem)
    requires Fine(m) && m.blocks != [] && Extended(m.pages, r.pages, m.blocks[0]) && Supply(m, r)
    requires r.blocks == m.blocks[1..]
    ensures TablesOk(r.pages, r.blocks, r.tables)
  {
    forall p | p in r.pages
      ensures r.pages[p].frame !in r.tables
    {
      if r.pages[p].frame in r.tables {
        TableNowhere(m, r, r.pages[p].frame, 0);
      }
    }
    forall i, t | 0 <= i < |r.blocks| && t in r.tables
      ensures !InBlock(r.blocks[i], t)
    {
      TableNowhere(m, r, t, i + 1);
    }
  }

  /** A table lies on no page mapped before and in no block. */
  lemma TableNowhere(m: Mem, r: Mem, t: nat, i: nat)
    requires Fine(m) && Supply(m, r) && t in r.tables && i < |m.blocks|
    ensures !InBlock(m.blocks[i], t) && forall p :: p in m.pages ==> m.pages[p].frame != t
  {
    if t in m.frames {
      var j :| 0 <= j < |m.frames| && m.frames[j] == t;
    }
  }

  /** A chunk of unmapped pages. */
  lemma NewBig(m: Mem, r: Mem, g: Segment, c: nat)
    requires Fine(m) && BigAdded(m, r, g, c) && Unmapped(m, c, c + CHUNK)
    ensures BigsDone(m, r, g, c, c + CHUNK)
  {
    hide Fine;
    NewBigFine(m, r, g, c);
    var b := m.blocks[0];
    forall q, off: nat | q in m.pages && off < PAGE
      ensures q in r.pages && ByteOf(r, q, off) == ByteOf(m, q, off)
    {
      FreshBlock(m, q);
      BlockBytes(b, m.pages[q].frame, off);
    }
    forall q, off: nat | q in r.pages && q !in m.pages && off < PAGE
      ensures ByteOf(r, q, off) == 0
    {
      BlockBytes(b, r.pages[q].frame, off);
    }
  }

  // ----- composing steps

  lemma GrownTrans(a: Mem, b: Mem, c: Mem)
    requires Grown(a, b) && Grown(b, c)
    ensures Grown(a, c)
  {
  }

  /** Pages added by two steps in a row. */
  lemma NewTrans(a: Mem, b: Mem, c: Mem, lo: nat, mid: nat, hi: nat, huge: bool, executable: bool)
    requires Grown(a, b) && Grown(b, c) && lo <= mid <= hi
    requires NewPages(a, b, lo, mid, huge, executable) && NewPages(b, c, mid, hi, huge, executable)
    ensures NewPages(a, c, lo, hi, huge, executable)
  {
    forall p | p in c.pages && p !in a.pages
      ensures lo <= p < hi && ZeroPage(c, p) && c.pages[p].huge == huge
      ensures (huge ==> c.pages[p].executable == executable)
    {
      if p in b.pages {
        assert ZeroPage(b, p);
      }
    }
  }

  lemma BoundedTrans(a: Mem, b: Mem, c: Mem, g: Segment, lo: nat, hi: nat, from: nat, to: nat, low: nat, high: nat)
    requires Bounded(a, b, g, lo, hi) && Bounded(b, c, g, from, to) && low <= lo && hi <= high && low <= from
    requires to <= high
    ensures Bounded(a, c, g, low, high)
  {
  }

  /** The rights of a range stay when pages elsewhere are added. */
  lemma Settled(m: Mem, r: Mem, g: Segment, lo: nat, mid: nat, hi: nat)
    requires Grown(m, r) && Covers(m, r, mid, hi) && lo <= mid <= hi && AllRights(m, g, lo, mid)
    requires AllRights(r, g, mid, hi)
    ensures AllRights(r, g, lo, hi)
  {
  }

  /** New pages lie in a range. */
  ghost predicate Covers(m: Mem, r: Mem, lo: nat, hi: nat) {
    forall p :: p in r.pages && p !in m.pages ==> lo <= p < hi
  }

  lemma SmallsNone(m: Mem, g: Segment, lo: nat)
    requires Fine(m)
    ensures SmallsDone(m, m, g, lo, lo)
  {
  }

  lemma SmallsNext(m: Mem, s: Mem, r: Mem, g: Segment, lo: nat, mid: nat, hi: nat)
    requires SmallsDone(m, s, g, lo, mid) && SmallsDone(s, r, g, mid, hi) && lo <= mid <= hi
    ensures SmallsDone(m, r, g, lo, hi)
  {
    NewIn(s, r, mid, hi, false, false);
    hide Fine, Grown, NewPages, AllRights, Bounded, Supply;
    GrownTrans(m, s, r);
    NewTrans(m, s, r, lo, mid, hi, false, false);
    Settled(s, r, g, lo, mid, hi);
    BoundedTrans(m, s, r, g, lo, mid, mid, hi, lo, hi);
    SupplyTrans(m, s, r);
    SupplyNone(m, s);
  }

  lemma NewIn(m: Mem, r: Mem, lo: nat, hi: nat, huge: bool, executable: bool)
    requires NewPages(m, r, lo, hi, huge, executable)
    ensures Covers(m, r, lo, hi)
  {
  }

  lemma SupplyNone(m: Mem, s: Mem)
    requires Supply(m, s)
    ensures m.frames == [] ==> s.frames == []
  {
  }

  lemma BigsNone(m: Mem, g: Segment, lo: nat)
    requires Fine(m)
    ensures BigsDone(m, m, g, lo, lo)
  {
  }

  lemma BigsNext(m: Mem, s: Mem, r: Mem, g: Segment, lo: nat, mid: nat, hi: nat)
    requires BigsDone(m, s, g, lo, mid) && BigsDone(s, r, g, mid, hi) && lo <= mid <= hi
    ensures BigsDone(m, r, g, lo, hi)
  {
    NewIn(s, r, mid, hi, true, g.executable);
    hide Fine, Grown, NewPages, AllRights, Bounded, Supply;
    GrownTrans(m, s, r);
    NewTrans(m, s, r, lo, mid, hi, true, g.executable);
    Settled(s, r, g, lo, mid, hi);
    BoundedTrans(m, s, r, g, lo, mid, mid, hi, lo, hi);
    SupplyTrans(m, s, r);
  }

  lemma StillNoHuge(m: Mem, r: Mem, g: Segment, lo: nat, hi: nat, from: nat, to: nat)
    requires SmallsDone(m, r, g, lo, hi) && NoHuge(m, from, to)
    ensures NoHuge(r, from, to)
  {
    hide Fine;
  }

  lemma StillUnmapped(m: Mem, r: Mem, g: Segment, lo: nat, hi: nat, from: nat, to: nat)
    requires BigsDone(m, r, g, lo, hi) && hi <= from && Unmapped(m, from, to)
    ensures Unmapped(r, from, to)
  {
    hide Fine;
  }
}
