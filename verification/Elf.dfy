/** The ELF loader's loops over page tables and physical memory. */
module Elf {
  import opened PageTable
  import opened PageSpace
  import opened PageSight
  import opened Paging
  import opened ElfImage
  import opened ElfProof
  import opened ElfProgram
  import opened ElfPaging

  /** The parts of the file header the loader looks at. */
  datatype Header = Header(magic: seq<int>, class64: bool, littleEndian: bool, machine: nat, kind: nat,
                           phoff: nat, phentsize: nat, entry: nat)

  const EM_X86_64: nat := 62
  const ET_EXEC: nat := 2
  const ET_DYN: nat := 3

  /** elf64_parse's checks before it touches anything. */
  predicate Acceptable(h: Header, count: nat, size: nat) {
    && h.magic == [0x7F, 0x45, 0x4C, 0x46] && h.class64 && h.littleEndian && h.machine == EM_X86_64
    && h.phoff + count * h.phentsize <= size
    && (h.kind == ET_EXEC || h.kind == ET_DYN)
  }

  /** What elf64_parse ends with; a write to an address that is not canonical is
      a fault. */
  datatype Result = Rejected | Faulted | Ready(entry: nat, top: nat)

  /** How a loop ends. */
  datatype Exit = Done | Missing | Fault

  // ----- pointers

  const TOP64: nat := 0x1_0000_0000_0000_0000

  /** Half of the addresses that tables with this root level translate. */
  function Half(top: nat): nat
    requires top <= 4
  {
    Size(top + 1) / 2
  }

  predicate Canonical(pointer: nat, top: nat)
    requires top <= 4
  {
    pointer < Half(top) || pointer >= TOP64 - Half(top)
  }

  function Pointer(hhdm: nat, phys: nat): nat {
    (phys + hhdm) % TOP64
  }

  /** The direct map lies in the upper half, with room for the frames it reaches. */
  predicate DirectMap(hhdm: nat, top: nat, reach: nat)
    requires top <= 4
  {
    TOP64 - Half(top) <= hhdm && hhdm + reach * PAGE <= TOP64
  }

  /** Through the direct map a physical address is reachable exactly if bit 63 is
      clear. */
  lemma CanonicalIff(hhdm: nat, top: nat, reach: nat, at: nat)
    requires 3 <= top <= 4 && DirectMap(hhdm, top, reach) && at < reach * PAGE
    ensures Canonical(Pointer(hhdm, at), top) && Pointer(hhdm, at) - hhdm == at
    ensures !Canonical(Pointer(hhdm, at + BIT63), top)
  {
  }

  // ----- how much memory a program needs

  function Over(a: nat, b: nat): nat {
    if a > b then a - b else 0
  }

  function SmallSteps(g: Segment): nat {
    Over(Min(HugeFirst(g), Last(g)), First(g)) + Over(Last(g), HugeLast(g))
  }

  function BigSteps(g: Segment): nat {
    Over(HugeLast(g), HugeFirst(g)) / CHUNK
  }

  /** Pages that loading a program may take: one and four tables for a small
      page, three tables for a chunk. */
  function PagesFor(gs: seq<Segment>): nat {
    if gs == [] then 0
    else (if gs[0].load then 5 * SmallSteps(gs[0]) + 3 * BigSteps(gs[0]) else 0) + PagesFor(gs[1..])
  }

  function BlocksFor(gs: seq<Segment>): nat {
    if gs == [] then 0 else (if gs[0].load then BigSteps(gs[0]) else 0) + BlocksFor(gs[1..])
  }

  /** One call of elf64_parse: the target space, whom the program is for, the
      base of the direct map, memory, and the 2 MB blocks the allocator will
      hand out. */
  class Loader {
    const space: AddressSpace
    const user: bool
    const hhdm: nat
    ghost const reach: nat
    var ram: Ram
    var blocks: seq<nat>

    ghost function State(): Machine
      reads this, space
    {
      Machine(space.View(), space.pool, ram, blocks, user, reach)
    }

    ghost predicate Valid()
      reads this, space
    {
      space.Valid() && DirectMap(hhdm, space.top, reach) && 0 !in blocks
    }

    ghost function View(): Mem
      reads this, space
      requires Valid()
    {
      ViewOf(State())
    }

    constructor (target: AddressSpace, forUser: bool, base: nat, memory: Ram, free: seq<nat>, ghost frames: nat)
      requires target.Valid() && DirectMap(base, target.top, frames) && 0 !in free
      ensures Valid() && space == target && user == forUser && hhdm == base && reach == frames && ram == memory
      ensures blocks == free
    {
      space, user, hhdm, reach := target, forUser, base, frames;
      ram, blocks := memory, free;
    }

    /** pma_alloc_pages_2mb(1): 0 when there is no block left. */
    method AllocBlock() returns (at: nat)
      requires Valid()
      modifies this`blocks
      ensures Valid() && (at == 0 <==> old(blocks) == [])
      ensures if old(blocks) == [] then at == 0 && blocks == [] else at == old(blocks)[0] && blocks == old(blocks)[1..]
    {
      if blocks == [] {
        return 0;
      }
      at := blocks[0];
      blocks := blocks[1..];
    }

    /** The address bits the page tables look at. */
    function Wrap(va: nat): nat
      reads this
      requires space.top <= 4
    {
      va % Size(space.top + 1)
    }

    /** The flags of the entry that maps a page, as the loader keeps them. */
    method ExistingFlags(va: nat, flags: Flags) returns (have: Flags)
      requires Valid() && InSpace(space.View(), va)
      modifies space
      ensures Valid() && State() == old(State())
      ensures var found := SightOf(space.View(), va).found;
              found.Some? ==> have == if found.value.level == 0 then Kept(found.value.entry.flags) else flags
    {
      var pte := space.GetPte(va);
      have := if pte.Some? then Kept(pte.value.flags) else flags;
    }

    /** The next page of the pool, mapped if page tables suffice. */
    method MapNext(va: nat, flags: Flags) returns (phys: nat, mapped: bool)
      requires Valid() && InSpace(space.View(), va)
      modifies space
      ensures Valid() && (phys == 0 <==> old(space.pool) == [])
      ensures phys == 0 ==> space.View() == old(space.View()) && space.pool == []
      ensures phys != 0 ==>
                && phys == old(space.pool)[0]
                && Taken(old(space.own), old(space.pool)[1..], space.own, space.pool, space.top)
                && Mapped4K(old(space.View()), space.View(), space.pool, va, phys, flags, mapped)
    {
      hide SpaceOk, MapsSight, MapsPage, SameSight, SameTrans, Taken, PathPresent, AllOrNone, Smooth, See, Walk,
        InSpace, PoolOk, DirectMap, PageEntry;
      phys := space.AllocPage();
      if phys == 0 {
        return 0, false;
      }
      mapped := space.Map(0, va, phys, flags);
    }

    /** A page that is not mapped gets a new zeroed frame. */
    method AddPage(g: Segment, p: nat) returns (ok: bool)
      requires Valid()
      modifies this`ram, space
      ensures Valid() && blocks == old(blocks) && |old(space.pool)| <= |space.pool| + 5
      ensures !ok ==> space.pool == []
      ensures ok && old(Sound(State())) && p < LowEnd(space.top) && p !in old(View()).pages ==>
                && Sound(State()) && SmallsDone(old(View()), View(), g, p, p + 1)
                && (p in View().pages || Starved(space.View(), space.pool, p))
    {
      hide Neat, Fine, SmallsDone, PagesOf, LowEnd, Taken, SpaceOk, Smooth, StockOk, Starved, See, Walk, Sound, PoolOk,
        FlagsFor, Mapped4K;
      ghost var x := State();
      WrapIn(space.top, p);
      var phys, mapped := MapNext(Wrap(p * PAGE), FlagsFor(g, user));
      if phys == 0 {
        return false;
      }
      TakenCount(x.space.own, x.pool[1..], space.own, space.pool, space.top);
      ram := Zero(ram, phys, PAGE);
      if Sound(x) && p < LowEnd(space.top) && p !in PagesOf(x.space) {
        WrapLow(space.top, p);
        NewStep(x, State(), g, p, mapped);
      }
      ok := true;
    }

    /** Map an address that is mapped already with the flags it has and those
        wanted combined. */
    method Rejoin(level: nat, va: nat, phys: nat, flags: Flags) returns (mapped: bool)
      requires Valid() && InSpace(space.View(), va) && level <= 1
      modifies space
      ensures Valid() && Taken(old(space.own), old(space.pool), space.own, space.pool, space.top - level)
      ensures var found := SightOf(old(space.View()), va).found;
              found.Some? ==>
                && Remapped(old(space.View()), space.View(), level, va, phys, Combined(found.value, flags))
                && (mapped && Smooth(old(space.View()), va, level) ==>
                      var combined := Combined(found.value, flags);
                      MapsSight(old(space.View()), space.View(), level, va,
                                PageEntry(level, phys % BIT63, MapFlags(phys, combined))))
      ensures PathPresent(old(space.mem), space.top, space.root, va, level) ==>
                mapped && space.own == old(space.own) && space.pool == old(space.pool)
    {
      hide SpaceOk, MapsSight, MapsPage, SameSight, SameTrans, Taken, PathPresent, AllOrNone, Smooth, See, Walk,
        InSpace, PoolOk, DirectMap, PageEntry;
      var have := ExistingFlags(va, flags);
      var combined := have.(writable := have.writable || flags.writable);
      if !flags.nx {
        combined := combined.(nx := false);
      }
      mapped := space.Map(level, va, phys, combined);
    }

    /** A mapped page gets the rights of both. */
    method JoinPage(g: Segment, p: nat, existing: nat)
      requires Valid()
      modifies space
      ensures Valid() && |old(space.pool)| <= |space.pool| + 5
      ensures var found := SightOf(old(space.View()), Wrap(p * PAGE)).found;
              found.Some? ==>
                Remapped(old(space.View()), space.View(), 0, Wrap(p * PAGE), existing,
                         Combined(found.value, FlagsFor(g, user)))
      ensures old(Sound(State())) && p < LowEnd(space.top) && p in old(View()).pages && !old(View()).pages[p].huge
              && existing == old(View()).pages[p].frame * PAGE ==>
                Sound(State()) && SmallsDone(old(View()), View(), g, p, p + 1) && p in View().pages
    {
      hide Neat, Fine, SmallsDone, PagesOf, LowEnd, MapsSight, MapsPage, SameSight, SameTrans, Taken, PathPresent,
        AllOrNone, SpaceOk, Smooth, StockOk, See, Walk, Sound, PoolOk, Remapped, Combined, PageEntry;
      ghost var x := State();
      WrapIn(space.top, p);
      var mapped := Rejoin(0, Wrap(p * PAGE), existing, FlagsFor(g, user));
      TakenCount(x.space.own, x.pool, space.own, space.pool, space.top);
      if Sound(x) && p < LowEnd(space.top) && p in PagesOf(x.space) && !PagesOf(x.space)[p].huge
         && existing == PagesOf(x.space)[p].frame * PAGE {
        WrapLow(space.top, p);
        PhysOfPage(x, p);
        SmallThere(x, p, 0);
        OldStep(x, State(), g, p, existing);
      }
    }

    /** One turn of the head or tail loop. */
    method MapSmall(g: Segment, p: nat) returns (ok: bool)
      requires Valid()
      modifies this`ram, space
      ensures Valid() && blocks == old(blocks) && |old(space.pool)| <= |space.pool| + 5
      ensures !ok ==> space.pool == []
      ensures var found := SightOf(old(space.View()), Wrap(p * PAGE)).found;
              found.Some? && found.value.level <= 4 && RawPhys(found.value, Wrap(p * PAGE)) != 0 ==>
                && ram == old(ram)
                && Remapped(old(space.View()), space.View(), 0, Wrap(p * PAGE), RawPhys(found.value, Wrap(p * PAGE)),
                            Combined(found.value, FlagsFor(g, user)))
      ensures ok && old(Sound(State())) && p < LowEnd(space.top) && NoHuge(old(View()), p, p + 1) ==>
                && Sound(State()) && SmallsDone(old(View()), View(), g, p, p + 1)
                && (p in View().pages || Starved(space.View(), space.pool, p))
    {
      hide Neat, Fine, SmallsDone, PagesOf, LowEnd, SpaceOk, StockOk, Starved, See, Walk, Sound, Remapped, Combined,
        RawPhys;
      ghost var x := State();
      WrapIn(space.top, p);
      var existing := space.GetPhys(Wrap(p * PAGE));
      if Sound(x) && p < LowEnd(space.top) {
        WrapLow(space.top, p);
        PhysOfPage(x, p);
      }
      if existing == 0 {
        ok := AddPage(g, p);
      } else {
        JoinPage(g, p, existing);
        ok := true;
      }
    }

    /** The head and tail loops. */
    method MapSmalls(g: Segment, from: nat, end: nat) returns (ok: bool)
      requires Valid()
      modifies this`ram, space
      ensures Valid() && blocks == old(blocks) && |old(space.pool)| <= |space.pool| + 5 * Over(end, from)
      ensures !ok ==> space.pool == []
      ensures ok && old(Sound(State())) && SmallRange(old(State()), from, end) ==>
                Sound(State()) && SmallsDone(old(View()), View(), g, from, end) && CoveredOrLast(View(), from, end)
    {
      hide Sound, SmallRange, SmallsSoFar, SmallsDone, NoHuge, CoveredOrLast, Starved, PagesOf, LowEnd;
      hide Remapped, Combined, RawPhys;
      ghost var x := State();
      ghost var good := Sound(x) && SmallRange(x, from, end);
      if good {
        SmallsFirst(x, g, from);
      }
      var p := from;
      while p < end
        invariant Valid() && blocks == old(blocks) && from <= p && (p <= end || p == from)
        invariant |old(space.pool)| <= |space.pool| + 5 * (p - from)
        invariant good ==> Sound(State()) && SmallsSoFar(x, State(), g, from, p)
      {
        ghost var y := State();
        if good {
          SmallsReady(x, y, g, from, end, p);
        }
        ok := MapSmall(g, p);
        if !ok {
          return;
        }
        if good {
          SmallsStep(x, y, State(), g, from, end, p);
        }
        p := p + 1;
      }
      if good {
        RangeOrder(x, from, end);
        SmallsLast(x, State(), g, from, end);
      }
      ok := true;
    }

    /** A 2 MB chunk that is not mapped gets a new zeroed block. */
    method AddChunk(g: Segment, c: nat) returns (ok: bool)
      requires Valid()
      modifies this`ram, this`blocks, space
      ensures Valid() && |old(space.pool)| <= |space.pool| + 3 && |old(blocks)| <= |blocks| + 1
      ensures !ok ==> blocks == []
      ensures ok && old(Sound(State())) && BigRange(old(State()), c, c + CHUNK) ==>
                && Sound(State()) && BigsDone(old(View()), View(), g, c, c + CHUNK)
                && (space.pool == [] || Covered(View(), c, c + CHUNK))
    {
      hide Neat, Fine, BigsDone, PagesOf, LowEnd, MapsSight, MapsPage, SameSight, SameTrans, Taken, PathPresent,
        AllOrNone,
        SpaceOk, Smooth, StockOk, See, Walk, Covered, BigRange, Sound, PoolOk;
      ghost var x := State();
      WrapIn(space.top, c);
      var va := Wrap(c * PAGE);
      var phys := AllocBlock();
      if phys == 0 {
        return false;
      }
      var mapped := space.Map(1, va, phys, FlagsFor(g, user));
      TakenCount(x.space.own, x.pool, space.own, space.pool, space.top - 1);
      ram := Zero(ram, phys, 0x20_0000);
      if Sound(x) && BigRange(x, c, c + CHUNK) {
        BigRangeParts(x, c);
        WrapLow(space.top, c);
        SmallThere(x, c, 1);
        ChunkStep(x, State(), g, c, mapped);
      }
      ok := true;
    }

    /** A mapped 2 MB chunk gets the rights of both. */
    method JoinChunk(g: Segment, c: nat, existing: nat)
      requires Valid()
      modifies space
      ensures Valid() && |old(space.pool)| <= |space.pool| + 3
      ensures var found := SightOf(old(space.View()), Wrap(c * PAGE)).found;
              found.Some? ==>
                Remapped(old(space.View()), space.View(), 1, Wrap(c * PAGE), AlignDown(existing, 1),
                         Combined(found.value, FlagsFor(g, user)))
    {
      hide SpaceOk, MapsSight, SameSight, Taken, PathPresent, Smooth, See, Walk, Remapped, Combined, PageEntry, PoolOk;
      WrapIn(space.top, c);
      ghost var own, pool := space.own, space.pool;
      var mapped := Rejoin(1, Wrap(c * PAGE), AlignDown(existing, 1), FlagsFor(g, user));
      TakenCount(own, pool, space.own, space.pool, space.top - 1);
    }

    /** One turn of the middle loop. */
    method MapBig(g: Segment, c: nat) returns (ok: bool)
      requires Valid()
      modifies this`ram, this`blocks, space
      ensures Valid() && |old(space.pool)| <= |space.pool| + 3 && |old(blocks)| <= |blocks| + 1
      ensures !ok ==> blocks == []
      ensures var found := SightOf(old(space.View()), Wrap(c * PAGE)).found;
              found.Some? && found.value.level <= 4 && RawPhys(found.value, Wrap(c * PAGE)) != 0 ==>
                && ram == old(ram) && blocks == old(blocks)
                && Remapped(old(space.View()), space.View(), 1, Wrap(c * PAGE),
                            AlignDown(RawPhys(found.value, Wrap(c * PAGE)), 1),
                            Combined(found.value, FlagsFor(g, user)))
      ensures ok && old(Sound(State())) && BigRange(old(State()), c, c + CHUNK) ==>
                && Sound(State()) && BigsDone(old(View()), View(), g, c, c + CHUNK)
                && (space.pool == [] || Covered(View(), c, c + CHUNK))
    {
      hide Sound, BigsDone, PagesOf, LowEnd, SpaceOk, See, Walk, Covered, BigRange, Remapped, Combined, RawPhys;
      WrapIn(space.top, c);
      if Sound(State()) && BigRange(State(), c, c + CHUNK) {
        NothingThere(State(), c);
      }
      var existing := space.GetPhys(Wrap(c * PAGE));
      if existing == 0 {
        ok := AddChunk(g, c);
      } else {
        JoinChunk(g, c, existing);
        ok := true;
      }
    }

    /** The middle loop. */
    method MapBigs(g: Segment, from: nat, end: nat) returns (ok: bool)
      requires Valid() && from % CHUNK == 0 && end % CHUNK == 0
      modifies this`ram, this`blocks, space
      ensures Valid() && |old(space.pool)| <= |space.pool| + 3 * (Over(end, from) / CHUNK)
      ensures |old(blocks)| <= |blocks| + Over(end, from) / CHUNK
      ensures !ok ==> blocks == []
      ensures ok && old(Sound(State())) && BigRange(old(State()), from, end) ==>
                && Sound(State()) && BigsDone(old(View()), View(), g, from, end)
                && (space.pool == [] || Covered(View(), from, end))
    {
      hide Sound, BigRange, BigsSoFar, BigsDone, Unmapped, Covered, PagesOf, LowEnd, Remapped, Combined, RawPhys;
      ghost var x := State();
      ghost var good := Sound(x) && BigRange(x, from, end);
      ghost var n: nat := 0;
      if good {
        BigsFirst(x, g, from);
      }
      var c := from;
      while c < end
        invariant Valid() && c == from + n * CHUNK && (c <= end || c == from)
        invariant |old(space.pool)| <= |space.pool| + 3 * n && |old(blocks)| <= |blocks| + n
        invariant good ==> Sound(State()) && BigsSoFar(x, State(), g, from, c)
      {
        ghost var y := State();
        NextChunk(from, n, end);
        if good {
          BigsReady(x, y, g, from, end, c);
        }
        ok := MapBig(g, c);
        if !ok {
          ChunkCount(from, n + 1, end);
          return;
        }
        if good {
          BigsStep(x, y, State(), g, from, end, c);
        }
        c := c + CHUNK;
        n := n + 1;
      }
      ChunkCount(from, n, end);
      if good {
        BigsLast(x, State(), g, from, end, c);
      }
      ok := true;
    }

    /** The mapping loops of a segment: head, middle, tail. */
    method MapSegment(g: Segment) returns (ok: bool)
      requires Valid()
      modifies this`ram, this`blocks, space
      ensures Valid() && |old(space.pool)| <= |space.pool| + 5 * SmallSteps(g) + 3 * BigSteps(g)
      ensures |old(blocks)| <= |blocks| + BigSteps(g)
      ensures !ok ==> space.pool == [] || blocks == []
      ensures ok && old(Sound(State())) && Fits(old(State()), g) ==>
                Sound(State()) && MappedFor(old(View()), View(), g) && MappedAll(View(), g)
    {
      hide Sound, Fits, SmallRange, BigRange, SmallsDone, BigsDone, MappedFor, MappedAll, CoveredOrLast, Covered,
        PagesOf, LowEnd;
      hide First, Last, HugeFirst, HugeLast, Over;
      ghost var x := State();
      ghost var good := Sound(x) && Fits(x, g);
      Multiples(g);
      if good {
        HeadReady(x, g);
      }
      ok := MapSmalls(g, First(g), Min(HugeFirst(g), Last(g)));
      if !ok {
        return;
      }
      ghost var a := State();
      if good {
        MiddleReady(x, a, g);
      }
      ok := MapBigs(g, HugeFirst(g), HugeLast(g));
      if !ok {
        return;
      }
      ghost var b := State();
      if good {
        MiddleOver(x, a, b, g);
      }
      ok := MapSmalls(g, HugeLast(g), Last(g));
      if ok && good {
        SegmentMapped(x, a, b, State(), g);
      }
    }

    /** Where the copy loops write for an address: its page's physical address
        as paging_get_phys gives it, if the pointer made of it can be used. */
    method Locate(at: nat) returns (e: Exit, phys: nat)
      requires Valid()
      ensures Sound(State()) && at / PAGE < LowEnd(space.top) ==>
                var p, pages := at / PAGE, View().pages;
                match e
                case Done => p in pages && Direct(pages[p]) && phys == pages[p].frame * PAGE + at % PAGE
                case Missing => p !in pages
                case Fault => p in pages && !Direct(pages[p])
    {
      hide Sound, LowEnd, Direct, See, Walk, SpaceOk, Canonical, Pointer, DirectMap, RawPhys, PagesOf;
      var page, off := at / PAGE, at % PAGE;
      WrapIn(space.top, page);
      if Sound(State()) && page < LowEnd(space.top) {
        WrapLow(space.top, page);
        PointerOf(State(), page, off, hhdm);
      }
      phys := space.GetPhys(Wrap(page * PAGE));
      if phys == 0 {
        return Missing, 0;
      }
      if !Canonical(Pointer(hhdm, phys + off), space.top) {
        return Fault, 0;
      }
      return Done, phys + off;
    }

    /** The copy loop, and with zeros the bss loop: page by page. */
    method FillBytes(start: nat, src: seq<int>) returns (e: Exit)
      requires Valid()
      modifies this`ram
      ensures Valid()
      ensures old(Sound(State())) && start + |src| <= LowEnd(space.top) * PAGE ==>
                match e
                case Done =>
                  && Sound(State()) && Filled(old(View()), View(), start, src)
                  && AllDirect(old(View()), start, start + |src|)
                case Missing => MissingIn(old(View()), start, start + |src|)
                case Fault => AstrayIn(old(View()), start, start + |src|)
    {
      hide Sound, LowEnd, Copied, FillSoFar, Filled, AllDirect, MissingIn, AstrayIn, Direct, SpaceOk, PagesOf, PoolOk;
      ghost var x := State();
      ghost var good := Sound(x) && start + |src| <= LowEnd(space.top) * PAGE;
      if good {
        FillFirst(x, start, src);
      }
      var at: nat, size: nat, from: nat := start, |src|, 0;
      while size > 0
        invariant Valid() && at == start + from && from + size == |src|
        invariant good ==> FillSoFar(x, State(), start, src, from)
      {
        var chunk := Min(PAGE - at % PAGE, size);
        if good {
          FillReady(x, State(), start, src, from);
        }
        var phys;
        e, phys := Locate(at);
        if !e.Done? {
          return;
        }
        if good {
          FillTurn(x, State(), start, src, from, chunk, phys);
        }
        ram := Copied(ram, phys, src[from..from + chunk]);
        at := at + chunk;
        size := size - chunk;
        from := from + chunk;
      }
      if good {
        FillLast(x, State(), start, src);
      }
      e := Done;
    }

    /** One program header. */
    method Load(g: Segment, file: seq<int>, ghost gs: seq<Segment>) returns (e: Exit)
      requires Valid()
      modifies this`ram, this`blocks, space
      ensures Valid() && |old(space.pool)| <= |space.pool| + PagesFor([g]) && |old(blocks)| <= |blocks| + BlocksFor([g])
      ensures !g.load ==> e == Done && State() == old(State())
      ensures g.load && old(Sound(State())) && Joins(old(State()), gs, g, file) ==>
                match e
                case Done => Sound(State()) && LoadInv(View(), gs + [g], file)
                case Missing => !InFile(g, file) || space.pool == [] || blocks == []
                case Fault => Astray(g)
    {
      hide Sound, Joins, Fits, MappedFor, MappedAll, Filled, AllDirect, MissingIn, AstrayIn, LoadInv, Astray, PagesOf,
        LowEnd;
      hide SpaceOk, PoolOk, SmallSteps, BigSteps, Stored;
      if !g.load {
        return Done;
      }
      if g.offset + g.filesz > |file| {
        return Missing;
      }
      ghost var x := State();
      ghost var good := Sound(x) && Joins(x, gs, g, file);
      if good {
        JoinFits(x, gs, g, file);
      }
      var ok := MapSegment(g);
      if !ok {
        return Missing;
      }
      ghost var r := State();
      e := FillBytes(g.vaddr, file[g.offset..g.offset + g.filesz]);
      if e != Done {
        if good {
          LoadStopped(x, r, r, gs, g, file, g.vaddr, g.vaddr + g.filesz);
        }
        return;
      }
      ghost var a := State();
      if g.memsz > g.filesz {
        e := FillBytes(g.vaddr + g.filesz, Zeros(g.memsz - g.filesz));
        if e != Done {
          if good {
            FilledPages(ViewOf(r), ViewOf(a), g.vaddr, file[g.offset..g.offset + g.filesz]);
            LoadStopped(x, r, a, gs, g, file, g.vaddr + g.filesz, g.vaddr + g.memsz);
          }
          return;
        }
      }
      if good {
        LoadOver(x, r, a, State(), gs, g, file);
      }
    }

    /** elf64_parse. Into a space with an empty lower half, page-disjoint segments
        load exactly if none of them has a whole 2 MB chunk without being
        executable, as long as memory lasts; then every address reads and may be
        used as asked. */
    method Parse(h: Header, gs: seq<Segment>, file: seq<int>) returns (r: Result)
      requires Valid()
      modifies this`ram, this`blocks, space
      ensures Valid()
      ensures h.magic != [0x7F, 0x45, 0x4C, 0x46] || !h.class64 || !h.littleEndian || h.machine != 62
              || h.phoff + |gs| * h.phentsize > |file| || (h.kind != 2 && h.kind != 3) ==>
                r == Rejected && State() == old(State())
      ensures r.Ready? ==> Acceptable(h, |gs|, |file|) && r.entry == h.entry && IsTop(gs, r.top)
      ensures old(Fresh(State())) && Separate(gs, LowEnd(space.top)) ==>
                match r
                case Ready(_, _) => NoneAstray(gs) && AllInFile(gs, file) && InPlace(space.View(), ram, Loads(gs), file)
                case Faulted => !NoneAstray(gs)
                case Rejected =>
                  || !Acceptable(h, |gs|, |file|) || !AllInFile(gs, file)
                  || |old(space.pool)| <= PagesFor(gs) || |old(blocks)| <= BlocksFor(gs)
    {
      hide Sound, Fresh, Separate, LoadInv, Joins, Astray, Last, LowEnd, SpaceOk, PoolOk, PagesOf, InPlace, PagesFor,
        BlocksFor, Loads,
        IsTop;
      ghost var x := State();
      ghost var good := Fresh(x) && Separate(gs, LowEnd(space.top));
      if !Acceptable(h, |gs|, |file|) {
        return Rejected;
      }
      if good {
        FreshSound(x, file);
      }
      var top: nat := 0;
      NoTop();
      assert gs[..0] == [] && gs[0..] == gs && Loads([]) == [] by {
        NoLoads();
      }
      for i := 0 to |gs|
        invariant Valid() && IsTop(gs[..i], top)
        invariant |old(space.pool)| + PagesFor(gs[i..]) <= |space.pool| + PagesFor(gs)
        invariant |old(blocks)| + BlocksFor(gs[i..]) <= |blocks| + BlocksFor(gs)
        invariant good ==> Sound(State()) && LoadInv(View(), Loads(gs[..i]), file)
      {
        assert gs[i..][0] == gs[i] && gs[i..][1..] == gs[i + 1..];
        assert gs[..i + 1] == gs[..i] + [gs[i]];
        LoadsNext(gs[..i], gs[i]);
        NeedNext(gs[i..]);
        if good && gs[i].load {
          JoinsNext(State(), gs, i, file);
        }
        var e := Load(gs[i], file, Loads(gs[..i]));
        if e == Fault {
          return Faulted;
        }
        if e == Missing {
          return Rejected;
        }
        TopStep(gs[..i], gs[i], top);
        if gs[i].load && Last(gs[i]) * PAGE > top {
          top := Last(gs[i]) * PAGE;
        }
      }
      assert gs[..|gs|] == gs && gs[|gs|..] == [];
      if good {
        ParseOver(State(), gs, file);
      }
      return Ready(h.entry, top);
    }
  }

  /** A 4 KB map that splits nothing: the page sees the new entry, or memory has
      run out and everything is as it was. */
  ghost predicate Mapped4K(s: Space, s': Space, pool: seq<nat>, va: nat, phys: nat, flags: Flags, mapped: bool)
    requires s.top <= 4 && s'.top <= 4
  {
    Smooth(s, va, 0) ==>
      if mapped then MapsSight(s, s', 0, va, PageEntry(0, phys % BIT63, MapFlags(phys, flags)))
      else SameSight(s, s') && pool == [] && AllOrNone(s', va, 0)
  }

  /** Nothing translates differently, or exactly one page is mapped anew. */
  ghost predicate Remapped(s: Space, s': Space, level: nat, va: nat, phys: nat, flags: Flags)
    requires s.top <= 4 && s'.top <= 4 && level <= 2 && level <= s.top
  {
    SameTrans(s, s') || MapsPage(s, s', level, va, phys % BIT63, MapFlags(phys, flags))
  }

  /** The flags for a page that is mapped already: those it has, if a last-level
      entry maps it, with write and execute rights added. */
  function Combined(h: Hit, flags: Flags): Flags {
    var have := if h.level == 0 then Kept(h.entry.flags) else flags;
    have.(writable := have.writable || flags.writable, nx := have.nx && flags.nx)
  }

  function Kept(f: Flags): Flags {
    Flags(f.present, f.writable, f.user, false, false, f.nx, 0)
  }

  lemma WrapIn(top: nat, p: nat)
    requires top <= 4
    ensures p * PAGE % Size(top + 1) < Size(top + 1)
  {
  }

  lemma WrapLow(top: nat, p: nat)
    requires 3 <= top <= 4 && p < LowEnd(top)
    ensures p * PAGE % Size(top + 1) == p * PAGE
  {
  }

  /** No memory is left, and the page's whole chunk is unmapped. */
  ghost predicate Starved(s: Space, pool: seq<nat>, p: nat)
    requires s.top <= 4
  {
    pool == [] && forall q :: q < LowEnd(s.top) && q / CHUNK == p / CHUNK ==> q !in PagesOf(s)
  }

  lemma NewStep(x: Machine, y: Machine, g: Segment, p: nat, mapped: bool)
    requires Sound(x) && p < LowEnd(x.space.top) && p !in PagesOf(x.space) && x.pool != []
    requires y.space.top == x.space.top && y.user == x.user && y.reach == x.reach && y.blocks == x.blocks
    requires Taken(x.space.own, x.pool[1..], y.space.own, y.pool, y.space.top) && PoolOk(y.pool, y.space.own)
    requires y.ram == Zero(x.ram, x.pool[0], PAGE)
    requires Mapped4K(x.space, y.space, y.pool, p * PAGE, x.pool[0], FlagsFor(g, x.user), mapped)
    ensures Sound(y) && SmallsDone(ViewOf(x), ViewOf(y), g, p, p + 1)
    ensures p in PagesOf(y.space) || Starved(y.space, y.pool, p)
  {
    hide Neat, Fine, SmallsDone, PagesOf, LowEnd, MapsSight, SameSight, AllOrNone;
    TakenMore(x.space.own, x.pool[1..], y.space.own, y.pool, y.space.top, 4);
    SmallThere(x, p, 0);
    PoolLow(x);
    NoBit(x.pool[0]);
    SmallNew(x, y, g, p, mapped);
    if !mapped {
      forall q | q < LowEnd(y.space.top) && q / CHUNK == p / CHUNK
        ensures q !in PagesOf(y.space)
      {
        StarvedChunk(y.space, p, q);
      }
    }
  }

  lemma PoolLow(x: Machine)
    requires Sound(x) && x.pool != []
    ensures x.pool[0] < BIT63
  {
    FirstBelow(ViewOf(x));
    assert Numbers(x.pool)[0] == x.pool[0] / PAGE;
  }

  lemma FirstBelow(m: Mem)
    requires Fine(m) && m.frames != []
    ensures m.frames[0] < m.reach
  {
  }

  lemma OldStep(x: Machine, y: Machine, g: Segment, p: nat, existing: nat)
    requires Sound(x) && p < LowEnd(x.space.top) && p in PagesOf(x.space) && !PagesOf(x.space)[p].huge
    requires y == x.(space := y.space) && y.space.top == x.space.top && y.space.own == x.space.own
    requires var found := SightOf(x.space, p * PAGE).found;
             && found.Some? && found.value.level <= 1 && found.value.entry.flags.present
             && PagesOf(x.space)[p] == PageAt(found.value, p)
             && var combined := Combined(found.value, FlagsFor(g, x.user));
                MapsSight(x.space, y.space, 0, p * PAGE, PageEntry(0, existing % BIT63, MapFlags(existing, combined)))
    requires existing == PagesOf(x.space)[p].frame * PAGE < BIT63
    ensures Sound(y) && SmallsDone(ViewOf(x), ViewOf(y), g, p, p + 1) && p in PagesOf(y.space)
  {
    hide Neat, Fine, SmallsDone, LowEnd, MapsSight, PagesOf;
    NoBit(existing);
    assert Combined(SightOf(x.space, p * PAGE).found.value, FlagsFor(g, x.user)) == JoinedFlags(PagesOf(x.space)[p], g);
    SmallOld(x, y, g, p);
  }

  // ----- the head and tail loops

  /** Pages of one chunk in the lower half, none of them huge. */
  ghost predicate SmallRange(x: Machine, from: nat, end: nat)
    requires x.space.top <= 4
  {
    && from <= end <= LowEnd(x.space.top) && NoHuge(ViewOf(x), from, end)
    && (from < end ==> from / CHUNK == (end - 1) / CHUNK)
  }

  ghost predicate SmallsSoFar(x: Machine, y: Machine, g: Segment, from: nat, p: nat)
    requires x.space.top <= 4 && y.space.top <= 4
  {
    && from <= p && SmallsDone(ViewOf(x), ViewOf(y), g, from, p)
    && (Covered(ViewOf(y), from, p) || (from < p && Starved(y.space, y.pool, p - 1) && p - 1 < LowEnd(y.space.top)))
  }

  lemma RangeOrder(x: Machine, from: nat, end: nat)
    requires x.space.top <= 4 && SmallRange(x, from, end)
    ensures from <= end
  {
  }

  lemma SmallsFirst(x: Machine, g: Segment, from: nat)
    requires x.space.top <= 4 && Sound(x)
    ensures SmallsSoFar(x, x, g, from, from)
  {
    hide SmallsDone;
    SmallsNone(ViewOf(x), g, from);
  }

  lemma SmallsReady(x: Machine, y: Machine, g: Segment, from: nat, end: nat, p: nat)
    requires x.space.top == y.space.top <= 4 && SmallRange(x, from, end) && SmallsSoFar(x, y, g, from, p) && p < end
    ensures NoHuge(ViewOf(y), p, p + 1) && p < LowEnd(y.space.top)
  {
    hide SmallsDone, LowEnd, PagesOf;
    StillNoHuge(ViewOf(x), ViewOf(y), g, from, p, from, end);
  }

  lemma SmallsStep(x: Machine, y: Machine, z: Machine, g: Segment, from: nat, end: nat, p: nat)
    requires x.space.top == y.space.top == z.space.top <= 4 && SmallRange(x, from, end)
    requires SmallsSoFar(x, y, g, from, p) && p < end
    requires SmallsDone(ViewOf(y), ViewOf(z), g, p, p + 1)
    requires p in ViewOf(z).pages || Starved(z.space, z.pool, p)
    ensures SmallsSoFar(x, z, g, from, p + 1)
  {
    hide LowEnd, PagesOf, Fine, NewPages, AllRights, Bounded, SmallsDone;
    SmallsNext(ViewOf(x), ViewOf(y), ViewOf(z), g, from, p, p + 1);
    SmallsKeys(ViewOf(y), ViewOf(z), g, p, p + 1);
    if Covered(ViewOf(y), from, p) {
    } else {
      SameChunkAs(from, end, p);
      assert p !in ViewOf(y).pages;
      assert ViewOf(y).frames == [];
    }
  }

  lemma SameChunkAs(from: nat, end: nat, p: nat)
    requires from < p < end && from / CHUNK == (end - 1) / CHUNK
    ensures p / CHUNK == (p - 1) / CHUNK
  {
  }

  lemma SmallsKeys(m: Mem, r: Mem, g: Segment, lo: nat, hi: nat)
    requires SmallsDone(m, r, g, lo, hi)
    ensures forall p :: p in m.pages ==> p in r.pages
    ensures m.frames == [] ==> r.pages.Keys == m.pages.Keys
  {
  }

  lemma SmallsLast(x: Machine, y: Machine, g: Segment, from: nat, end: nat)
    requires x.space.top == y.space.top <= 4 && SmallsSoFar(x, y, g, from, end)
    ensures SmallsDone(ViewOf(x), ViewOf(y), g, from, end) && CoveredOrLast(ViewOf(y), from, end)
  {
    hide SmallsDone, PagesOf, LowEnd;
    if from < end && Starved(y.space, y.pool, end - 1) && end - 1 < LowEnd(y.space.top) {
      assert end - 1 !in ViewOf(y).pages;
      assert ViewOf(y).frames == [];
    }
  }

  // ----- the middle loop

  /** Whole unmapped chunks of the lower half. */
  ghost predicate BigRange(x: Machine, from: nat, end: nat)
    requires x.space.top <= 4
  {
    from < end ==>
      end <= LowEnd(x.space.top) && from % CHUNK == 0 && end % CHUNK == 0 && Unmapped(ViewOf(x), from, end)
  }

  lemma BigRangeParts(x: Machine, c: nat)
    requires x.space.top <= 4 && BigRange(x, c, c + CHUNK)
    ensures c < c + CHUNK <= LowEnd(x.space.top) && c % CHUNK == 0 && Unmapped(ViewOf(x), c, c + CHUNK)
    ensures c !in PagesOf(x.space)
  {
  }

  lemma BlockNonZero(x: Machine)
    requires x.space.top <= 4 && Sound(x)
    ensures x.blocks != [] ==> 0 < x.blocks[0] < BIT63
  {
    if x.blocks != [] {
      BlockBelow(ViewOf(x));
      assert Numbers(x.blocks)[0] == x.blocks[0] / PAGE;
    }
  }

  lemma BlockBelow(m: Mem)
    requires Fine(m) && m.blocks != []
    ensures 0 < m.blocks[0] < m.reach
  {
  }

  lemma ChunkStep(x: Machine, y: Machine, g: Segment, c: nat, mapped: bool)
    requires Sound(x) && c + CHUNK <= LowEnd(x.space.top) && c % CHUNK == 0 && Unmapped(ViewOf(x), c, c + CHUNK)
    requires x.blocks != []
    requires y.space.top == x.space.top && y.user == x.user && y.reach == x.reach && y.blocks == x.blocks[1..]
    requires Taken(x.space.own, x.pool, y.space.own, y.pool, y.space.top - 1) && PoolOk(y.pool, y.space.own)
    requires y.ram == Zero(x.ram, x.blocks[0], 0x20_0000)
    requires mapped ==> MapsSight(x.space, y.space, 1, c * PAGE,
                                  PageEntry(1, x.blocks[0] % BIT63, MapFlags(x.blocks[0], FlagsFor(g, x.user))))
    requires !mapped ==> SameSight(x.space, y.space) && y.pool == []
    ensures Sound(y) && BigsDone(ViewOf(x), ViewOf(y), g, c, c + CHUNK)
    ensures y.pool == [] || Covered(ViewOf(y), c, c + CHUNK)
  {
    hide Neat, Fine, BigsDone, PagesOf, LowEnd, MapsSight, SameSight, Covered;
    TakenMore(x.space.own, x.pool, y.space.own, y.pool, y.space.top - 1, 4);
    BlockNonZero(x);
    NoBit(x.blocks[0]);
    BigNew(x, y, g, c, mapped);
  }

  lemma NextChunk(from: nat, n: nat, end: nat)
    requires from % CHUNK == 0 && end % CHUNK == 0 && from + n * CHUNK < end
    ensures from + n * CHUNK + CHUNK <= end && (from + n * CHUNK) % CHUNK == 0
  {
  }

  lemma ChunkCount(from: nat, n: nat, end: nat)
    requires from + n * CHUNK <= end || n == 0
    ensures n <= Over(end, from) / CHUNK
  {
    if n > 0 {
      assert n * CHUNK <= Over(end, from);
    }
  }

  ghost predicate BigsSoFar(x: Machine, y: Machine, g: Segment, from: nat, c: nat)
    requires x.space.top <= 4 && y.space.top <= 4
  {
    from <= c && BigsDone(ViewOf(x), ViewOf(y), g, from, c) && (y.pool == [] || Covered(ViewOf(y), from, c))
  }

  lemma BigsFirst(x: Machine, g: Segment, from: nat)
    requires x.space.top <= 4 && Sound(x)
    ensures BigsSoFar(x, x, g, from, from)
  {
    hide BigsDone;
    BigsNone(ViewOf(x), g, from);
  }

  lemma BigsReady(x: Machine, y: Machine, g: Segment, from: nat, end: nat, c: nat)
    requires x.space.top == y.space.top <= 4 && BigRange(x, from, end) && BigsSoFar(x, y, g, from, c)
    requires c + CHUNK <= end && c % CHUNK == 0
    ensures BigRange(y, c, c + CHUNK)
  {
    hide BigsDone, LowEnd, PagesOf;
    StillUnmapped(ViewOf(x), ViewOf(y), g, from, c, c, end);
  }

  lemma NothingThere(x: Machine, c: nat)
    requires 3 <= x.space.top <= 4 && Sound(x) && BigRange(x, c, c + CHUNK)
    ensures c * PAGE % Size(x.space.top + 1) == c * PAGE && SightOf(x.space, c * PAGE).found.None?
  {
    hide LowEnd, PagesOf, See, Sound, Size;
    WrapLow(x.space.top, c);
    PhysOfPage(x, c);
  }

  lemma BigsStep(x: Machine, y: Machine, z: Machine, g: Segment, from: nat, end: nat, c: nat)
    requires x.space.top == y.space.top == z.space.top <= 4 && BigsSoFar(x, y, g, from, c)
    requires BigsDone(ViewOf(y), ViewOf(z), g, c, c + CHUNK) && (z.pool == [] || Covered(ViewOf(z), c, c + CHUNK))
    ensures BigsSoFar(x, z, g, from, c + CHUNK)
  {
    hide LowEnd, PagesOf, BigsDone;
    BigsNext(ViewOf(x), ViewOf(y), ViewOf(z), g, from, c, c + CHUNK);
    BigsKeys(ViewOf(y), ViewOf(z), g, c, c + CHUNK);
  }

  lemma BigsKeys(m: Mem, r: Mem, g: Segment, lo: nat, hi: nat)
    requires BigsDone(m, r, g, lo, hi)
    ensures forall p :: p in m.pages ==> p in r.pages
    ensures m.frames == [] ==> r.frames == []
  {
  }

  lemma BigsLast(x: Machine, y: Machine, g: Segment, from: nat, end: nat, c: nat)
    requires x.space.top == y.space.top <= 4 && BigRange(x, from, end) && BigsSoFar(x, y, g, from, c)
    requires c >= end && (c <= end || c == from)
    ensures BigsDone(ViewOf(x), ViewOf(y), g, from, end) && (y.pool == [] || Covered(ViewOf(y), from, end))
  {
    hide Fine, ZeroPage, PagesOf, LowEnd, Grown, Supply;
  }

  // ----- one segment

  /** The segment lies in the lower half and meets what the loops expect. */
  ghost predicate Fits(x: Machine, g: Segment)
    requires x.space.top <= 4
  {
    Proper(g) && Last(g) <= LowEnd(x.space.top) && Clear(ViewOf(x), g)
  }

  lemma Multiples(g: Segment)
    ensures HugeFirst(g) % CHUNK == 0 && HugeLast(g) % CHUNK == 0
  {
    Multiple((First(g) + CHUNK - 1) / CHUNK);
    Multiple(Last(g) / CHUNK);
  }

  lemma HeadReady(x: Machine, g: Segment)
    requires x.space.top <= 4 && Fits(x, g)
    ensures SmallRange(x, First(g), Min(HugeFirst(g), Last(g)))
  {
    Chunks(g);
    HeadFree(ViewOf(x), g);
    hide First, Last, HugeFirst, HugeLast, LowEnd, PagesOf;
    OneChunk(First(g), HugeFirst(g), Min(HugeFirst(g), Last(g)));
  }

  lemma OneChunk(from: nat, h: nat, end: nat)
    requires h % CHUNK == 0 && from <= h < from + CHUNK && end <= h
    ensures from < end ==> from / CHUNK == (end - 1) / CHUNK
  {
  }

  lemma MiddleReady(x: Machine, a: Machine, g: Segment)
    requires x.space.top == a.space.top <= 4 && Fits(x, g)
    requires SmallsDone(ViewOf(x), ViewOf(a), g, First(g), Min(HugeFirst(g), Last(g)))
    ensures BigRange(a, HugeFirst(g), HugeLast(g)) && NoHuge(ViewOf(a), HugeLast(g), Last(g))
  {
    Chunks(g);
    hide First, Last, HugeFirst, HugeLast, LowEnd, PagesOf, SmallsDone;
    AfterHead(ViewOf(x), ViewOf(a), g);
  }

  lemma MiddleOver(x: Machine, a: Machine, b: Machine, g: Segment)
    requires x.space.top == a.space.top == b.space.top <= 4 && Fits(x, g)
    requires NoHuge(ViewOf(a), HugeLast(g), Last(g))
    requires BigsDone(ViewOf(a), ViewOf(b), g, HugeFirst(g), HugeLast(g))
    ensures SmallRange(b, HugeLast(g), Last(g))
  {
    Chunks(g);
    hide First, Last, HugeFirst, HugeLast, LowEnd, PagesOf, BigsDone, Clear;
    AfterMiddle(ViewOf(a), ViewOf(b), g);
    TailChunk(HugeLast(g), Last(g));
  }

  lemma TailChunk(h: nat, end: nat)
    requires h % CHUNK == 0 && h <= end < h + CHUNK
    ensures h < end ==> h / CHUNK == (end - 1) / CHUNK
  {
  }

  lemma SegmentMapped(x: Machine, a: Machine, b: Machine, c: Machine, g: Segment)
    requires x.space.top == a.space.top == b.space.top == c.space.top <= 4 && Fits(x, g)
    requires SmallsDone(ViewOf(x), ViewOf(a), g, First(g), Min(HugeFirst(g), Last(g)))
    requires CoveredOrLast(ViewOf(a), First(g), Min(HugeFirst(g), Last(g)))
    requires BigsDone(ViewOf(a), ViewOf(b), g, HugeFirst(g), HugeLast(g))
    requires b.pool == [] || Covered(ViewOf(b), HugeFirst(g), HugeLast(g))
    requires SmallsDone(ViewOf(b), ViewOf(c), g, HugeLast(g), Last(g)) && CoveredOrLast(ViewOf(c), HugeLast(g), Last(g))
    ensures MappedFor(ViewOf(x), ViewOf(c), g) && MappedAll(ViewOf(c), g)
  {
    hide First, Last, HugeFirst, HugeLast, LowEnd, PagesOf, BigsDone, SmallsDone, Clear, Covered, MappedFor, MappedAll;
    assert b.pool == [] ==> ViewOf(b).frames == [];
    PhasesOk(ViewOf(x), ViewOf(a), ViewOf(b), ViewOf(c), g);
    PhasesCover(ViewOf(x), ViewOf(a), ViewOf(b), ViewOf(c), g);
  }

  // ----- the copy loops

  /** The first n bytes have been copied, and nothing but memory has changed. */
  ghost predicate FillSoFar(x: Machine, y: Machine, start: nat, src: seq<int>, n: nat)
    requires x.space.top <= 4 && n <= |src|
  {
    y == x.(ram := y.ram) && Filling(ViewOf(x), ViewOf(y), start, src, n)
  }

  lemma FillFirst(x: Machine, start: nat, src: seq<int>)
    requires x.space.top <= 4 && Sound(x)
    ensures FillSoFar(x, x, start, src, 0)
  {
    hide Filling, Fine;
    FillStart(ViewOf(x), start, src);
  }

  lemma FillTurn(x: Machine, y: Machine, start: nat, src: seq<int>, n: nat, chunk: nat, phys: nat)
    requires x.space.top <= 4 && n <= n + chunk <= |src| && FillSoFar(x, y, start, src, n)
    requires chunk <= PAGE - (start + n) % PAGE
    requires var p, pages := (start + n) / PAGE, PagesOf(x.space);
             p in pages && Direct(pages[p]) && phys == pages[p].frame * PAGE + (start + n) % PAGE
    ensures FillSoFar(x, y.(ram := Copied(y.ram, phys, src[n..n + chunk])), start, src, n + chunk)
  {
    hide Filling, PagesOf, Copied, Direct;
    FillNext(ViewOf(x), ViewOf(y), start, src, n, chunk);
  }

  /** Of the lower half's pages, the pointer to a mapped one can be used exactly
      if paging_get_phys gives its own physical address. */
  lemma PointerOf(x: Machine, p: nat, off: nat, hhdm: nat)
    requires 3 <= x.space.top <= 4 && Sound(x) && p < LowEnd(x.space.top) && off < PAGE
    requires DirectMap(hhdm, x.space.top, x.reach)
    ensures var pages, found := PagesOf(x.space), SightOf(x.space, p * PAGE).found;
            && (found.None? ==> p !in pages)
            && (found.Some? ==>
                  && p in pages && found.value.level <= 1
                  && var phys := RawPhys(found.value, p * PAGE);
                     && phys > 0 && (Direct(pages[p]) ==> phys == pages[p].frame * PAGE)
                     && (Canonical(Pointer(hhdm, phys + off), x.space.top) <==> Direct(pages[p])))
  {
    hide Sound, LowEnd, Canonical, Pointer, DirectMap, See, Size, RawPhys, Direct, PagesOf;
    PhysOfPage(x, p);
    if p in PagesOf(x.space) {
      Reach(x, p);
      CanonicalIff(hhdm, x.space.top, x.reach, PagesOf(x.space)[p].frame * PAGE + off);
    }
  }

  /** What the loop may find at the next byte. */
  lemma FillReady(x: Machine, y: Machine, start: nat, src: seq<int>, n: nat)
    requires 3 <= x.space.top <= 4 && Sound(x) && n < |src| && start + |src| <= LowEnd(x.space.top) * PAGE
    requires FillSoFar(x, y, start, src, n)
    ensures var m, p := ViewOf(x), (start + n) / PAGE;
            && Sound(y) && y.space == x.space && p < LowEnd(x.space.top)
            && (p !in m.pages ==> MissingIn(m, start, start + |src|))
            && (p in m.pages && !Direct(m.pages[p]) ==> AstrayIn(m, start, start + |src|))
  {
    hide LowEnd, Direct, PagesOf, Neat, Fine, Filled, AllDirect;
    InLow(start + n, LowEnd(x.space.top));
    var va := start + n;
    assert start <= va < start + |src|;
  }

  lemma InLow(va: nat, pages: nat)
    requires va < pages * PAGE
    ensures va / PAGE < pages
  {
  }

  lemma Reach(x: Machine, p: nat)
    requires x.space.top <= 4 && Sound(x) && p in PagesOf(x.space)
    ensures PagesOf(x.space)[p].frame * PAGE + PAGE <= x.reach * PAGE
  {
    hide PagesOf;
    FrameBelow(ViewOf(x), p);
  }

  lemma FillLast(x: Machine, y: Machine, start: nat, src: seq<int>)
    requires x.space.top <= 4 && Sound(x) && FillSoFar(x, y, start, src, |src|)
    ensures Sound(y) && Filled(ViewOf(x), ViewOf(y), start, src) && AllDirect(ViewOf(x), start, start + |src|)
  {
    assert src[..|src|] == src;
    hide Filled, AllDirect, Fine, PagesOf, Neat;
  }

  // ----- one program header

  /** The next segment of a program whose earlier segments are loaded. */
  ghost predicate Joins(x: Machine, gs: seq<Segment>, g: Segment, file: seq<int>)
    requires x.space.top <= 4
  {
    g.load && Proper(g) && Last(g) <= LowEnd(x.space.top) && Apart(gs, g) && LoadInv(ViewOf(x), gs, file)
  }

  lemma EndBelow(g: Segment, pages: nat)
    requires Last(g) <= pages
    ensures g.vaddr + g.memsz <= pages * PAGE
  {
  }

  lemma JoinFits(x: Machine, gs: seq<Segment>, g: Segment, file: seq<int>)
    requires x.space.top <= 4 && Joins(x, gs, g, file)
    ensures Fits(x, g) && Proper(g) && g.vaddr + g.memsz <= LowEnd(x.space.top) * PAGE
  {
    EndBelow(g, LowEnd(x.space.top));
    hide First, Last, HugeFirst, HugeLast, LowEnd, PagesOf, Loaded, RightsExact, RestZero, Footprint, Fine;
    NoClash(ViewOf(x), gs, g);
  }

  lemma FilledPages(r: Mem, a: Mem, va: nat, src: seq<int>)
    requires Filled(r, a, va, src)
    ensures a.pages == r.pages
  {
  }

  /** Why a copy loop stopped early. */
  lemma LoadStopped(x: Machine, r: Machine, a: Machine, gs: seq<Segment>, g: Segment, file: seq<int>, lo: nat, hi: nat)
    requires x.space.top == r.space.top == a.space.top <= 4 && Joins(x, gs, g, file) && Fits(x, g)
    requires MappedFor(ViewOf(x), ViewOf(r), g) && MappedAll(ViewOf(r), g) && ViewOf(a).pages == ViewOf(r).pages
    requires g.vaddr <= lo && hi <= g.vaddr + g.memsz
    ensures AstrayIn(ViewOf(a), lo, hi) ==> Astray(g)
    ensures MissingIn(ViewOf(a), lo, hi) ==> r.pool == []
  {
    hide First, Last, HugeFirst, HugeLast, LowEnd, PagesOf, Loaded, RightsExact, RestZero, Footprint, Fine, MappedFor,
      MappedAll;
    hide Clear, ChunksOf, Direct, Apart, ZeroPage, Astray;
    var m, n := ViewOf(x), ViewOf(r);
    MappedEmpty(m, n, gs, g);
    if AstrayIn(ViewOf(a), lo, hi) {
      AstrayOnly(n, g, lo, hi);
    }
    if MissingIn(ViewOf(a), lo, hi) {
      MissingOnly(n, g, lo, hi);
      NoFrames(r);
    }
  }

  lemma NoFrames(r: Machine)
    requires r.space.top <= 4 && ViewOf(r).frames == []
    ensures r.pool == []
  {
    assert |Numbers(r.pool)| == |r.pool|;
  }

  lemma LoadOver(x: Machine, r: Machine, a: Machine, b: Machine, gs: seq<Segment>, g: Segment, file: seq<int>)
    requires x.space.top == r.space.top == a.space.top == b.space.top <= 4 && Joins(x, gs, g, file) && Fits(x, g)
    requires MappedFor(ViewOf(x), ViewOf(r), g) && MappedAll(ViewOf(r), g) && InFile(g, file) && Sound(b)
    requires Filled(ViewOf(r), ViewOf(a), g.vaddr, file[g.offset..g.offset + g.filesz])
    requires AllDirect(ViewOf(r), g.vaddr, g.vaddr + g.filesz)
    requires if g.memsz > g.filesz
             then && Filled(ViewOf(a), ViewOf(b), g.vaddr + g.filesz, Zeros(g.memsz - g.filesz))
                  && AllDirect(ViewOf(a), g.vaddr + g.filesz, g.vaddr + g.memsz)
             else b == a
    ensures LoadInv(ViewOf(b), gs + [g], file)
  {
    hide First, Last, HugeFirst, HugeLast, LowEnd, PagesOf, LoadInv, Fine, MappedFor, MappedAll, Clear, Filled,
      AllDirect, Apart, Neat;
    if g.memsz == g.filesz {
      NoBss(ViewOf(r), ViewOf(a), g, file);
    }
    assert Stored(ViewOf(r), ViewOf(a), ViewOf(b), g, file);
    SegmentOk(ViewOf(x), ViewOf(r), ViewOf(a), ViewOf(b), gs, g, file);
  }

  // ----- whole programs

  lemma NeedNext(gs: seq<Segment>)
    requires gs != []
    ensures PagesFor(gs) == PagesFor([gs[0]]) + PagesFor(gs[1..])
    ensures BlocksFor(gs) == BlocksFor([gs[0]]) + BlocksFor(gs[1..])
  {
    assert [gs[0]][1..] == [];
    hide SmallSteps, BigSteps;
  }

  lemma NoTop()
    ensures IsTop([], 0)
  {
  }

  lemma NoLoads()
    ensures Loads([]) == []
  {
  }

  ghost predicate NoneAstray(gs: seq<Segment>) {
    forall i :: 0 <= i < |gs| && gs[i].load ==> !Astray(gs[i])
  }

  ghost predicate AllInFile(gs: seq<Segment>, file: seq<int>) {
    forall i :: 0 <= i < |gs| && gs[i].load ==> InFile(gs[i], file)
  }

  lemma {:induction false} LoadsNext(gs: seq<Segment>, g: Segment)
    ensures Loads(gs + [g]) == if g.load then Loads(gs) + [g] else Loads(gs)
  {
    if gs == [] {
      assert gs + [g] == [g] && [g][1..] == [];
    } else {
      LoadsNext(gs[1..], g);
      assert (gs + [g])[0] == gs[0] && (gs + [g])[1..] == gs[1..] + [g];
    }
  }

  /** The loaded segments are the loadable ones. */
  lemma {:induction false} LoadsAre(gs: seq<Segment>, g: Segment)
    ensures g in Loads(gs) <==> g in gs && g.load
  {
    if gs != [] {
      LoadsAre(gs[1..], g);
      assert gs == [gs[0]] + gs[1..];
    }
  }

  lemma JoinsNext(x: Machine, gs: seq<Segment>, i: nat, file: seq<int>)
    requires x.space.top <= 4 && i < |gs| && Separate(gs, LowEnd(x.space.top)) && gs[i].load
    requires LoadInv(ViewOf(x), Loads(gs[..i]), file)
    ensures Joins(x, Loads(gs[..i]), gs[i], file)
  {
    hide LoadInv, Disjoint, Last, LowEnd, PagesOf, Proper, Loads;
    var done := Loads(gs[..i]);
    forall j | 0 <= j < |done|
      ensures Disjoint(done[j], gs[i])
    {
      LoadsAre(gs[..i], done[j]);
      var k :| 0 <= k < i && gs[k] == done[j];
    }
  }

  lemma ParseOver(x: Machine, gs: seq<Segment>, file: seq<int>)
    requires x.space.top <= 4 && Sound(x) && Separate(gs, LowEnd(x.space.top)) && LoadInv(ViewOf(x), Loads(gs), file)
    ensures NoneAstray(gs) && AllInFile(gs, file) && InPlace(x.space, x.ram, Loads(gs), file)
  {
    hide Sound, LowEnd, Last, Astray, PagesOf, InPlace, Disjoint, Proper, Footprint, RightsExact, RestZero, Fine,
      Loaded, Loads;
    var loads := Loads(gs);
    forall j | 0 <= j < |loads|
      ensures Last(loads[j]) <= LowEnd(x.space.top)
    {
      LoadsAre(gs, loads[j]);
    }
    LoadInPlace(x, loads, file);
    forall i | 0 <= i < |gs| && gs[i].load
      ensures !Astray(gs[i]) && InFile(gs[i], file)
    {
      LoadsAre(gs, gs[i]);
    }
  }

  /** The end of the highest loaded segment, rounded up to a page. */
  ghost predicate IsTop(gs: seq<Segment>, top: nat) {
    && (forall i :: 0 <= i < |gs| && gs[i].load ==> Last(gs[i]) * PAGE <= top)
    && (top == 0 || exists i :: 0 <= i < |gs| && gs[i].load && Last(gs[i]) * PAGE == top)
  }

  lemma TopStep(gs: seq<Segment>, g: Segment, top: nat)
    requires IsTop(gs, top)
    ensures IsTop(gs + [g], if g.load && Last(g) * PAGE > top then Last(g) * PAGE else top)
  {
    hide Last;
    var hs := gs + [g];
    assert hs[|gs|] == g;
    if top != 0 {
      var i :| 0 <= i < |gs| && gs[i].load && Last(gs[i]) * PAGE == top;
      assert hs[i] == gs[i];
    }
  }
}
