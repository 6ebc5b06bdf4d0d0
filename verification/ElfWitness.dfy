/** Programs on which the loader does not do what one would expect. */
module ElfWitness {
  import opened PageTable
  import opened PageSpace
  import opened PageSight
  import opened Paging
  import opened ElfImage
  import opened ElfProof
  import opened ElfProgram
  import opened ElfPaging
  import opened Elf

  const HHDM: nat := 0xFFFF_8000_0000_0000
  const REACH: nat := 0x8_0000_0000

  function Pool(n: nat): seq<nat> {
    seq(n, i requires 0 <= i < n => (i + 2) * PAGE)
  }

  function Blocks(): seq<nat> {
    [0x100_0000, 0x120_0000, 0x140_0000]
  }

  function Plain64(): Header {
    Header([0x7F, 0x45, 0x4C, 0x46], true, true, EM_X86_64, ET_EXEC, 0, 56, 0x40_0000)
  }

  lemma PoolNumbers(n: nat)
    requires n <= 100
    ensures Aligned(Pool(n), PAGE) && |Numbers(Pool(n))| == n && forall i :: 0 <= i < n ==> Numbers(Pool(n))[i] == i + 2
  {
  }

  lemma BlockNumbers()
    ensures Aligned(Blocks(), 0x20_0000) && 0 !in Blocks() && Numbers(Blocks()) == [0x1000, 0x1200, 0x1400]
  {
  }

  /** A root table without entries, some free pages and blocks. */
  method Setup(n: nat) returns (l: Loader)
    requires n <= 100
    ensures l.Valid() && Fresh(l.State()) && l.space.top == 3 && l.space.pool == Pool(n) && l.blocks == Blocks()
    ensures fresh(l) && fresh(l.space)
  {
    PoolNumbers(n);
    BlockNumbers();
    var space := new AddressSpace(PAGE, 4, Pool(n));
    l := new Loader(space, true, HHDM, (a: nat) => 0, Blocks(), REACH);
    FreshSetup(l.State(), n);
  }

  lemma FreshSetup(x: Machine, n: nat)
    requires n <= 100 && x.space.top == 3 && x.pool == Pool(n) && x.blocks == Blocks() && x.reach == REACH
    requires x.space.own == map[PAGE := Slot(3, 0)] && x.space.mem == map[PAGE := EmptyTable()] && x.space.root == PAGE
    ensures Fresh(x)
  {
    PoolNumbers(n);
    BlockNumbers();
    forall t | t in TableFrames(x.space.own)
      ensures t == 1
    {
    }
  }

  /** A writable segment of two whole 2 MB chunks, all of it zeros. */
  function LargeBss(): Segment {
    Segment(true, 0x40_0000, 0x40_0000, 0, 0, true, false)
  }

  /** Loading it faults: the first write goes through a pointer that is not
      canonical. */
  method FaultWitness() returns (r: Result)
    ensures r == Faulted
  {
    var l := Setup(20);
    var g := LargeBss();
    LargeShape();
    hide First, Last, HugeFirst, HugeLast, LowEnd, Fresh, InPlace, PoolOk, SpaceOk, SmallSteps, BigSteps, Numbers;
    hide PagesFor, BlocksFor, Separate, NoneAstray, AllInFile, IsTop, Acceptable;
    r := l.Parse(Plain64(), [g], Zeros(64));
  }

  lemma LargeShape()
    ensures var g := LargeBss();
            && Separate([g], LowEnd(3)) && !NoneAstray([g]) && AllInFile([g], Zeros(64)) && Acceptable(Plain64(), 1, 64)
            && PagesFor([g]) == 6 && BlocksFor([g]) == 2
  {
    var g := LargeBss();
    LargePages();
    hide First, Last, HugeFirst, HugeLast;
    NeedOne(g);
    assert [g][0] == g;
  }

  lemma LargePages()
    ensures var g := LargeBss(); First(g) == 0x400 && Last(g) == 0x800 && HugeFirst(g) == 0x400 && HugeLast(g) == 0x800
  {
  }

  lemma NeedOne(g: Segment)
    requires g.load
    ensures PagesFor([g]) == 5 * SmallSteps(g) + 3 * BigSteps(g) && BlocksFor([g]) == BigSteps(g) && Loads([g]) == [g]
  {
    assert [g][1..] == [];
    hide SmallSteps, BigSteps;
  }

  lemma NeedTwo(g: Segment, h: Segment)
    requires g.load && h.load
    ensures PagesFor([g, h]) == PagesFor([g]) + PagesFor([h]) && BlocksFor([g, h]) == BlocksFor([g]) + BlocksFor([h])
    ensures Loads([g, h]) == [g, h]
  {
    assert [g, h][1..] == [h];
    NeedNext([g, h]);
    NeedOne(h);
    hide PagesFor, BlocksFor;
  }

  /** Two segments of one 2 MB chunk that share no page: one read-only, and above
      it one that is writable. */
  function ReadOnly(): Segment {
    Segment(true, 0x40_0000, 0x1000, 0, 0, false, false)
  }

  function Writable(): Segment {
    Segment(true, 0x40_1000, 0x1000, 0, 0, true, false)
  }

  /** After loading them, in either order, the read-only segment's page is
      writable. */
  method SpillWitness(upperFirst: bool) returns (l: Loader, r: Result)
    ensures r.Ready? && l.Valid()
    ensures Trans(l.space.View(), ReadOnly().vaddr).Some?
    ensures Trans(l.space.View(), ReadOnly().vaddr).value.rights.writable
  {
    l := Setup(40);
    var a, b := ReadOnly(), Writable();
    var gs := if upperFirst then [b, a] else [a, b];
    SpillShape(upperFirst);
    hide First, Last, HugeFirst, HugeLast, LowEnd, Fresh, PoolOk, SpaceOk, SmallSteps, BigSteps, Numbers, PagesFor,
      BlocksFor;
    hide Touches, AsAsked, ReadsAs, Private, Walk, Separate, Loads, NoneAstray, AllInFile, IsTop, Acceptable;
    r := l.Parse(Plain64(), gs, Zeros(112));
    SpillAt(l.space.View(), gs);
  }

  lemma SpillShape(upperFirst: bool)
    ensures var a, b := ReadOnly(), Writable();
            var gs := if upperFirst then [b, a] else [a, b];
            && Separate(gs, LowEnd(3)) && NoneAstray(gs) && PagesFor(gs) == 20 && BlocksFor(gs) == 0 && Loads(gs) == gs
            && b in gs && Touches(b, 0x400) && AllInFile(gs, Zeros(112)) && Acceptable(Plain64(), 2, 112)
  {
    var a, b := ReadOnly(), Writable();
    assert First(a) == 0x400 && Last(a) == 0x401 && HugeFirst(a) == 0x400 && HugeLast(a) == 0x400;
    assert First(b) == 0x401 && Last(b) == 0x402 && HugeFirst(b) == 0x600 && HugeLast(b) == 0x400;
    assert SmallSteps(a) == 1 && SmallSteps(b) == 3 && BigSteps(a) == 0 && BigSteps(b) == 0;
    assert Disjoint(a, b) && Disjoint(b, a);
    hide First, Last, HugeFirst, HugeLast, SmallSteps, BigSteps, Disjoint, PagesFor, BlocksFor, Loads;
    NeedOne(a);
    NeedOne(b);
    NeedTwo(a, b);
    NeedTwo(b, a);
  }

  lemma SpillAt(s: Space, gs: seq<Segment>)
    requires 3 <= s.top <= 4 && AsAsked(s, gs) && Writable() in gs && Touches(Writable(), 0x400)
    ensures var x := Trans(s, ReadOnly().vaddr); x.Some? && x.value.rights.writable
  {
    hide Walk, Touches;
    assert AsAskedAt(s, gs, 0x40_0000);
    var i :| 0 <= i < |gs| && gs[i] == Writable();
    assert SomeWritable(gs, 0x400);
  }
}
