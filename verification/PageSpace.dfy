/** One address space: a tree of page tables under a root, and the three entry
    updates the paging code performs on it. */
module PageSpace {
  import opened PageTable

  /** `top` is the level of the root table: 3 with 4-level paging, 4 with
      5-level paging. */
  datatype Space = Space(mem: Memory, own: Owners, root: nat, top: nat)

  ghost predicate SpaceOk(s: Space)
  {
    match s
    case Space(mem, own, root, top) =>
      (top == 3 || top == 4) && Tree(mem, own) && root in own && own[root] == Slot(top, 0)
  }

  ghost predicate InSpace(s: Space, va: nat)
    requires s.top <= 4
  {
    va < Size(s.top + 1)
  }

  ghost function Trans(s: Space, va: nat): Option<Leaf>
    requires s.top <= 4
  {
    Walk(s.mem, s.top, s.root, va)
  }

  /** Every address keeps its translation and its rights. */
  ghost predicate SameTrans(s: Space, s': Space)
    requires s.top <= 4 && s'.top <= 4
  {
    forall va :: InSpace(s, va) ==> Trans(s', va) == Trans(s, va)
  }

  lemma RootServes(s: Space, va: nat)
    requires SpaceOk(s) && InSpace(s, va)
    ensures Serves(s.own, s.root, s.top, va)
  {
  }

  // ----- adding an empty table

  const TABLE_FLAGS := Flags(true, true, false, false, false, false, 0)

  function EmptyTable(): Table {
    seq(512, _ => ZERO)
  }

  ghost function WithTable(s: Space, a: nat, i: nat, c: nat, flags: Flags, t: Table): Space
    requires a in s.own && a in s.mem && i < 512 && s.own[a].level > 0
  {
    s.(mem := s.mem[c := t][a := s.mem[a][i := Entry(flags, c)]],
       own := s.own[c := Slot(s.own[a].level - 1, s.own[a].page * 512 + i)])
  }

  lemma WithTableTree(s: Space, a: nat, i: nat, c: nat, flags: Flags, t: Table)
    requires SpaceOk(s) && a in s.own && i < 512 && s.own[a].level > 0 && c !in s.own
    requires flags.present && !flags.huge
    requires forall k :: 0 <= k < 512 ==> !Links(t[k], s.own[a].level - 1)
    ensures a in s.mem && SpaceOk(WithTable(s, a, i, c, flags, t))
  {
  }

  /** When the new table translates the page of its slot as the old entry did,
      no translation changes. */
  lemma WithTableKeeps(s: Space, a: nat, i: nat, c: nat, flags: Flags, t: Table)
    requires SpaceOk(s) && a in s.own && a in s.mem && i < 512 && s.own[a].level > 0 && c !in s.own
    requires s.own[a].level <= 4
    requires var s', l := WithTable(s, a, i, c, flags, t), s.own[a].level;
             forall va :: Serves(s.own, a, l, va) && Index(va, l) == i ==>
               Walk(s'.mem, l, a, va) == Walk(s.mem, l, a, va)
    ensures s.top <= 4 && SameTrans(s, WithTable(s, a, i, c, flags, t))
  {
    var s', l := WithTable(s, a, i, c, flags, t), s.own[a].level;
    forall va | InSpace(s, va)
      ensures Trans(s', va) == Trans(s, va)
    {
      RootServes(s, va);
      hide Walk;
      if Serves(s.own, a, l, va) && Index(va, l) != i {
        EntryChange(s.mem, s'.mem, s.own, a, i, Entry(flags, c), va);
      }
      LocalChange(s.mem, s'.mem, s.own, a, s.root, s.top, va);
    }
  }

  lemma AddTableKeeps(s: Space, a: nat, i: nat, c: nat)
    requires SpaceOk(s) && a in s.own && i < 512 && s.own[a].level > 0 && c !in s.own
    requires a in s.mem && !s.mem[a][i].flags.present
    ensures var s' := WithTable(s, a, i, c, TABLE_FLAGS, EmptyTable());
            s.top <= 4 && SpaceOk(s') && SameTrans(s, s')
  {
    WithTableTree(s, a, i, c, TABLE_FLAGS, EmptyTable());
    WithTableKeeps(s, a, i, c, TABLE_FLAGS, EmptyTable());
  }

  // ----- splitting a huge page

  function SubFlags(f: Flags, level: nat): Flags {
    f.(huge := level > 1, global := false)
  }

  /** The entry of the table that replaces a huge page. */
  function SubEntry(e: Entry, level: nat, k: nat): Entry
    requires 1 <= level <= 4
  {
    Entry(SubFlags(e.flags, level), AlignDown(e.addr, level) + k * Size(level - 1))
  }

  function SplitTable(e: Entry, level: nat): Table
    requires 1 <= level <= 4
  {
    seq(512, k requires 0 <= k < 512 => SubEntry(e, level, k))
  }

  function SplitFlags(f: Flags): Flags {
    Flags(f.present, f.writable, f.user, false, false, f.nx, 0)
  }

  /** The 512 parts of a huge page are its pages. */
  lemma SplitAddress(base: nat, level: nat, va: nat)
    requires 1 <= level <= 4
    ensures var part := AlignDown(base, level) + Index(va, level - 1) * Size(level - 1);
            AlignDown(part, level - 1) + va % Size(level - 1) == AlignDown(base, level) + va % Size(level)
  {
    PageNoStep(va, level - 1);
    PartAligned(base, level, Index(va, level - 1));
  }

  lemma PartAligned(base: nat, level: nat, k: nat)
    requires 1 <= level <= 4
    ensures (AlignDown(base, level) + k * Size(level - 1)) % Size(level - 1) == 0
  {
    if level == 1 {
      Part1(base, k);
    } else if level == 2 {
      Part2(base, k);
    } else if level == 3 {
      Part3(base, k);
    } else {
      Part4(base, k);
    }
  }

  lemma Part1(base: nat, k: nat)
    ensures (base - base % 0x20_0000 + k * 0x1000) % 0x1000 == 0
  {
    var n := base / 0x20_0000 * 512 + k;
    assert base - base % 0x20_0000 == base / 0x20_0000 * 0x20_0000;
    assert base - base % 0x20_0000 + k * 0x1000 == n * 0x1000;
    assert n * 0x1000 / 0x1000 == n;
  }

  lemma Part2(base: nat, k: nat)
    ensures (base - base % 0x4000_0000 + k * 0x20_0000) % 0x20_0000 == 0
  {
    var n := base / 0x4000_0000 * 512 + k;
    assert base - base % 0x4000_0000 == base / 0x4000_0000 * 0x4000_0000;
    assert base - base % 0x4000_0000 + k * 0x20_0000 == n * 0x20_0000;
    assert n * 0x20_0000 / 0x20_0000 == n;
  }

  lemma Part3(base: nat, k: nat)
    ensures (base - base % 0x80_0000_0000 + k * 0x4000_0000) % 0x4000_0000 == 0
  {
    var n := base / 0x80_0000_0000 * 512 + k;
    assert base - base % 0x80_0000_0000 == base / 0x80_0000_0000 * 0x80_0000_0000;
    assert base - base % 0x80_0000_0000 + k * 0x4000_0000 == n * 0x4000_0000;
    assert n * 0x4000_0000 / 0x4000_0000 == n;
  }

  lemma Part4(base: nat, k: nat)
    ensures (base - base % 0x1_0000_0000_0000 + k * 0x80_0000_0000) % 0x80_0000_0000 == 0
  {
    var n := base / 0x1_0000_0000_0000 * 512 + k;
    assert base - base % 0x1_0000_0000_0000 == base / 0x1_0000_0000_0000 * 0x1_0000_0000_0000;
    assert base - base % 0x1_0000_0000_0000 + k * 0x80_0000_0000 == n * 0x80_0000_0000;
    assert n * 0x80_0000_0000 / 0x80_0000_0000 == n;
  }

  lemma SplitKeeps(s: Space, a: nat, i: nat, c: nat)
    requires SpaceOk(s) && a in s.own && i < 512 && s.own[a].level > 0 && c !in s.own
    requires a in s.mem && s.mem[a][i].flags.present && s.mem[a][i].flags.huge && s.own[a].level <= 4
    ensures var e, l := s.mem[a][i], s.own[a].level;
            var s' := WithTable(s, a, i, c, SplitFlags(e.flags), SplitTable(e, l));
            s.top <= 4 && SpaceOk(s') && SameTrans(s, s')
  {
    var e, l := s.mem[a][i], s.own[a].level;
    var t := SplitTable(e, l);
    var s' := WithTable(s, a, i, c, SplitFlags(e.flags), t);
    WithTableTree(s, a, i, c, SplitFlags(e.flags), t);
    forall va | Serves(s.own, a, l, va) && Index(va, l) == i
      ensures Walk(s'.mem, l, a, va) == Walk(s.mem, l, a, va)
    {
      SplitWalk(s, s', a, i, c, va);
    }
    WithTableKeeps(s, a, i, c, SplitFlags(e.flags), t);
  }

  lemma SplitTableAt(e: Entry, level: nat, k: nat)
    requires 1 <= level <= 4 && k < 512
    ensures SplitTable(e, level)[k] == SubEntry(e, level, k)
  {
  }

  lemma SplitWalk(s: Space, s': Space, a: nat, i: nat, c: nat, va: nat)
    requires a in s.mem && a in s.own && c != a && 0 < s.own[a].level <= 4 && i < 512
    requires var e, l := s.mem[a][i], s.own[a].level;
             && e.flags.present && e.flags.huge
             && s' == WithTable(s, a, i, c, SplitFlags(e.flags), SplitTable(e, l))
    requires Index(va, s.own[a].level) == i
    ensures var l := s.own[a].level; Walk(s'.mem, l, a, va) == Walk(s.mem, l, a, va)
  {
    var e, l := s.mem[a][i], s.own[a].level;
    hide Walk, Size, AlignDown, Index, SplitTable;
    SplitAddress(e.addr, l, va);
    SplitTableAt(e, l, Index(va, l - 1));
    WalkStep(s.mem, l, a, va);
    WalkStep(s'.mem, l, a, va);
    WalkStep(s'.mem, l - 1, c, va);
  }

  // ----- writing a leaf entry

  ghost function WithEntry(s: Space, a: nat, i: nat, e: Entry): Space
    requires a in s.mem && i < 512
  {
    s.(mem := s.mem[a := s.mem[a][i := e]])
  }

  /** The addresses whose walk uses entry i of table a. */
  ghost predicate InSlot(s: Space, a: nat, i: nat, va: nat)
    requires a in s.own && s.own[a].level <= 4
  {
    PageNo(va, s.own[a].level) == s.own[a].page * 512 + i
  }

  lemma InSlotIff(s: Space, a: nat, i: nat, va: nat)
    requires a in s.own && s.own[a].level <= 4 && i < 512
    ensures InSlot(s, a, i, va) <==> Serves(s.own, a, s.own[a].level, va) && Index(va, s.own[a].level) == i
  {
    PageNoStep(va, s.own[a].level);
  }

  /** A leaf entry changes the translation of its own page only. */
  lemma WithEntryElsewhere(s: Space, a: nat, i: nat, e: Entry)
    requires SpaceOk(s) && a in s.own && i < 512 && a in s.mem && s.own[a].level <= 4
    requires !Links(e, s.own[a].level)
    ensures SpaceOk(WithEntry(s, a, i, e)) && s.top <= 4
    ensures forall va :: InSpace(s, va) && !InSlot(s, a, i, va) ==>
              Trans(WithEntry(s, a, i, e), va) == Trans(s, va)
  {
    var s', l := WithEntry(s, a, i, e), s.own[a].level;
    forall va | InSpace(s, va) && !InSlot(s, a, i, va)
      ensures Trans(s', va) == Trans(s, va)
    {
      RootServes(s, va);
      InSlotIff(s, a, i, va);
      hide Walk;
      if Serves(s.own, a, l, va) {
        EntryChange(s.mem, s'.mem, s.own, a, i, e, va);
      }
      LocalChange(s.mem, s'.mem, s.own, a, s.root, s.top, va);
    }
  }

  // ----- paths under change

  /** A change of table a leaves the path to a, and its rights, as they were. */
  lemma {:induction false} PathStable(mem: Memory, mem': Memory, own: Owners, level: nat, b: nat, va: nat, a: nat)
    requires Tree(mem, own) && a in own && own[a].level <= level <= 4 && Serves(own, b, level, va)
    requires forall c :: c in own && c != a ==> c in mem' && mem'[c] == mem[c]
    requires Reaches(mem, level, b, va, own[a].level, a)
    ensures Reaches(mem', level, b, va, own[a].level, a)
    ensures PathRights(mem', level, b, va, own[a].level) == PathRights(mem, level, b, va, own[a].level)
    decreases level
  {
    if level > own[a].level {
      ServesChild(mem, own, b, level, va);
      assert b != a;
      PathStable(mem, mem', own, level - 1, mem[b][Index(va, level)].addr, va, a);
    }
  }

  /** A path can be extended by one linking entry. */
  lemma {:induction false} PathExtend(mem: Memory, level: nat, b: nat, va: nat, target: nat, a: nat)
    requires 1 <= target <= level <= 4 && Reaches(mem, level, b, va, target, a)
    requires a in mem && Links(mem[a][Index(va, target)], target)
    ensures var e := mem[a][Index(va, target)];
            && Reaches(mem, level, b, va, target - 1, e.addr)
            && PathRights(mem, level, b, va, target - 1) ==
                 Both(PathRights(mem, level, b, va, target), RightsOf(e.flags))
    decreases level
  {
    if level > target {
      PathExtend(mem, level - 1, mem[b][Index(va, level)].addr, va, target, a);
    } else {
      assert PathRights(mem, level - 1, mem[a][Index(va, target)].addr, va, target - 1) == Rights(true, true, false);
    }
  }

  /** What the rights of the path down to the target will be once the walk has
      made every table on it: an absent table comes out writable but not for
      users, and a huge page passes its rights on. */
  ghost function PathAfter(mem: Memory, level: nat, b: nat, va: nat, target: nat): Rights
    requires target <= level <= 4
    decreases level
  {
    if level == target || b !in mem then Rights(true, true, false)
    else
      var e := mem[b][Index(va, level)];
      if !e.flags.present then RightsOf(TABLE_FLAGS)
      else if e.flags.huge then RightsOf(e.flags)
      else Both(RightsOf(e.flags), PathAfter(mem, level - 1, e.addr, va, target))
  }

  /** Once the path to its table is there, a leaf entry decides the translation
      of its page, limited by the rights of the path. */
  lemma WithEntryHere(s: Space, a: nat, e: Entry, va: nat, va': nat)
    requires SpaceOk(s) && s.top <= 4 && a in s.own && s.own[a].level <= s.top && a in s.mem
    requires !Links(e, s.own[a].level)
    requires var l := s.own[a].level;
             && InSpace(s, va) && InSpace(s, va') && Serves(s.own, a, l, va) && PageNo(va, l) == PageNo(va', l)
             && Reaches(s.mem, s.top, s.root, va, l, a)
    ensures var l := s.own[a].level;
            var s' := WithEntry(s, a, Index(va, l), e);
            var path := PathRights(s.mem, s.top, s.root, va, l);
            Trans(s', va') == match Mapped(e, l, va')
                              case None => None
                              case Some(x) => Some(Leaf(x.phys, Both(path, x.rights)))
  {
    hide Walk, Reaches, PathRights, AlignDown, Size, Mapped;
    var l := s.own[a].level;
    var i := Index(va, l);
    var s' := WithEntry(s, a, i, e);
    PageNoStep(va, l);
    PageNoStep(va', l);
    SamePath(s.mem, s.top, s.root, va, va', l, a);
    RootServes(s, va');
    PathStable(s.mem, s'.mem, s.own, s.top, s.root, va', a);
    WalkThrough(s'.mem, s.top, s.root, va', l, a);
    WalkStep(s'.mem, l, a, va');
  }
}
