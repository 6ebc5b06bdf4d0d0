/** Where the walk of an address ends: the entry that maps it and its level, and
    whether the tables on the way were all added by the walk itself. Unlike the
    translation, this tells a huge page from the small ones it splits into. */
module PageSight {
  import opened PageTable
  import opened PageSpace

  /** The entry that maps an address, and on which level. */
  datatype Hit = Hit(level: nat, entry: Entry)

  /** What the walk of an address sees: the entry that maps it, if any, and
      whether every entry above grants what the walk gives a new table. */
  datatype Sight = Sight(found: Option<Hit>, plain: bool)

  predicate Plain(f: Flags) {
    RightsOf(f) == RightsOf(TABLE_FLAGS)
  }

  ghost function See(mem: Memory, level: nat, table: nat, va: nat): Sight
    requires level <= 4
    decreases level
  {
    if table !in mem then Sight(None, true)
    else
      var e := mem[table][Index(va, level)];
      if !Links(e, level) then Ends(e, level)
      else
        var x := See(mem, level - 1, e.addr, va);
        Sight(x.found, x.plain && Plain(e.flags))
  }

  /** A walk that ends at this entry. */
  ghost function Ends(e: Entry, level: nat): Sight {
    Sight(if e.flags.present then Some(Hit(level, e)) else None, true)
  }

  ghost function SightOf(s: Space, va: nat): Sight
    requires s.top <= 4
  {
    See(s.mem, s.top, s.root, va)
  }

  ghost predicate SameSight(s: Space, s': Space)
    requires s.top <= 4 && s'.top <= 4
  {
    forall va :: InSpace(s, va) ==> SightOf(s', va) == SightOf(s, va)
  }

  /** The walk of va meets no huge page above the target level. */
  ghost predicate Smooth(s: Space, va: nat, target: nat)
    requires s.top <= 4
  {
    match SightOf(s, va).found
    case None => true
    case Some(h) => h.level <= target
  }

  lemma SeeStep(mem: Memory, level: nat, table: nat, va: nat)
    requires level <= 4 && table in mem
    ensures var e := mem[table][Index(va, level)];
            See(mem, level, table, va) ==
              if !Links(e, level) then Ends(e, level)
              else var x := See(mem, level - 1, e.addr, va); Sight(x.found, x.plain && Plain(e.flags))
  {
  }

  /** Through tables the walk has made itself, an entry's own rights are the
      effective ones, except that users are kept out. */
  lemma {:induction false} SightTranslates(mem: Memory, level: nat, table: nat, va: nat)
    requires level <= 4
    ensures var x, w := See(mem, level, table, va), Walk(mem, level, table, va);
            match x.found
            case None => w == None
            case Some(h) =>
              && h.level <= level && h.entry.flags.present && (h.level > 0 ==> h.entry.flags.huge)
              && w.Some? && w.value.phys == AlignDown(h.entry.addr, h.level) + va % Size(h.level)
              && (x.plain ==>
                    var f := h.entry.flags;
                    w.value.rights == Rights(f.writable, f.user && h.level == level, f.nx))
    decreases level
  {
    if table in mem {
      WalkStep(mem, level, table, va);
      SeeStep(mem, level, table, va);
      hide AlignDown, Size, Walk, See, Index;
      var e := mem[table][Index(va, level)];
      if Links(e, level) {
        SightTranslates(mem, level - 1, e.addr, va);
      }
    }
  }

  // ----- changes of single tables

  /** A change confined to table a that is not seen from a on is not seen from
      any other table. */
  lemma {:induction false} SeeLocal(mem: Memory, mem': Memory, own: Owners, a: nat, b: nat, level: nat, va: nat)
    requires Tree(mem, own) && level <= 4 && Serves(own, b, level, va) && a in own
    requires forall c :: c in own && c != a ==> c in mem' && mem'[c] == mem[c]
    requires var l := own[a].level;
             Serves(own, a, l, va) ==> See(mem', l, a, va) == See(mem, l, a, va)
    ensures See(mem', level, b, va) == See(mem, level, b, va)
    decreases level
  {
    if b != a {
      ServesChild(mem, own, b, level, va);
      var e := mem[b][Index(va, level)];
      if Links(e, level) {
        SeeLocal(mem, mem', own, a, e.addr, level - 1, va);
      }
    }
  }

  lemma {:induction false} SeeBelow(mem: Memory, mem': Memory, own: Owners, a: nat, b: nat, level: nat, va: nat)
    requires Tree(mem, own) && level <= 4 && Serves(own, b, level, va) && a in own && level < own[a].level
    requires forall c :: c in own && c != a ==> c in mem' && mem'[c] == mem[c]
    ensures See(mem', level, b, va) == See(mem, level, b, va)
    decreases level
  {
    ServesChild(mem, own, b, level, va);
    var e := mem[b][Index(va, level)];
    if Links(e, level) {
      SeeBelow(mem, mem', own, a, e.addr, level - 1, va);
    }
  }

  /** Changing one entry is seen only by the addresses of its page. */
  lemma SeeEntry(mem: Memory, mem': Memory, own: Owners, a: nat, i: nat, e: Entry, va: nat)
    requires Tree(mem, own) && a in own && i < 512
    requires forall c :: c in own ==> c in mem' && mem'[c] == if c == a then mem[a][i := e] else mem[c]
    requires var l := own[a].level; Serves(own, a, l, va) && Index(va, l) != i
    ensures var l := own[a].level; See(mem', l, a, va) == See(mem, l, a, va)
  {
    var l := own[a].level;
    ServesChild(mem, own, a, l, va);
    var x := mem[a][Index(va, l)];
    if Links(x, l) {
      SeeBelow(mem, mem', own, a, x.addr, l - 1, va);
    }
  }

  /** An empty table under an absent entry is not seen. */
  lemma SightAdd(s: Space, a: nat, i: nat, c: nat)
    requires SpaceOk(s) && a in s.own && i < 512 && 0 < s.own[a].level <= 4 && c !in s.own
    requires a in s.mem && !s.mem[a][i].flags.present
    ensures s.top <= 4 && SameSight(s, WithTable(s, a, i, c, TABLE_FLAGS, EmptyTable()))
  {
    var s', l := WithTable(s, a, i, c, TABLE_FLAGS, EmptyTable()), s.own[a].level;
    forall va | InSpace(s, va)
      ensures SightOf(s', va) == SightOf(s, va)
    {
      RootServes(s, va);
      hide See;
      if Index(va, l) == i {
        SeeStep(s.mem, l, a, va);
        SeeStep(s'.mem, l, a, va);
        SeeStep(s'.mem, l - 1, c, va);
      } else if Serves(s.own, a, l, va) {
        SeeEntry(s.mem, s'.mem, s.own, a, i, Entry(TABLE_FLAGS, c), va);
      }
      SeeLocal(s.mem, s'.mem, s.own, a, s.root, s.top, va);
    }
  }

  /** A leaf entry is seen by the addresses of its own page only. */
  lemma SightElsewhere(s: Space, a: nat, i: nat, e: Entry)
    requires SpaceOk(s) && a in s.own && i < 512 && a in s.mem && s.own[a].level <= 4
    ensures s.top <= 4
    ensures forall va :: InSpace(s, va) && !InSlot(s, a, i, va) ==>
              SightOf(WithEntry(s, a, i, e), va) == SightOf(s, va)
  {
    var s', l := WithEntry(s, a, i, e), s.own[a].level;
    forall va | InSpace(s, va) && !InSlot(s, a, i, va)
      ensures SightOf(s', va) == SightOf(s, va)
    {
      RootServes(s, va);
      InSlotIff(s, a, i, va);
      hide See;
      if Serves(s.own, a, l, va) {
        SeeEntry(s.mem, s'.mem, s.own, a, i, e, va);
      }
      SeeLocal(s.mem, s'.mem, s.own, a, s.root, s.top, va);
    }
  }

  // ----- paths

  /** Every entry on the way down to the target grants what a new table gets. */
  ghost predicate PlainPath(mem: Memory, level: nat, b: nat, va: nat, target: nat)
    requires target <= level <= 4
    decreases level
  {
    level == target || b !in mem ||
    var e := mem[b][Index(va, level)];
    Plain(e.flags) && PlainPath(mem, level - 1, e.addr, va, target)
  }

  lemma {:induction false} SeeThrough(mem: Memory, level: nat, b: nat, va: nat, target: nat, a: nat)
    requires target <= level <= 4 && Reaches(mem, level, b, va, target, a)
    ensures var x := See(mem, target, a, va);
            See(mem, level, b, va) == Sight(x.found, x.plain && PlainPath(mem, level, b, va, target))
    decreases level
  {
    if level > target {
      SeeStep(mem, level, b, va);
      hide See;
      SeeThrough(mem, level - 1, mem[b][Index(va, level)].addr, va, target, a);
    }
  }

  /** Addresses of one small page see the same. */
  lemma {:induction false} SeeSamePage(mem: Memory, level: nat, b: nat, va: nat, va': nat)
    requires level <= 4 && PageNo(va, 0) == PageNo(va', 0)
    ensures See(mem, level, b, va) == See(mem, level, b, va')
    decreases level
  {
    SamePageAbove(va, va', 0, level);
    if b in mem {
      var e := mem[b][Index(va, level)];
      if Links(e, level) {
        SeeSamePage(mem, level - 1, e.addr, va, va');
      }
    }
  }

  lemma {:induction false} SamePlain(mem: Memory, level: nat, b: nat, va: nat, va': nat, target: nat)
    requires target <= level <= 4 && PageNo(va, target + 1) == PageNo(va', target + 1)
    ensures PlainPath(mem, level, b, va, target) == PlainPath(mem, level, b, va', target)
    decreases level
  {
    if level > target && b in mem {
      SamePageAbove(va, va', target + 1, level);
      SamePlain(mem, level - 1, mem[b][Index(va, level)].addr, va, va', target);
    }
  }

  lemma {:induction false} PlainStable(mem: Memory, mem': Memory, own: Owners, level: nat, b: nat, va: nat, a: nat)
    requires Tree(mem, own) && a in own && own[a].level <= level <= 4 && Serves(own, b, level, va)
    requires forall c :: c in own && c != a ==> c in mem' && mem'[c] == mem[c]
    requires Reaches(mem, level, b, va, own[a].level, a)
    ensures PlainPath(mem', level, b, va, own[a].level) == PlainPath(mem, level, b, va, own[a].level)
    decreases level
  {
    if level > own[a].level {
      ServesChild(mem, own, b, level, va);
      assert b != a;
      PlainStable(mem, mem', own, level - 1, mem[b][Index(va, level)].addr, va, a);
    }
  }

  /** Once the path to its table is there, a leaf entry is what its page sees. */
  lemma SightHere(s: Space, a: nat, e: Entry, va: nat, va': nat)
    requires SpaceOk(s) && s.top <= 4 && a in s.own && s.own[a].level <= s.top && a in s.mem
    requires !Links(e, s.own[a].level)
    requires var l := s.own[a].level;
             && InSpace(s, va) && InSpace(s, va') && Serves(s.own, a, l, va) && PageNo(va, l) == PageNo(va', l)
             && Reaches(s.mem, s.top, s.root, va, l, a)
    ensures var l := s.own[a].level;
            var x := SightOf(WithEntry(s, a, Index(va, l), e), va');
            x.found == Ends(e, l).found && (SightOf(s, va).plain ==> x.plain)
  {
    hide See, Reaches, PathRights, PlainPath, Size;
    var l := s.own[a].level;
    var i := Index(va, l);
    var s' := WithEntry(s, a, i, e);
    PageNoStep(va, l);
    PageNoStep(va', l);
    SamePath(s.mem, s.top, s.root, va, va', l, a);
    SamePlain(s.mem, s.top, s.root, va, va', l);
    RootServes(s, va');
    PathStable(s.mem, s'.mem, s.own, s.top, s.root, va', a);
    PlainStable(s.mem, s'.mem, s.own, s.top, s.root, va', a);
    SeeThrough(s'.mem, s.top, s.root, va', l, a);
    SeeThrough(s.mem, s.top, s.root, va, l, a);
    SeeStep(s'.mem, l, a, va');
  }

  /** A walk that cannot go on below a table sees the same, mapped or not, for
      all addresses below the entry it stopped at. */
  lemma StuckAt(s: Space, level: nat, table: nat, va: nat, va': nat)
    requires s.top <= 4 && level <= s.top && Reaches(s.mem, s.top, s.root, va, level, table) && table in s.mem
    requires !Links(s.mem[table][Index(va, level)], level) && PageNo(va, level) == PageNo(va', level)
    ensures SightOf(s, va') == SightOf(s, va)
    ensures SightOf(s, va).found == Ends(s.mem[table][Index(va, level)], level).found
  {
    hide See, Reaches, PlainPath, Size;
    PageNoStep(va, level);
    PageNoStep(va', level);
    SamePath(s.mem, s.top, s.root, va, va', level, table);
    SamePlain(s.mem, s.top, s.root, va, va', level);
    SeeThrough(s.mem, s.top, s.root, va, level, table);
    SeeThrough(s.mem, s.top, s.root, va', level, table);
    SeeStep(s.mem, level, table, va);
    SeeStep(s.mem, level, table, va');
  }

  /** The addresses that would share the target's next table with va are all
      mapped or all unmapped. */
  ghost predicate AllOrNone(s: Space, va: nat, target: nat)
    requires s.top <= 4 && target <= 3
  {
    forall va' :: InSpace(s, va') && PageNo(va', target + 1) == PageNo(va, target + 1) ==>
      SightOf(s, va').found.None? == SightOf(s, va).found.None?
  }

  lemma Stuck(s: Space, level: nat, table: nat, va: nat, target: nat)
    requires s.top <= 4 && target < level <= s.top && table in s.mem
    requires Reaches(s.mem, s.top, s.root, va, level, table) && !Links(s.mem[table][Index(va, level)], level)
    ensures AllOrNone(s, va, target)
  {
    hide See, Reaches, Size;
    forall va' | InSpace(s, va') && PageNo(va', target + 1) == PageNo(va, target + 1)
      ensures SightOf(s, va').found.None? == SightOf(s, va).found.None?
    {
      SamePageAbove(va, va', target + 1, level);
      StuckAt(s, level, table, va, va');
    }
  }

  /** The huge page a walk stops at is what the address sees. */
  lemma NotSmooth(s: Space, level: nat, table: nat, va: nat, target: nat)
    requires s.top <= 4 && target < level <= s.top && table in s.mem
    requires Reaches(s.mem, s.top, s.root, va, level, table)
    requires var f := s.mem[table][Index(va, level)].flags; f.present && f.huge
    ensures !Smooth(s, va, target)
  {
    hide See, Reaches, Size;
    StuckAt(s, level, table, va, va);
  }

  lemma SameSightChain(s0: Space, s: Space, s': Space)
    requires s0.top == s.top == s'.top <= 4 && SameSight(s0, s) && SameSight(s, s')
    ensures SameSight(s0, s')
  {
    hide See;
    forall va | InSpace(s0, va)
      ensures SightOf(s', va) == SightOf(s0, va)
    {
      assert SightOf(s, va) == SightOf(s0, va);
    }
  }

  lemma SmoothSame(s0: Space, s: Space, va: nat, target: nat)
    requires s0.top == s.top <= 4 && SameSight(s0, s) && InSpace(s0, va)
    ensures Smooth(s, va, target) == Smooth(s0, va, target)
  {
    hide See;
    assert SightOf(s, va) == SightOf(s0, va);
  }

  // ----- flags

  /** The entry asked for: every flag as given, except that a page above the last
      level is marked huge, at the address rounded down to the page size. */
  ghost predicate Asked(e: Entry, level: nat, phys: nat, flags: Flags)
    requires level <= 4
  {
    && e.addr <= phys < e.addr + Size(level) && e.addr % Size(level) == 0
    && e.flags.present == flags.present && e.flags.writable == flags.writable && e.flags.user == flags.user
    && e.flags.nx == flags.nx && e.flags.global == flags.global && e.flags.attrs == flags.attrs
    && (e.flags.huge <==> level > 0 || flags.huge)
  }

  /** What an address sees keeps its flags; a split clears the global one and
      goes to a lower level. */
  ghost predicate FlagsKeptAt(x: Option<Hit>, y: Option<Hit>) {
    match x
    case None => y.None?
    case Some(h) =>
      && y.Some? && y.value.level <= h.level
      && var f, g := h.entry.flags, y.value.entry.flags;
         && g.present == f.present && g.writable == f.writable && g.user == f.user && g.nx == f.nx && g.attrs == f.attrs
         && (y.value.level == h.level ==> y == x)
  }

  ghost predicate FlagsKept(s: Space, s': Space)
    requires s.top <= 4 && s'.top <= 4
  {
    forall va :: InSpace(s, va) ==> FlagsKeptAt(SightOf(s, va).found, SightOf(s', va).found)
  }

  lemma SameFlags(s: Space, s': Space)
    requires s.top <= 4 && s'.top <= 4 && SameSight(s, s')
    ensures FlagsKept(s, s')
  {
    hide See;
  }

  lemma FlagsKeptChain(s0: Space, s: Space, s': Space)
    requires s0.top == s.top == s'.top <= 4 && FlagsKept(s0, s) && FlagsKept(s, s')
    ensures FlagsKept(s0, s')
  {
    hide See;
    forall va | InSpace(s0, va)
      ensures FlagsKeptAt(SightOf(s0, va).found, SightOf(s', va).found)
    {
      assert FlagsKeptAt(SightOf(s0, va).found, SightOf(s, va).found);
      assert FlagsKeptAt(SightOf(s, va).found, SightOf(s', va).found);
    }
  }

  /** Splitting a huge page on the way of va keeps every address's flags. */
  lemma SplitFlagsKept(s: Space, va: nat, level: nat, a: nat, c: nat)
    requires SpaceOk(s) && s.top <= 4 && 1 <= level <= s.top && InSpace(s, va) && c !in s.own
    requires a in s.mem && a in s.own && s.own[a] == Slot(level, PageNo(va, level + 1))
    requires Reaches(s.mem, s.top, s.root, va, level, a)
    requires var f := s.mem[a][Index(va, level)].flags; f.present && f.huge
    ensures var e := s.mem[a][Index(va, level)];
            FlagsKept(s, WithTable(s, a, Index(va, level), c, SplitFlags(e.flags), SplitTable(e, level)))
  {
    hide See, Reaches, PlainPath, Size, Tree, AlignDown, SplitTable, FlagsKeptAt;
    var i, e := Index(va, level), s.mem[a][Index(va, level)];
    var s' := WithTable(s, a, i, c, SplitFlags(e.flags), SplitTable(e, level));
    forall vb | InSpace(s, vb)
      ensures FlagsKeptAt(SightOf(s, vb).found, SightOf(s', vb).found)
    {
      PageNoStep(va, level);
      PageNoStep(vb, level);
      if PageNo(vb, level) == PageNo(va, level) {
        SplitHere(s, s', va, vb, level, a, c);
      } else {
        NotSplit(s, s', i, vb, level, a, c, Entry(SplitFlags(e.flags), c));
        SameSeen(SightOf(s, vb).found);
      }
    }
  }

  lemma SameSeen(x: Option<Hit>)
    ensures FlagsKeptAt(x, x)
  {
  }

  lemma NotSplit(s: Space, s': Space, i: nat, vb: nat, level: nat, a: nat, c: nat, e: Entry)
    requires SpaceOk(s) && s.top <= 4 && 1 <= level <= 4 && InSpace(s, vb) && c !in s.own && i < 512
    requires a in s.mem && a in s.own && s.own[a].level == level && s'.top == s.top && s'.root == s.root
    requires forall b :: b in s.own && b in s.mem ==>
               b in s'.mem && s'.mem[b] == if b == a then s.mem[a][i := e] else s.mem[b]
    requires PageNo(vb, level) != s.own[a].page * 512 + i
    ensures SightOf(s', vb) == SightOf(s, vb)
  {
    hide See, Size;
    RootServes(s, vb);
    InSlotIff(s, a, i, vb);
    if Serves(s.own, a, level, vb) {
      SeeEntry(s.mem, s'.mem, s.own, a, i, e, vb);
    }
    SeeLocal(s.mem, s'.mem, s.own, a, s.root, s.top, vb);
  }

  lemma SplitHere(s: Space, s': Space, va: nat, vb: nat, level: nat, a: nat, c: nat)
    requires SpaceOk(s) && s.top <= 4 && 1 <= level <= s.top && InSpace(s, vb) && InSpace(s, va) && c !in s.own
    requires a in s.mem && a in s.own && s.own[a] == Slot(level, PageNo(va, level + 1))
    requires Reaches(s.mem, s.top, s.root, va, level, a) && PageNo(vb, level) == PageNo(va, level)
    requires var e := s.mem[a][Index(va, level)];
             e.flags.present && e.flags.huge
             && s' == WithTable(s, a, Index(va, level), c, SplitFlags(e.flags), SplitTable(e, level))
    ensures FlagsKeptAt(SightOf(s, vb).found, SightOf(s', vb).found)
  {
    hide See, Reaches, PathRights, PlainPath, Size, AlignDown, SplitTable;
    var e := s.mem[a][Index(va, level)];
    PageNoStep(va, level);
    PageNoStep(vb, level);
    SamePath(s.mem, s.top, s.root, va, vb, level, a);
    RootServes(s, vb);
    PathStable(s.mem, s'.mem, s.own, s.top, s.root, vb, a);
    SeeThrough(s.mem, s.top, s.root, vb, level, a);
    SeeThrough(s'.mem, s.top, s.root, vb, level, a);
    SeeStep(s.mem, level, a, vb);
    SeeStep(s'.mem, level, a, vb);
    SeeStep(s'.mem, level - 1, c, vb);
    SplitTableAt(e, level, Index(vb, level - 1));
  }
}
