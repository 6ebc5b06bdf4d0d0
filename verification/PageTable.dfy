/** Page tables as a map from physical addresses to tables of 512 entries, the
    translation they define, and how changes of single entries act on it. */
module PageTable {

  datatype Option<T> = None | Some(value: T)

  /** The flag bits of an entry; `attrs` stands for the remaining low bits. */
  datatype Flags = Flags(present: bool, writable: bool, user: bool, huge: bool, global: bool, nx: bool, attrs: nat)

  datatype Entry = Entry(flags: Flags, addr: nat)

  type Table = t: seq<Entry> | |t| == 512 witness seq(512, _ => ZERO)

  type Memory = map<nat, Table>

  const NO_FLAGS := Flags(false, false, false, false, false, false, 0)
  const ZERO := Entry(NO_FLAGS, 0)

  /** Bytes mapped by one entry at a level. */
  function Size(level: nat): nat
    requires level <= 5
  {
    if level == 0 then 0x1000
    else if level == 1 then 0x20_0000
    else if level == 2 then 0x4000_0000
    else if level == 3 then 0x80_0000_0000
    else if level == 4 then 0x1_0000_0000_0000
    else 0x200_0000_0000_0000
  }

  /** The page number of an address at a level: all its indices down to there. */
  function PageNo(va: nat, level: nat): nat
    requires level <= 5
  {
    va / Size(level)
  }

  function Index(va: nat, level: nat): (i: nat)
    requires level <= 4
    ensures i < 512
  {
    PageNo(va, level) % 512
  }

  function AlignDown(a: nat, level: nat): nat
    requires level <= 4
  {
    a - a % Size(level)
  }

  lemma PageNoStep(va: nat, level: nat)
    requires level <= 4
    ensures PageNo(va, level) == PageNo(va, level + 1) * 512 + Index(va, level)
    ensures va % Size(level + 1) == Index(va, level) * Size(level) + va % Size(level)
  {
    if level == 0 {
    } else if level == 1 {
    } else if level == 2 {
    } else if level == 3 {
    } else {
    }
  }

  /** Rounding down twice is rounding down once. */
  lemma AlignDownTwice(a: nat, level: nat)
    requires level <= 2
    ensures AlignDown(AlignDown(a, level), level) == AlignDown(a, level)
  {
    if level == 0 {
      assert AlignDown(a, 0) == a / 0x1000 * 0x1000;
      assert a / 0x1000 * 0x1000 / 0x1000 == a / 0x1000;
    } else if level == 1 {
      assert AlignDown(a, 1) == a / 0x20_0000 * 0x20_0000;
      assert a / 0x20_0000 * 0x20_0000 / 0x20_0000 == a / 0x20_0000;
    } else {
      assert AlignDown(a, 2) == a / 0x4000_0000 * 0x4000_0000;
      assert a / 0x4000_0000 * 0x4000_0000 / 0x4000_0000 == a / 0x4000_0000;
    }
  }

  // ----- translation

  /** What an address translates to, with the rights that hold along the path. */
  datatype Leaf = Leaf(phys: nat, rights: Rights)
  datatype Rights = Rights(writable: bool, user: bool, nx: bool)

  function RightsOf(f: Flags): Rights {
    Rights(f.writable, f.user, f.nx)
  }

  /** An access is allowed only if every level allows it. */
  function Both(a: Rights, b: Rights): Rights {
    Rights(a.writable && b.writable, a.user && b.user, a.nx || b.nx)
  }

  function Walk(mem: Memory, level: nat, table: nat, va: nat): Option<Leaf>
    requires level <= 4
    decreases level
  {
    if table !in mem then None
    else
      var e := mem[table][Index(va, level)];
      if !e.flags.present then None
      else if level == 0 || e.flags.huge then
        Some(Leaf(AlignDown(e.addr, level) + va % Size(level), RightsOf(e.flags)))
      else
        match Walk(mem, level - 1, e.addr, va)
        case None => None
        case Some(x) => Some(Leaf(x.phys, Both(RightsOf(e.flags), x.rights)))
  }

  /** The page that a leaf entry maps. */
  ghost function Mapped(e: Entry, level: nat, va: nat): Option<Leaf>
    requires level <= 4
  {
    if e.flags.present then Some(Leaf(AlignDown(e.addr, level) + va % Size(level), RightsOf(e.flags))) else None
  }

  /** One step of the walk. */
  lemma WalkStep(mem: Memory, level: nat, table: nat, va: nat)
    requires level <= 4 && table in mem
    ensures var e := mem[table][Index(va, level)];
            Walk(mem, level, table, va) ==
              if !Links(e, level) then Mapped(e, level, va)
              else match Walk(mem, level - 1, e.addr, va)
                   case None => None
                   case Some(x) => Some(Leaf(x.phys, Both(RightsOf(e.flags), x.rights)))
  {
  }

  // ----- the tables form a tree

  /** The one place a table serves: its level and the page number it covers. */
  datatype Slot = Slot(level: nat, page: nat)

  type Owners = map<nat, Slot>

  predicate Links(e: Entry, level: nat) {
    e.flags.present && level > 0 && !e.flags.huge
  }

  /** Every table reached from an owned one is owned by exactly the slot that
      points to it, so no table is reached in two ways. */
  ghost predicate Tree(mem: Memory, own: Owners)
  {
    && (forall a :: a in own ==> a in mem && own[a].level <= 4)
    && (forall a, i :: a in own && 0 <= i < 512 && Links(mem[a][i], own[a].level) ==>
          Child(mem[a][i].addr, own, own[a].level - 1, own[a].page * 512 + i))
  }

  ghost predicate Child(a: nat, own: Owners, level: int, page: nat) {
    a in own && own[a].level == level && own[a].page == page
  }

  /** The walk of va from table b is at the table that serves va there. */
  ghost predicate Serves(own: Owners, b: nat, level: nat, va: nat)
    requires level <= 4
  {
    b in own && own[b] == Slot(level, PageNo(va, level + 1))
  }

  lemma ServesChild(mem: Memory, own: Owners, b: nat, level: nat, va: nat)
    requires Tree(mem, own) && level <= 4 && Serves(own, b, level, va)
    ensures b in mem
    ensures Links(mem[b][Index(va, level)], level) ==>
              Serves(own, mem[b][Index(va, level)].addr, level - 1, va)
  {
    PageNoStep(va, level);
    var i := Index(va, level);
    if Links(mem[b][i], level) {
      assert Child(mem[b][i].addr, own, level - 1, own[b].page * 512 + i);
    }
  }

  /** A change confined to table a that does not change the translation from a
      on does not change the translation from any other table. */
  lemma {:induction false} LocalChange(mem: Memory, mem': Memory, own: Owners, a: nat, b: nat, level: nat, va: nat)
    requires Tree(mem, own) && level <= 4 && Serves(own, b, level, va) && a in own
    requires forall c :: c in own && c != a ==> c in mem' && mem'[c] == mem[c]
    requires var l := own[a].level;
             Serves(own, a, l, va) ==> Walk(mem', l, a, va) == Walk(mem, l, a, va)
    ensures Walk(mem', level, b, va) == Walk(mem, level, b, va)
    decreases level
  {
    if b != a {
      ServesChild(mem, own, b, level, va);
      var e := mem[b][Index(va, level)];
      if Links(e, level) {
        LocalChange(mem, mem', own, a, e.addr, level - 1, va);
      }
    }
  }

  /** Tables below the level of a do not see a change of a. */
  lemma {:induction false} BelowSame(mem: Memory, mem': Memory, own: Owners, a: nat, b: nat, level: nat, va: nat)
    requires Tree(mem, own) && level <= 4 && Serves(own, b, level, va) && a in own && level < own[a].level
    requires forall c :: c in own && c != a ==> c in mem' && mem'[c] == mem[c]
    ensures Walk(mem', level, b, va) == Walk(mem, level, b, va)
    decreases level
  {
    ServesChild(mem, own, b, level, va);
    var e := mem[b][Index(va, level)];
    if Links(e, level) {
      BelowSame(mem, mem', own, a, e.addr, level - 1, va);
    }
  }

  /** Changing one entry affects only the addresses of its page. */
  lemma EntryChange(mem: Memory, mem': Memory, own: Owners, a: nat, i: nat, e: Entry, va: nat)
    requires Tree(mem, own) && a in own && i < 512
    requires forall c :: c in own ==> c in mem' && mem'[c] == if c == a then mem[a][i := e] else mem[c]
    requires var l := own[a].level; Serves(own, a, l, va) && Index(va, l) != i
    ensures var l := own[a].level; Walk(mem', l, a, va) == Walk(mem, l, a, va)
  {
    var l := own[a].level;
    ServesChild(mem, own, a, l, va);
    var x := mem[a][Index(va, l)];
    if Links(x, l) {
      BelowSame(mem, mem', own, a, x.addr, l - 1, va);
    }
  }

  // ----- paths

  /** Walking va from table b at a level arrives at table a. */
  ghost predicate Reaches(mem: Memory, level: nat, b: nat, va: nat, target: nat, a: nat)
    requires target <= level <= 4
    decreases level
  {
    if level == target then a == b
    else
      && b in mem
      && var e := mem[b][Index(va, level)];
         Links(e, level) && Reaches(mem, level - 1, e.addr, va, target, a)
  }

  /** The rights along the path from b down to, but not including, the target. */
  ghost function PathRights(mem: Memory, level: nat, b: nat, va: nat, target: nat): Rights
    requires target <= level <= 4
    decreases level
  {
    if level == target || b !in mem then Rights(true, true, false)
    else
      var e := mem[b][Index(va, level)];
      Both(RightsOf(e.flags), PathRights(mem, level - 1, e.addr, va, target))
  }

  /** A translation is the translation from any table on the path, with the
      rights of the path above it. */
  lemma {:induction false} WalkThrough(mem: Memory, level: nat, b: nat, va: nat, target: nat, a: nat)
    requires target <= level <= 4 && Reaches(mem, level, b, va, target, a)
    ensures var x := Walk(mem, target, a, va);
            Walk(mem, level, b, va) ==
              if x.None? then None
              else Some(Leaf(x.value.phys, Both(PathRights(mem, level, b, va, target), x.value.rights)))
    decreases level
  {
    if level > target {
      var e := mem[b][Index(va, level)];
      WalkThrough(mem, level - 1, e.addr, va, target, a);
    }
  }

  /** Addresses on the same page at the level above the target share the path. */
  lemma {:induction false} SamePath(mem: Memory, level: nat, b: nat, va: nat, va': nat, target: nat, a: nat)
    requires target <= level <= 4 && PageNo(va, target + 1) == PageNo(va', target + 1)
    ensures Reaches(mem, level, b, va, target, a) <==> Reaches(mem, level, b, va', target, a)
    ensures PathRights(mem, level, b, va, target) == PathRights(mem, level, b, va', target)
    decreases level
  {
    if level > target && b in mem {
      SamePageAbove(va, va', target + 1, level);
      SamePath(mem, level - 1, mem[b][Index(va, level)].addr, va, va', target, a);
    }
  }

  lemma {:induction false} SamePageAbove(va: nat, va': nat, lo: nat, hi: nat)
    requires lo <= hi <= 4 && PageNo(va, lo) == PageNo(va', lo)
    ensures PageNo(va, hi) == PageNo(va', hi) && Index(va, hi) == Index(va', hi)
    decreases hi - lo
  {
    if lo < hi {
      PageNoStep(va, lo);
      PageNoStep(va', lo);
      SamePageAbove(va, va', lo + 1, hi);
    }
  }
}
