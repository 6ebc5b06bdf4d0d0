/** The page-table walks and the map and unmap operations for 4 KB, 2 MB and
    1 GB pages. TLB flushes are not part of the model. */
module Paging {
  import opened PageTable
  import opened PageSpace
  import opened PageSight

  /** How far a walk for va has come: at `table`, on some level, with nothing
      translated differently than at the start, and the rights of the path
      made so far and still to be made adding up to the expected ones. */
  ghost predicate Walking(s0: Space, s: Space, va: nat, level: nat, target: nat, table: nat)
    requires s0.top <= 4 && target <= level <= s0.top && target <= 2
  {
    match s
    case Space(mem, own, root, top) =>
      && SpaceOk(s) && root == s0.root && top == s0.top && SameTrans(s0, s)
      && InSpace(s, va) && Serves(own, table, level, va)
      && Reaches(mem, top, root, va, level, table)
      && Both(PathRights(mem, top, root, va, level), PathAfter(mem, level, table, va, target))
           == PathAfter(s0.mem, top, root, va, target)
      && (Smooth(s0, va, target) ==> SameSight(s0, s)) && FlagsKept(s0, s)
  }

  lemma WalkingStart(s: Space, va: nat, target: nat)
    requires SpaceOk(s) && s.top <= 4 && target <= 2 && InSpace(s, va)
    ensures Walking(s, s, va, s.top, target, s.root)
  {
    RootServes(s, va);
  }

  /** The table of a walk can be read and written. */
  lemma WalkingTable(s0: Space, s: Space, va: nat, level: nat, target: nat, table: nat)
    requires s0.top <= 4 && target <= level <= s0.top && target <= 2
    requires Walking(s0, s, va, level, target, table)
    ensures SpaceOk(s) && table in s.mem && table in s.own && s.own[table] == Slot(level, PageNo(va, level + 1))
  {
    ServesChild(s.mem, s.own, table, level, va);
  }

  lemma WalkingLink(s0: Space, s: Space, va: nat, level: nat, target: nat, table: nat)
    requires s0.top <= 4 && target < level <= s0.top && target <= 2
    requires Walking(s0, s, va, level, target, table)
    requires table in s.mem && Links(s.mem[table][Index(va, level)], level)
    ensures Walking(s0, s, va, level - 1, target, s.mem[table][Index(va, level)].addr)
  {
    ServesChild(s.mem, s.own, table, level, va);
    PathExtend(s.mem, s.top, s.root, va, level, table);
  }

  /** The rights still to come below a table without links. */
  ghost function RestAfter(t: Table, level: nat, va: nat, target: nat): Rights
    requires level <= 4
  {
    var e := t[Index(va, level)];
    if level == target then Rights(true, true, false)
    else if e.flags.present then RightsOf(e.flags) else RightsOf(TABLE_FLAGS)
  }

  lemma LoneTable(mem: Memory, level: nat, c: nat, va: nat, target: nat)
    requires target <= level <= 4 && c in mem && !Links(mem[c][Index(va, level)], level)
    ensures PathAfter(mem, level, c, va, target) == RestAfter(mem[c], level, va, target)
  {
  }

  /** Stepping into a table that was just put under the current one. */
  lemma WalkingNew(s0: Space, s: Space, va: nat, level: nat, target: nat, table: nat,
                   c: nat, flags: Flags, t: Table)
    requires s0.top <= 4 && target < level <= s0.top && target <= 2
    requires Walking(s0, s, va, level, target, table)
    requires table in s.own && table in s.mem && s.own[table] == Slot(level, PageNo(va, level + 1)) && c !in s.own
    requires var s' := WithTable(s, table, Index(va, level), c, flags, t);
             SpaceOk(s') && s.top <= 4 && SameTrans(s, s') && (Smooth(s0, va, target) ==> SameSight(s, s'))
             && FlagsKept(s, s')
    requires flags.present && !flags.huge && !Links(t[Index(va, level - 1)], level - 1)
    requires Both(RightsOf(flags), RestAfter(t, level - 1, va, target)) == PathAfter(s.mem, level, table, va, target)
    ensures Walking(s0, WithTable(s, table, Index(va, level), c, flags, t), va, level - 1, target, c)
  {
    hide Walk, See, PathRights, Reaches, Size, Index, PathAfter, RestAfter;
    var i := Index(va, level);
    var s' := WithTable(s, table, i, c, flags, t);
    if Smooth(s0, va, target) {
      SameSightChain(s0, s, s');
    }
    FlagsKeptChain(s0, s, s');
    RootServes(s, va);
    PathStable(s.mem, s'.mem, s.own, s.top, s.root, va, table);
    PathExtend(s'.mem, s.top, s.root, va, level, table);
    PageNoStep(va, level);
    SameTransChain(s0, s, s');
    LoneTable(s'.mem, level - 1, c, va, target);
  }

  lemma SameTransChain(s0: Space, s: Space, s': Space)
    requires s0.top == s.top == s'.top <= 4 && SameTrans(s0, s) && SameTrans(s, s')
    ensures SameTrans(s0, s')
  {
    forall va | InSpace(s0, va)
      ensures Trans(s', va) == Trans(s0, va)
    {
      assert Trans(s, va) == Trans(s0, va);
    }
  }

  lemma WalkingAdd(s0: Space, s: Space, va: nat, level: nat, target: nat, table: nat, c: nat)
    requires s0.top <= 4 && target < level <= s0.top && target <= 2
    requires Walking(s0, s, va, level, target, table) && c !in s.own
    requires table in s.own && table in s.mem && s.own[table] == Slot(level, PageNo(va, level + 1))
    requires !s.mem[table][Index(va, level)].flags.present
    ensures Walking(s0, WithTable(s, table, Index(va, level), c, TABLE_FLAGS, EmptyTable()), va, level - 1, target, c)
  {
    hide SameTrans, SameSight, FlagsKept, Smooth, Tree, Walk, Reaches, Index;
    AddTableKeeps(s, table, Index(va, level), c);
    SightAdd(s, table, Index(va, level), c);
    SameFlags(s, WithTable(s, table, Index(va, level), c, TABLE_FLAGS, EmptyTable()));
    assert PathAfter(s.mem, level, table, va, target) == RightsOf(TABLE_FLAGS);
    hide Walking, PathAfter;
    WalkingNew(s0, s, va, level, target, table, c, TABLE_FLAGS, EmptyTable());
  }

  lemma WalkingSplit(s0: Space, s: Space, va: nat, level: nat, target: nat, table: nat, c: nat)
    requires s0.top <= 4 && target < level <= s0.top && target <= 2
    requires Walking(s0, s, va, level, target, table) && c !in s.own
    requires table in s.own && table in s.mem && s.own[table] == Slot(level, PageNo(va, level + 1))
    requires var e := s.mem[table][Index(va, level)]; e.flags.present && e.flags.huge
    ensures var e := s.mem[table][Index(va, level)];
            Walking(s0, WithTable(s, table, Index(va, level), c, SplitFlags(e.flags), SplitTable(e, level)),
                    va, level - 1, target, c)
  {
    hide SameTrans, SameSight, FlagsKept, Smooth, Tree, Walk, Reaches, Index, SplitTable, AlignDown, Size;
    NotSmooth(s, level, table, va, target);
    SplitFlagsKept(s, va, level, table, c);
    if Smooth(s0, va, target) {
      SmoothSame(s0, s, va, target);
      assert false;
    }
    var e := s.mem[table][Index(va, level)];
    SplitKeeps(s, table, Index(va, level), c);
    SplitTableAt(e, level, Index(va, level - 1));
    assert PathAfter(s.mem, level, table, va, target) == RightsOf(e.flags);
    hide Walking, PathAfter;
    WalkingNew(s0, s, va, level, target, table, c, SplitFlags(e.flags), SplitTable(e, level));
  }

  /** Every table between b and the target is there already. */
  ghost predicate PathPresent(mem: Memory, level: nat, b: nat, va: nat, target: nat)
    requires target <= level <= 4
    decreases level
  {
    level == target ||
    (b in mem && var e := mem[b][Index(va, level)];
                 Links(e, level) && PathPresent(mem, level - 1, e.addr, va, target))
  }

  ghost predicate PoolOk(pool: seq<nat>, own: Owners)
  {
    && (forall i :: 0 <= i < |pool| ==> pool[i] != 0 && pool[i] !in own)
    && (forall i, j :: 0 <= i < j < |pool| ==> pool[i] != pool[j])
  }

  /** At most n pages were taken from the front of the pool, and all new tables
      are pages of the pool. */
  ghost predicate Taken(own: Owners, pool: seq<nat>, own': Owners, pool': seq<nat>, n: nat) {
    && |pool'| <= |pool| <= |pool'| + n && pool' == pool[|pool| - |pool'|..]
    && forall a :: a in own' ==> a in own || a in pool
  }

  lemma NoneTaken(own: Owners, pool: seq<nat>, n: nat)
    ensures Taken(own, pool, own, pool, n)
  {
  }

  lemma TakenMore(own: Owners, pool: seq<nat>, own': Owners, pool': seq<nat>, n: nat, k: nat)
    requires Taken(own, pool, own', pool', n) && n <= k
    ensures Taken(own, pool, own', pool', k)
  {
  }

  lemma TakenCount(own: Owners, pool: seq<nat>, own': Owners, pool': seq<nat>, n: nat)
    requires Taken(own, pool, own', pool', n)
    ensures |pool'| <= |pool| <= |pool'| + n
  {
  }

  lemma TakenOne(own: Owners, pool: seq<nat>, own': Owners, pool': seq<nat>, next: Owners, n: nat)
    requires Taken(own, pool, own', pool', n) && pool' != []
    requires forall b :: b in next ==> b in own' || b == pool'[0]
    ensures Taken(own, pool, next, pool'[1..], n + 1)
  {
    assert pool'[0] == pool[|pool| - |pool'|];
  }

  /** A walk that cannot get past its table. */
  lemma WalkingStuck(s0: Space, s: Space, va: nat, level: nat, target: nat, table: nat)
    requires s0.top <= 4 && target < level <= s0.top && target <= 2
    requires Walking(s0, s, va, level, target, table)
    requires table in s.mem && !Links(s.mem[table][Index(va, level)], level)
    ensures s.top <= 4 && AllOrNone(s, va, target) && (Smooth(s0, va, target) ==> SameSight(s0, s))
    ensures FlagsKept(s0, s)
  {
    hide Walk, See, Reaches, PathRights, PathAfter, Tree, Index, Size;
    Stuck(s, level, table, va, target);
  }

  /** The walk with what it has taken from the pool; without `allocate`, or when
      all its tables are there, nothing has changed at all. */
  ghost predicate OnWay(s0: Space, p0: seq<nat>, s: Space, pool: seq<nat>, va: nat, level: nat, target: nat, table: nat,
                        allocate: bool)
    requires s0.top <= 4 && target <= level <= s0.top && target <= 2
  {
    && Walking(s0, s, va, level, target, table) && Taken(s0.own, p0, s.own, pool, s0.top - level)
    && Still(s0, p0, s, pool, va, level, target, table, allocate)
  }

  ghost predicate Still(s0: Space, p0: seq<nat>, s: Space, pool: seq<nat>, va: nat, level: nat, target: nat, table: nat,
                        allocate: bool)
    requires s0.top <= 4 && target <= level <= s0.top && target <= 2
  {
    !allocate || PathPresent(s0.mem, s0.top, s0.root, va, target) ==>
      && s == s0 && pool == p0
      && PathPresent(s.mem, level, table, va, target) == PathPresent(s0.mem, s0.top, s0.root, va, target)
  }

  lemma StillLink(s0: Space, p0: seq<nat>, s: Space, pool: seq<nat>, va: nat, level: nat, target: nat, table: nat,
                  allocate: bool)
    requires s0.top <= 4 && target < level <= s0.top && target <= 2
    requires Still(s0, p0, s, pool, va, level, target, table, allocate)
    requires table in s.mem && Links(s.mem[table][Index(va, level)], level)
    ensures Still(s0, p0, s, pool, va, level - 1, target, s.mem[table][Index(va, level)].addr, allocate)
  {
    PresentStep(s.mem, level, table, va, target);
    hide PathPresent, Index;
  }

  lemma OnWayStart(s0: Space, p0: seq<nat>, va: nat, target: nat, allocate: bool)
    requires SpaceOk(s0) && s0.top <= 4 && target <= 2 && InSpace(s0, va)
    ensures OnWay(s0, p0, s0, p0, va, s0.top, target, s0.root, allocate)
  {
    hide Walking, PathPresent, SpaceOk, InSpace;
    WalkingStart(s0, va, target);
    NoneTaken(s0.own, p0, 0);
  }

  lemma OnWayHere(s0: Space, p0: seq<nat>, s: Space, pool: seq<nat>, va: nat, level: nat, target: nat, table: nat,
                  allocate: bool)
    requires s0.top <= 4 && target < level <= s0.top && target <= 2
    requires OnWay(s0, p0, s, pool, va, level, target, table, allocate)
    ensures Walking(s0, s, va, level, target, table) && table in s.mem
  {
    hide Walking, PathPresent, Taken;
    WalkingTable(s0, s, va, level, target, table);
  }

  lemma OnWayLink(s0: Space, p0: seq<nat>, s: Space, pool: seq<nat>, va: nat, level: nat, target: nat, table: nat,
                  allocate: bool)
    requires s0.top <= 4 && target < level <= s0.top && target <= 2
    requires OnWay(s0, p0, s, pool, va, level, target, table, allocate)
    requires table in s.mem && Links(s.mem[table][Index(va, level)], level)
    ensures OnWay(s0, p0, s, pool, va, level - 1, target, s.mem[table][Index(va, level)].addr, allocate)
  {
    hide Walking, Taken, Still, Index;
    WalkingLink(s0, s, va, level, target, table);
    StillLink(s0, p0, s, pool, va, level, target, table, allocate);
    TakenMore(s0.own, p0, s.own, pool, s0.top - level, s0.top - level + 1);
  }

  lemma OnWayNew(s0: Space, p0: seq<nat>, s: Space, p: seq<nat>, s': Space, va: nat, level: nat, target: nat,
                 table: nat, c: nat)
    requires s0.top <= 4 && target < level <= s0.top && target <= 2
    requires OnWay(s0, p0, s, p, va, level, target, table, true) && p != []
    requires table in s.mem && !Links(s.mem[table][Index(va, level)], level)
    requires Walking(s0, s', va, level - 1, target, c) && forall b :: b in s'.own ==> b in s.own || b == p[0]
    ensures OnWay(s0, p0, s', p[1..], va, level - 1, target, c, true)
  {
    hide Walking, PathPresent, Taken, Index, Links;
    PresentStep(s.mem, level, table, va, target);
    TakenOne(s0.own, p0, s.own, p, s'.own, s0.top - level);
  }

  lemma OnWayStuck(s0: Space, p0: seq<nat>, s: Space, pool: seq<nat>, va: nat, level: nat, target: nat, table: nat,
                   allocate: bool)
    requires s0.top <= 4 && target < level <= s0.top && target <= 2
    requires OnWay(s0, p0, s, pool, va, level, target, table, allocate)
    requires table in s.mem && !Links(s.mem[table][Index(va, level)], level)
    ensures s.top <= 4 && SameTrans(s0, s) && AllOrNone(s, va, target) && (Smooth(s0, va, target) ==> SameSight(s0, s))
    ensures FlagsKept(s0, s)
    ensures Taken(s0.own, p0, s.own, pool, s0.top - target) && !PathPresent(s0.mem, s0.top, s0.root, va, target)
    ensures !allocate ==> s == s0 && pool == p0
  {
    hide Walking, PathPresent, Taken, Index, Links;
    WalkingStuck(s0, s, va, level, target, table);
    WalkingSame(s0, s, va, level, target, table);
    PresentStep(s.mem, level, table, va, target);
    TakenMore(s0.own, p0, s.own, pool, s0.top - level, s0.top - target);
  }

  lemma OnWayEnd(s0: Space, p0: seq<nat>, s: Space, pool: seq<nat>, va: nat, target: nat, table: nat, allocate: bool)
    requires s0.top <= 4 && target <= s0.top && target <= 2
    requires OnWay(s0, p0, s, pool, va, target, target, table, allocate)
    ensures s.top <= 4 && SameTrans(s0, s) && Walking(s0, s, va, target, target, table)
    ensures (Smooth(s0, va, target) ==> SameSight(s0, s))
    ensures FlagsKept(s0, s)
    ensures Taken(s0.own, p0, s.own, pool, s0.top - target)
    ensures !allocate || PathPresent(s0.mem, s0.top, s0.root, va, target) ==>
              s == s0 && pool == p0 && PathPresent(s0.mem, s0.top, s0.root, va, target)
  {
    hide Walking, Taken;
    WalkingSame(s0, s, va, target, target, table);
    PresentHere(s.mem, target, table, va);
  }

  /** An address mapped at or below the target has its tables down to there. */
  lemma {:induction false} HitPresent(mem: Memory, level: nat, b: nat, va: nat, target: nat)
    requires target <= level <= 4
    requires var x := See(mem, level, b, va).found; x.Some? && x.value.level <= target
    ensures PathPresent(mem, level, b, va, target)
    decreases level
  {
    if level > target {
      HitPresent(mem, level - 1, mem[b][Index(va, level)].addr, va, target);
    }
  }

  class AddressSpace {
    const root: nat
    const top: nat
    var mem: Memory
    /** The pages the physical allocator will hand out, in order. */
    var pool: seq<nat>
    ghost var own: Owners

    ghost function View(): Space
      reads this
    {
      Space(mem, own, root, top)
    }

    ghost predicate Valid()
      reads this
    {
      (top == 3 || top == 4) && SpaceOk(View()) && PoolOk(pool, own)
    }

    /** A root table with no entries. */
    constructor (rootPage: nat, level: nat, pages: seq<nat>)
      requires level == 4 || level == 5
      requires PoolOk(pages, map[rootPage := Slot(level - 1, 0)])
      ensures Valid() && root == rootPage && top == level - 1 && pool == pages
      ensures mem == map[rootPage := EmptyTable()] && own == map[rootPage := Slot(level - 1, 0)]
      ensures forall va :: InSpace(View(), va) ==> Trans(View(), va) == None
    {
      root, top := rootPage, level - 1;
      mem := map[rootPage := EmptyTable()];
      pool := pages;
      own := map[rootPage := Slot(level - 1, 0)];
    }

    /** pma_alloc_pages(1): 0 when there is no page left. */
    method AllocPage() returns (c: nat)
      requires Valid()
      modifies this`pool
      ensures c == 0 <==> old(pool) == []
      ensures Valid() && (c != 0 ==> c == old(pool)[0] && c !in own && c !in pool)
      ensures pool == if c == 0 then [] else old(pool)[1..]
    {
      hide SpaceOk;
      if pool == [] {
        return 0;
      }
      c := pool[0];
      pool := pool[1..];
    }

    /** Fill a new table with the parts of a huge page. */
    method FillSplit(e: Entry, level: nat) returns (t: Table)
      requires 1 <= level <= 4
      ensures t == SplitTable(e, level)
    {
      var base := AlignDown(e.addr, level);
      var size := Size(level - 1);
      t := EmptyTable();
      var i := 0;
      while i < 512
        invariant i <= 512
        invariant forall k :: 0 <= k < i ==> t[k] == SubEntry(e, level, k)
      {
        t := t[i := Entry(e.flags.(huge := false, global := false), base + i * size)];
        if level > 1 {
          t := t[i := t[i].(flags := t[i].flags.(huge := true))];
        }
        i := i + 1;
      }
      assert t == SplitTable(e, level);
    }

    /** The allocating branches of walk_to_level: an absent entry gets an empty
        table, a huge page a table of its parts. 0 when no page is left. */
    method NewTable(va: nat, level: nat, target: nat, table: nat, ghost s0: Space) returns (c: nat)
      requires Valid() && s0.top == top && target < level <= top && target <= 2
      requires Walking(s0, View(), va, level, target, table) && table in mem
      requires !Links(mem[table][Index(va, level)], level)
      modifies this
      ensures Valid()
      ensures c == 0 <==> old(pool) == []
      ensures c == 0 ==> View() == old(View()) && pool == []
      ensures c != 0 ==> Walking(s0, View(), va, level - 1, target, c) && pool == old(pool)[1..]
      ensures c != 0 ==> forall b :: b in own ==> b in old(own) || b == old(pool)[0]
    {
      hide SpaceOk, SameTrans, SameSight, FlagsKept, Smooth, Walking, InSpace, WithTable, SplitTable, EmptyTable,
        Index, Links;
      ghost var s := View();
      WalkingTable(s0, s, va, level, target, table);
      LinksIff(mem[table][Index(va, level)], level);
      var i := Index(va, level);
      var e := mem[table][i];
      c := AllocPage();
      if c == 0 {
        return;
      }
      if !e.flags.present {
        WalkingAdd(s0, s, va, level, target, table, c);
        WalkingSame(s0, WithTable(s, table, i, c, TABLE_FLAGS, EmptyTable()), va, level - 1, target, c);
        LinkTable(table, i, c, TABLE_FLAGS, EmptyTable());
      } else {
        WalkingSplit(s0, s, va, level, target, table, c);
        var t := FillSplit(e, level);
        WalkingSame(s0, WithTable(s, table, i, c, SplitFlags(e.flags), t), va, level - 1, target, c);
        LinkTable(table, i, c, SplitFlags(e.flags), t);
      }
    }

    /** walk_to_level: the table that serves va at the target level. With
        `allocate`, missing tables are added and huge pages split on the way;
        a walk that stops early has still changed no translation, and no flag but
        the global one of a page it split. Where nothing is split, the huge pages
        stay as well. */
    method WalkToLevel(va: nat, target: nat, allocate: bool) returns (ok: bool, table: nat)
      requires Valid() && InSpace(View(), va) && target <= 2
      modifies this
      ensures Valid() && SameTrans(old(View()), View()) && FlagsKept(old(View()), View())
      ensures ok ==> Walking(old(View()), View(), va, target, target, table)
      ensures !allocate ==> View() == old(View()) && pool == old(pool)
      ensures !allocate ==> (ok <==> PathPresent(old(mem), top, root, va, target))
      ensures allocate && !ok ==> pool == [] && AllOrNone(View(), va, target)
      ensures Smooth(old(View()), va, target) ==> SameSight(old(View()), View())
      ensures Taken(old(own), old(pool), own, pool, top - target)
      ensures PathPresent(old(mem), top, root, va, target) ==> ok && View() == old(View()) && pool == old(pool)
    {
      hide SpaceOk, SameTrans, SameSight, FlagsKept, Smooth, AllOrNone, Walking, InSpace, Index, Links, Taken,
        PathPresent,
        PoolOk, OnWay;
      ghost var s0, p0 := View(), pool;
      OnWayStart(s0, p0, va, target, allocate);
      table := root;
      var level := top;
      while level > target
        invariant target <= level <= top && Valid()
        invariant OnWay(s0, p0, View(), pool, va, level, target, table, allocate)
      {
        ghost var s, p := View(), pool;
        OnWayHere(s0, p0, s, p, va, level, target, table, allocate);
        var e := mem[table][Index(va, level)];
        LinksIff(e, level);
        if !e.flags.present || e.flags.huge {
          OnWayStuck(s0, p0, s, p, va, level, target, table, allocate);
          if !allocate {
            return false, 0;
          }
          var c := NewTable(va, level, target, table, s0);
          if c == 0 {
            return false, 0;
          }
          OnWayNew(s0, p0, s, p, View(), va, level, target, table, c);
          table := c;
        } else {
          OnWayLink(s0, p0, s, p, va, level, target, table, allocate);
          table := e.addr;
        }
        level := level - 1;
      }
      OnWayEnd(s0, p0, View(), pool, va, target, table, allocate);
      ok := true;
    }

    /** Write the new table, then the entry that points to it. */
    method LinkTable(a: nat, i: nat, c: nat, flags: Flags, t: Table)
      requires Valid() && a in own && a in mem && i < 512 && own[a].level > 0 && c !in pool && c !in own
      requires SpaceOk(WithTable(View(), a, i, c, flags, t))
      modifies this`mem, this`own
      ensures Valid() && View() == WithTable(old(View()), a, i, c, flags, t)
      ensures forall b :: b in own ==> b in old(own) || b == c
    {
      hide SpaceOk;
      mem := mem[c := t];
      mem := mem[a := mem[a][i := Entry(flags, c)]];
      own := own[c := Slot(own[a].level - 1, own[a].page * 512 + i)];
    }

    /** paging_map_page, paging_map_2mb and paging_map_1gb, at levels 0, 1 and 2.
        The source returns nothing; the result says whether it wrote the entry.
        Bit 63 of the physical address lands in the entry's no-execute bit. */
    method Map(level: nat, virt: nat, phys: nat, flags: Flags) returns (ok: bool)
      requires Valid() && InSpace(View(), virt) && level <= 2
      modifies this
      ensures Valid()
      ensures ok ==> MapsPage(old(View()), View(), level, virt, phys % BIT63, MapFlags(phys, flags))
      ensures ok && Smooth(old(View()), virt, level) ==>
                MapsSight(old(View()), View(), level, virt, PageEntry(level, phys % BIT63, MapFlags(phys, flags)))
      ensures ok ==> PageAsked(old(View()), View(), level, virt, phys % BIT63, MapFlags(phys, flags))
      ensures ok && phys < BIT63 ==> PageAsked(old(View()), View(), level, virt, phys, flags)
      ensures ok && BIT63 <= phys < 2 * BIT63 ==>
                PageAsked(old(View()), View(), level, virt, phys - BIT63, flags.(nx := true))
      ensures !ok ==> SameTrans(old(View()), View()) && FlagsKept(old(View()), View())
      ensures !ok ==> pool == [] && AllOrNone(View(), virt, level)
      ensures !ok && Smooth(old(View()), virt, level) ==> SameSight(old(View()), View())
      ensures Taken(old(own), old(pool), own, pool, top - level)
      ensures PathPresent(old(mem), top, root, virt, level) ==> ok && own == old(own) && pool == old(pool)
    {
      hide SpaceOk, SameTrans, SameSight, FlagsKept, Smooth, AllOrNone, Walking, InSpace, MapsPage, MapsSight,
        PageAsked, Index,
        AlignDown, Taken, PathPresent;
      ghost var s0 := View();
      OneBit(phys, flags);
      var table;
      ok, table := WalkToLevel(virt, level, true);
      if !ok {
        return;
      }
      WalkingTable(s0, View(), virt, level, level, table);
      var e := PageEntry(level, phys % BIT63, MapFlags(phys, flags));
      MapEffect(s0, View(), level, virt, phys % BIT63, MapFlags(phys, flags), table);
      MapAsked(s0, View(), level, virt, phys % BIT63, MapFlags(phys, flags), table);
      if Smooth(s0, virt, level) {
        MapSeen(s0, View(), level, virt, e, table);
      }
      mem := mem[table := mem[table][Index(virt, level) := e]];
    }

    /** paging_unmap_page, paging_unmap_2mb and paging_unmap_1gb. */
    method Unmap(level: nat, virt: nat)
      requires Valid() && InSpace(View(), virt) && level <= 2
      modifies this
      ensures Valid() && pool == old(pool)
      ensures if PathPresent(old(mem), top, root, virt, level)
              then UnmapsPage(old(View()), View(), level, virt)
              else View() == old(View())
    {
      hide SpaceOk, SameTrans, Walking, InSpace, UnmapsPage, Index, PathPresent;
      ghost var s0 := View();
      var ok, table := WalkToLevel(virt, level, false);
      if !ok {
        return;
      }
      WalkingTable(s0, View(), virt, level, level, table);
      UnmapEffect(s0, level, virt, table);
      if mem[table][Index(virt, level)].flags.present {
        mem := mem[table := mem[table][Index(virt, level) := ZERO]];
      }
    }

    /** paging_get_phys: 0 for an address that is not mapped. For a huge page the
        no-execute bit of its entry stays in the result. */
    method GetPhys(va: nat) returns (phys: nat)
      requires Valid() && InSpace(View(), va)
      ensures phys == match SightOf(View(), va).found case None => 0 case Some(h) => RawPhys(h, va)
      ensures phys == match Trans(View(), va)
                      case None => 0
                      case Some(x) => x.phys + if HugeNx(View(), va) then BIT63 else 0
    {
      hide Walk, See, AlignDown, Index;
      RootServes(View(), va);
      SightTranslates(mem, top, root, va);
      var table, level := root, top;
      while level > 0
        invariant 0 <= level <= top && Serves(own, table, level, va)
        invariant See(mem, level, table, va).found == SightOf(View(), va).found
      {
        ServesChild(mem, own, table, level, va);
        SeeStep(mem, level, table, va);
        var e := mem[table][Index(va, level)];
        if !e.flags.present {
          return 0;
        }
        if e.flags.huge {
          return AlignDown(e.addr, level) + va % Size(level) + if e.flags.nx then BIT63 else 0;
        }
        table := e.addr;
        level := level - 1;
      }
      ServesChild(mem, own, table, 0, va);
      SeeStep(mem, 0, table, va);
      var e := mem[table][Index(va, 0)];
      if !e.flags.present {
        return 0;
      }
      return AlignDown(e.addr, 0) + va % Size(0);
    }

    /** paging_get_pte without allocation: the last-level entry of an address,
        if its table is there. */
    method GetPte(va: nat) returns (e: Option<Entry>)
      requires Valid() && InSpace(View(), va)
      modifies this
      ensures View() == old(View()) && pool == old(pool)
      ensures match SightOf(View(), va).found
              case None => e.Some? ==> !e.value.flags.present
              case Some(h) => e == if h.level == 0 then Some(h.entry) else None
    {
      hide SpaceOk, Walking, Index, PathPresent, See;
      ghost var s := View();
      var ok, table := WalkToLevel(va, 0, false);
      if !ok {
        if SightOf(s, va).found.Some? && SightOf(s, va).found.value.level == 0 {
          HitPresent(mem, top, root, va, 0);
        }
        return None;
      }
      WalkingTable(s, s, va, 0, 0, table);
      WalkingSees(s, s, va, 0, table);
      return Some(mem[table][Index(va, 0)]);
    }
  }

  const BIT63: nat := 0x8000_0000_0000_0000

  /** The flags of an entry once a physical address is or-ed in. */
  function MapFlags(phys: nat, flags: Flags): Flags {
    if phys / BIT63 % 2 == 1 then flags.(nx := true) else flags
  }

  lemma OneBit(phys: nat, flags: Flags)
    ensures phys < BIT63 ==> phys % BIT63 == phys && MapFlags(phys, flags) == flags
    ensures BIT63 <= phys < 2 * BIT63 ==>
              phys % BIT63 == phys - BIT63 && MapFlags(phys, flags) == flags.(nx := true)
  {
  }

  /** The address paging_get_phys computes from the entry that maps va. */
  function RawPhys(h: Hit, va: nat): nat
    requires h.level <= 4
  {
    AlignDown(h.entry.addr, h.level) + va % Size(h.level) + if h.level > 0 && h.entry.flags.nx then BIT63 else 0
  }

  /** The address is mapped by a huge page that is not executable. */
  ghost predicate HugeNx(s: Space, va: nat)
    requires s.top <= 4
  {
    match SightOf(s, va).found
    case None => false
    case Some(h) => h.level > 0 && h.entry.flags.nx
  }

  /** The table a walk arrived at decides what the address sees. */
  lemma WalkingSees(s0: Space, s: Space, va: nat, level: nat, table: nat)
    requires s0.top <= 4 && level <= 2 && level <= s0.top && Walking(s0, s, va, level, level, table) && table in s.mem
    requires !Links(s.mem[table][Index(va, level)], level)
    ensures s.top <= 4 && SightOf(s, va).found == Ends(s.mem[table][Index(va, level)], level).found
  {
    hide See, Reaches, PlainPath, Tree, Walk, PathRights, PathAfter;
    StuckAt(s, level, table, va, va);
  }

  /** Exactly the addresses of one page see the new entry. */
  ghost predicate MapsSight(s0: Space, s: Space, level: nat, virt: nat, e: Entry)
    requires s0.top <= 4 && s.top <= 4 && level <= 2
  {
    forall va: nat :: InSpace(s0, va) ==> SeesEntry(s0, s, level, virt, e, va)
  }

  ghost predicate SeesEntry(s0: Space, s: Space, level: nat, virt: nat, e: Entry, va: nat)
    requires s0.top <= 4 && s.top <= 4 && level <= 2
  {
    if PageNo(va, level) != PageNo(virt, level) then SightOf(s, va) == SightOf(s0, va)
    else SightOf(s, va).found == Ends(e, level).found && (SightOf(s0, virt).plain ==> SightOf(s, va).plain)
  }

  /** Every address of the page ends at an entry as asked for, and all others keep
      their flags. */
  ghost predicate PageAsked(s0: Space, s: Space, level: nat, virt: nat, phys: nat, flags: Flags)
    requires s0.top <= 4 && s.top <= 4 && level <= 2
  {
    forall va: nat :: InSpace(s0, va) ==> AskedFor(s0, s, level, virt, phys, flags, va)
  }

  ghost predicate AskedFor(s0: Space, s: Space, level: nat, virt: nat, phys: nat, flags: Flags, va: nat)
    requires s0.top <= 4 && s.top <= 4 && level <= 2
  {
    var x := SightOf(s, va).found;
    if PageNo(va, level) != PageNo(virt, level) then FlagsKeptAt(SightOf(s0, va).found, x)
    else if !flags.present then x.None?
    else x.Some? && x.value.level == level && Asked(x.value.entry, level, phys, flags)
  }

  lemma MapAsked(s0: Space, s: Space, level: nat, virt: nat, phys: nat, flags: Flags, table: nat)
    requires s0.top <= 4 && level <= 2 && level <= s0.top && Walking(s0, s, virt, level, level, table) && table in s.mem
    ensures var s' := WithEntry(s, table, Index(virt, level), PageEntry(level, phys, flags));
            s'.top <= 4 && PageAsked(s0, s', level, virt, phys, flags)
  {
    var i, e := Index(virt, level), PageEntry(level, phys, flags);
    var s' := WithEntry(s, table, i, e);
    EntryAsked(level, phys, flags);
    hide Walk, See, Reaches, PathRights, PathAfter, AlignDown, Tree, Index, Size, PageEntry, Asked;
    SightElsewhere(s, table, i, e);
    forall va: nat | InSpace(s0, va)
      ensures AskedFor(s0, s', level, virt, phys, flags, va)
    {
      PageNoStep(virt, level);
      if PageNo(va, level) == PageNo(virt, level) {
        SightHere(s, table, e, virt, va);
      } else {
        assert !InSlot(s, table, i, va);
        assert FlagsKeptAt(SightOf(s0, va).found, SightOf(s, va).found);
      }
    }
  }

  lemma EntryAsked(level: nat, phys: nat, flags: Flags)
    requires level <= 2
    ensures var e := PageEntry(level, phys, flags);
            Asked(e, level, phys, flags) && e.flags.present == flags.present && !Links(e, level)
  {
    RoundedDown(phys, level);
    hide AlignDown, Size;
  }

  lemma RoundedDown(a: nat, level: nat)
    requires level <= 2
    ensures var r := AlignDown(a, level); r <= a < r + Size(level) && r % Size(level) == 0
  {
    AlignDownTwice(a, level);
  }

  lemma MapSeen(s0: Space, s: Space, level: nat, virt: nat, e: Entry, table: nat)
    requires s0.top <= 4 && level <= 2 && level <= s0.top && Walking(s0, s, virt, level, level, table)
    requires table in s.mem && Smooth(s0, virt, level) && !Links(e, level)
    ensures MapsSight(s0, WithEntry(s, table, Index(virt, level), e), level, virt, e)
  {
    var i := Index(virt, level);
    var s' := WithEntry(s, table, i, e);
    hide Walk, See, Reaches, PathRights, PathAfter, AlignDown, Tree, Index, Size;
    SightElsewhere(s, table, i, e);
    forall va: nat | InSpace(s0, va)
      ensures SeesEntry(s0, s', level, virt, e, va)
    {
      PageNoStep(virt, level);
      assert SightOf(s, va) == SightOf(s0, va);
      assert SightOf(s, virt) == SightOf(s0, virt);
      if PageNo(va, level) == PageNo(virt, level) {
        SightHere(s, table, e, virt, va);
      } else {
        assert !InSlot(s, table, i, va);
      }
    }
  }

  /** Exactly the addresses of one page change: they translate to the given
      physical page, or to nothing if the entry is not marked present, with
      the rights of the flags limited by those of the path. */
  ghost predicate MapsPage(s0: Space, s: Space, level: nat, virt: nat, phys: nat, flags: Flags)
    requires s0.top <= 4 && s.top <= 4 && level <= 2 && level <= s0.top
  {
    forall va: nat :: InSpace(s0, va) ==> Trans(s, va) == MappedTo(s0, level, virt, phys, flags, va)
  }

  ghost function MappedTo(s0: Space, level: nat, virt: nat, phys: nat, flags: Flags, va: nat): Option<Leaf>
    requires s0.top <= 4 && level <= 2 && level <= s0.top
  {
    if PageNo(va, level) != PageNo(virt, level) then Trans(s0, va)
    else if !flags.present then None
    else Some(Leaf(AlignDown(phys, level) + va % Size(level),
                   Both(PathAfter(s0.mem, s0.top, s0.root, virt, level), RightsOf(flags))))
  }

  function PageEntry(level: nat, phys: nat, flags: Flags): Entry
    requires level <= 2
  {
    Entry(if level == 0 then flags else flags.(huge := true), AlignDown(phys, level))
  }

  lemma MapEffect(s0: Space, s: Space, level: nat, virt: nat, phys: nat, flags: Flags, table: nat)
    requires s0.top <= 4 && level <= 2 && level <= s0.top && Walking(s0, s, virt, level, level, table)
    requires table in s.mem
    ensures var s' := WithEntry(s, table, Index(virt, level), PageEntry(level, phys, flags));
            SpaceOk(s') && MapsPage(s0, s', level, virt, phys, flags)
  {
    var i, e := Index(virt, level), PageEntry(level, phys, flags);
    hide Walk, Reaches, PathRights, PathAfter, AlignDown, Tree, Index, Size, MappedTo;
    WithEntryElsewhere(s, table, i, e);
    forall va: nat | InSpace(s0, va)
      ensures Trans(WithEntry(s, table, i, e), va) == MappedTo(s0, level, virt, phys, flags, va)
    {
      PageNoStep(virt, level);
      if PageNo(va, level) == PageNo(virt, level) {
        MapHere(s0, s, level, virt, phys, flags, table, va);
      } else {
        assert !InSlot(s, table, i, va);
        assert Trans(s, va) == Trans(s0, va);
        MapElsewhere(s0, level, virt, phys, flags, va);
      }
    }
  }

  lemma MapElsewhere(s0: Space, level: nat, virt: nat, phys: nat, flags: Flags, va: nat)
    requires s0.top <= 4 && level <= 2 && level <= s0.top && PageNo(va, level) != PageNo(virt, level)
    ensures MappedTo(s0, level, virt, phys, flags, va) == Trans(s0, va)
  {
  }

  lemma MapHere(s0: Space, s: Space, level: nat, virt: nat, phys: nat, flags: Flags, table: nat, va: nat)
    requires s0.top <= 4 && level <= 2 && level <= s0.top && Walking(s0, s, virt, level, level, table)
    requires table in s.mem && InSpace(s0, va) && PageNo(va, level) == PageNo(virt, level)
    ensures Trans(WithEntry(s, table, Index(virt, level), PageEntry(level, phys, flags)), va)
              == MappedTo(s0, level, virt, phys, flags, va)
  {
    hide Walk, Reaches, PathRights, PathAfter, AlignDown, Tree, Index, Size, SameTrans;
    AlignDownTwice(phys, level);
    WithEntryHere(s, table, PageEntry(level, phys, flags), virt, va);
    NothingLeft(s.mem, level, table, virt);
  }

  lemma NothingLeft(mem: Memory, level: nat, b: nat, va: nat)
    requires level <= 4
    ensures PathAfter(mem, level, b, va, level) == Rights(true, true, false)
  {
  }

  ghost predicate UnmapsPage(s0: Space, s: Space, level: nat, virt: nat)
    requires s0.top <= 4 && s.top <= 4 && level <= 2
  {
    forall va: nat :: InSpace(s0, va) ==>
      Trans(s, va) == if PageNo(va, level) == PageNo(virt, level) then None else Trans(s0, va)
  }

  lemma UnmapEffect(s: Space, level: nat, virt: nat, table: nat)
    requires s.top <= 4 && level <= 2 && level <= s.top && Walking(s, s, virt, level, level, table)
    requires table in s.mem
    ensures var i := Index(virt, level);
            var s' := WithEntry(s, table, i, ZERO);
            && SpaceOk(s') && UnmapsPage(s, s', level, virt)
            && (!s.mem[table][i].flags.present ==> UnmapsPage(s, s, level, virt))
  {
    hide Walk, See, Walking;
    var i := Index(virt, level);
    UnmapWrite(s, level, virt, table, ZERO);
    if !s.mem[table][i].flags.present {
      UnmapWrite(s, level, virt, table, s.mem[table][i]);
      assert s.mem[table][i := s.mem[table][i]] == s.mem[table];
      assert s.mem[table := s.mem[table]] == s.mem;
    }
  }

  lemma UnmapWrite(s: Space, level: nat, virt: nat, table: nat, e: Entry)
    requires s.top <= 4 && level <= 2 && level <= s.top && Walking(s, s, virt, level, level, table)
    requires table in s.mem && !e.flags.present
    ensures var s' := WithEntry(s, table, Index(virt, level), e);
            SpaceOk(s') && UnmapsPage(s, s', level, virt)
  {
    var i := Index(virt, level);
    var s' := WithEntry(s, table, i, e);
    WithEntryElsewhere(s, table, i, e);
    hide Walk, Reaches, PathRights, PathAfter, AlignDown, Tree;
    forall va: nat | InSpace(s, va)
      ensures Trans(s', va) == if PageNo(va, level) == PageNo(virt, level) then None else Trans(s, va)
    {
      PageNoStep(virt, level);
      if PageNo(va, level) == PageNo(virt, level) {
        WithEntryHere(s, table, e, virt, va);
      } else {
        assert !InSlot(s, table, i, va);
      }
    }
  }

  /** Every entry on the way down is present and open to users. */
  ghost predicate UserPath(mem: Memory, level: nat, b: nat, va: nat, target: nat)
    requires target <= level <= 4
    decreases level
  {
    level == target || b !in mem ||
    var f := mem[b][Index(va, level)].flags;
    f.present && f.user && (f.huge || UserPath(mem, level - 1, mem[b][Index(va, level)].addr, va, target))
  }

  /** A page mapped for users is open to them exactly when every table on its
      path was already there and open to users: the tables the walk adds are
      not. */
  lemma {:induction false} UserNeedsPath(mem: Memory, level: nat, b: nat, va: nat, target: nat)
    requires target <= level <= 4
    ensures PathAfter(mem, level, b, va, target).user <==> UserPath(mem, level, b, va, target)
    decreases level
  {
    if level > target && b in mem {
      UserNeedsPath(mem, level - 1, mem[b][Index(va, level)].addr, va, target);
    }
  }

  lemma WalkingSame(s0: Space, s: Space, va: nat, level: nat, target: nat, table: nat)
    requires s0.top <= 4 && target <= level <= s0.top && target <= 2
    requires Walking(s0, s, va, level, target, table)
    ensures SpaceOk(s) && s.top == s0.top && SameTrans(s0, s) && InSpace(s, va)
    ensures (Smooth(s0, va, target) ==> SameSight(s0, s)) && FlagsKept(s0, s)
  {
  }

  lemma PresentHere(mem: Memory, target: nat, b: nat, va: nat)
    requires target <= 4
    ensures PathPresent(mem, target, b, va, target)
  {
  }

  lemma LinksIff(e: Entry, level: nat)
    ensures Links(e, level) <==> e.flags.present && level > 0 && !e.flags.huge
  {
  }

  lemma PresentStep(mem: Memory, level: nat, b: nat, va: nat, target: nat)
    requires target < level <= 4 && b in mem
    ensures var e := mem[b][Index(va, level)];
            PathPresent(mem, level, b, va, target) <==>
              Links(e, level) && PathPresent(mem, level - 1, e.addr, va, target)
  {
  }
}
