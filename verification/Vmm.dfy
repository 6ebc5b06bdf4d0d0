/** The virtual address allocator: first fit over the augmented interval tree. */
module Vmm {
  import opened Intervals
  import opened AvlTree
  import Avl

  /** An address, or the kernel panic that ends the run. */
  datatype Result = Addr(addr: nat) | Panic

  /** The pruned search on the tree as a value. */
  ghost function PrunedGap(t: Tree, base: nat, pages: nat, align: nat, poolEnd: nat): nat
    requires align >= 1
  {
    match t
    case Leaf => 0
    case Bin(l, n, r) =>
      var span := pages * PAGE_SIZE;
      if SubStart(t) >= AlignUp(base, align) + span then Fit(base, span, align, poolEnd)
      else if MaxGap(t) < pages then 0
      else
        var found := PrunedGap(l, base, pages, align, poolEnd);
        if found != 0 then found
        else
          var base1 := if l.Bin? then Max(base, SubEnd(l)) else base;
          if n.iv.start >= AlignUp(base1, align) + span then Fit(base1, span, align, poolEnd)
          else PrunedGap(r, Max(base1, End(n.iv)), pages, align, poolEnd)
  }

  function Fit(base: nat, span: nat, align: nat, poolEnd: nat): nat
    requires align >= 1
  {
    if AlignUp(base, align) + span <= poolEnd then AlignUp(base, align) else 0
  }

  /** vmm_find_gap: reads the node fields, and prunes subtrees whose largest gap
      is too small. */
  function FindGap(n: Node?, base: nat, pages: nat, align: nat, poolEnd: nat, ghost t: Tree): (a: nat)
    requires Avl.Rep(n, t) && align >= 1
    reads Nodes(t)
    ensures a == PrunedGap(t, base, pages, align, poolEnd)
    decreases t
  {
    if n == null then 0
    else
      var span := pages * PAGE_SIZE;
      if n.subStart >= AlignUp(base, align) + span then Fit(base, span, align, poolEnd)
      else if n.maxGap < pages then 0
      else
        var found := FindGap(n.left, base, pages, align, poolEnd, t.l);
        if found != 0 then found
        else
          var base1 := if n.left != null && n.left.subEnd > base then n.left.subEnd else base;
          if n.iv.start >= AlignUp(base1, align) + span then Fit(base1, span, align, poolEnd)
          else
            var base2 := if End(n.iv) > base1 then End(n.iv) else base1;
            FindGap(n.right, base2, pages, align, poolEnd, t.r)
  }

  ghost predicate InPool(s: seq<Interval>, lo: nat, hi: nat)
  {
    forall i :: 0 <= i < |s| ==> lo <= s[i].start && End(s[i]) <= hi
  }

  /** The pruned search returns what the linear scan of the intervals in address
      order returns. */
  lemma {:induction false} PrunedIsLinear(t: Tree, base: nat, pages: nat, align: nat, poolEnd: nat)
    requires Ordered(Ivs(t)) && InPool(Ivs(t), base, poolEnd) && align >= 1 && base >= 1
    ensures PrunedGap(t, base, pages, align, poolEnd) == LinearGap(Ivs(t), base, pages * PAGE_SIZE, align)
    decreases t
  {
    if t.Bin? {
      var l, m, r, span := t.l, t.n.iv, t.r, pages * PAGE_SIZE;
      if SubStart(t) >= AlignUp(base, align) + span || MaxGap(t) < pages {
        StopHere(t, base, pages, align, poolEnd);
      } else {
        hide AlignUp, MaxGap, SubStart, PrunedGap, LinearGap;
        StartsBelow(l, t.n, r);
        PoolParts(Ivs(l), m, Ivs(r), base, poolEnd);
        if l.Bin? { BoundsMeaning(l); }
        var base1 := if l.Bin? then Max(base, SubEnd(l)) else base;
        PrunedIsLinear(l, base, pages, align, poolEnd);
        PrunedIsLinear(r, Max(base1, End(m)), pages, align, poolEnd);
        Descend(t, base, pages, align, poolEnd);
      }
    }
  }

  lemma StopHere(t: Tree, base: nat, pages: nat, align: nat, poolEnd: nat)
    requires t.Bin? && Ordered(Ivs(t)) && InPool(Ivs(t), base, poolEnd) && align >= 1
    requires SubStart(t) >= AlignUp(base, align) + pages * PAGE_SIZE || MaxGap(t) < pages
    ensures PrunedGap(t, base, pages, align, poolEnd) == LinearGap(Ivs(t), base, pages * PAGE_SIZE, align)
  {
    hide AlignUp, MaxGap, SubStart, LargestGap, Nodes, Ivs;
    FieldsMeaning(t);
    if SubStart(t) < AlignUp(base, align) + pages * PAGE_SIZE {
      NoGap(Ivs(t), base, pages, align);
    }
  }

  /** The step that looks left, then at the hole before the node, then right. */
  lemma Descend(t: Tree, base: nat, pages: nat, align: nat, poolEnd: nat)
    requires t.Bin? && Ordered(Ivs(t)) && t.n.iv.start <= poolEnd && align >= 1 && base >= 1
    requires SubStart(t) < AlignUp(base, align) + pages * PAGE_SIZE && MaxGap(t) >= pages
    requires PrunedGap(t.l, base, pages, align, poolEnd) == LinearGap(Ivs(t.l), base, pages * PAGE_SIZE, align)
    requires var base1 := if t.l.Bin? then Max(base, SubEnd(t.l)) else base;
             var base2 := Max(base1, End(t.n.iv));
             PrunedGap(t.r, base2, pages, align, poolEnd) == LinearGap(Ivs(t.r), base2, pages * PAGE_SIZE, align)
    ensures PrunedGap(t, base, pages, align, poolEnd) == LinearGap(Ivs(t), base, pages * PAGE_SIZE, align)
  {
    hide AlignUp, MaxGap, SubStart, SubEnd, LargestGap, Nodes, LinearGap;
    StartsBelow(t.l, t.n, t.r);
    if t.l.Bin? { BoundsMeaning(t.l); }
    hide Ordered;
    ScanMiddle(Ivs(t.l), t.n.iv, Ivs(t.r), base, pages * PAGE_SIZE, align);
  }

  lemma PoolParts(a: seq<Interval>, m: Interval, b: seq<Interval>, lo: nat, hi: nat)
    requires InPool(a + [m] + b, lo, hi)
    ensures InPool(a, lo, hi) && InPool(b, lo, hi) && lo <= m.start && End(m) <= hi
  {
    var s := a + [m] + b;
    assert s[|a|] == m;
    assert forall i :: 0 <= i < |a| ==> a[i] == s[i];
    assert forall i :: 0 <= i < |b| ==> b[i] == s[|a| + 1 + i];
  }

  lemma ScanMiddle(a: seq<Interval>, m: Interval, b: seq<Interval>, base: nat, span: nat, align: nat)
    requires Ordered(a) && align >= 1 && base >= 1
    ensures var found := LinearGap(a, base, span, align);
            var base1 := if a == [] then base else Max(base, End(a[|a| - 1]));
            LinearGap(a + [m] + b, base, span, align) ==
              if found != 0 then found
              else if m.start >= AlignUp(base1, align) + span then AlignUp(base1, align)
              else LinearGap(b, Max(base1, End(m)), span, align)
  {
    assert a + [m] + b == a + ([m] + b);
    ScanConcat(a, [m] + b, base, span, align);
    assert ([m] + b)[1..] == b;
  }

  class Allocator {
    const poolBase: nat
    const poolEnd: nat
    var root: Node?
    ghost var tree: Tree

    /** The reserved intervals in address order. */
    ghost function Reserved(): seq<Interval>
      reads this
    {
      Ivs(tree)
    }

    ghost predicate Valid()
      reads this, Nodes(tree)
    {
      && 1 <= poolBase <= poolEnd
      && Avl.Rep(root, tree) && Distinct(tree) && Balanced(tree)
      && Ordered(Reserved()) && InPool(Reserved(), poolBase, poolEnd)
    }

    constructor (base: nat, end: nat)
      requires 1 <= base <= end
      ensures Valid() && Reserved() == [] && Nodes(tree) == {}
      ensures poolBase == base && poolEnd == end
    {
      poolBase, poolEnd := base, end;
      root, tree := null, Leaf;
    }

    /** vmm_alloc_aligned: reserves free space of the pool, or panics. For a
        power of two it is the lowest aligned range that is free, and the panic
        means that no such range lies in the pool. */
    method AllocAligned(count: nat, align: nat) returns (r: Result)
      requires Valid() && align >= 1
      modifies this, Nodes(tree)
      ensures Valid() && forall n :: n in Nodes(tree) && n !in old(Nodes(tree)) ==> fresh(n)
      ensures count == 0 ==> r == Addr(0) && Reserved() == old(Reserved())
      ensures count > 0 ==>
                var a := FirstFound(old(Reserved()), poolBase, count * PAGE_SIZE, align);
                r == if a + count * PAGE_SIZE <= poolEnd then Addr(a) else Panic
      ensures count > 0 && r.Panic? ==>
                && Reserved() == old(Reserved())
                && (IsPow2(align) ==>
                      forall a: nat :: Feasible(Reserved(), poolBase, count * PAGE_SIZE, align, a)
                                       ==> a + count * PAGE_SIZE > poolEnd)
      ensures count > 0 && r.Addr? ==>
                && poolBase <= r.addr && DisjointFrom(old(Reserved()), r.addr, count * PAGE_SIZE)
                && !HasKey(old(Reserved()), r.addr)
                && Reserved() == SeqInsert(old(Reserved()), Interval(r.addr, count))
                && (forall x :: x in Reserved() <==> x in old(Reserved()) || x == Interval(r.addr, count))
                && (IsPow2(align) ==> LowestFeasible(old(Reserved()), poolBase, count * PAGE_SIZE, align, r.addr))
    {
      hide Ordered, InPool, Ivs, Avl.Rep, Distinct, Balanced, LowestFeasible, LinearGap, PrunedGap, AlignUp, IsPow2,
        DisjointFrom;
      if count == 0 {
        return Addr(0);
      }
      PrunedIsLinear(tree, poolBase, count, align, poolEnd);
      FirstFitInTree(tree, poolBase, poolEnd, count * PAGE_SIZE, align);
      var addr := FindGap(root, poolBase, count, align, poolEnd, tree);
      if addr == 0 {
        RootEnd(root, tree);
        var tail := AlignUp(if root != null then root.subEnd else poolBase, align);
        if tail < poolBase {
          tail := poolBase;
        }
        addr := tail;
      }
      if addr + count * PAGE_SIZE > poolEnd {
        if IsPow2(align) {
          NothingFits(Reserved(), poolBase, count * PAGE_SIZE, align, addr, poolEnd);
        }
        return Panic;
      }
      InsertMembers(Reserved(), Interval(addr, count));
      assert allocated(Nodes(tree));
      var n := new Node(Interval(addr, count));
      InsertInPool(tree, n, poolBase, poolEnd);
      root := Avl.Insert(root, n, tree);
      tree := Insert(tree, n);
      r := Addr(addr);
    }

    /** vmm_free_pages. The interval that starts at the address is released
        whatever count is given; the address comes back only when the count
        matches. */
    method FreePages(virt: nat, count: nat) returns (r: nat)
      requires Valid()
      modifies this, Nodes(tree)
      ensures Valid() && Nodes(tree) <= old(Nodes(tree))
      ensures Reserved() == SeqRemove(old(Reserved()), virt)
      ensures forall x :: x in Reserved() <==> x in old(Reserved()) && x.start != virt
      ensures r == if Interval(virt, count) in old(Reserved()) then virt else 0
    {
      hide Ordered, InPool, Ivs, Avl.Rep, Distinct, Balanced, SeqRemove, Delete, Find;
      RemoveMembers(Reserved(), virt);
      ZeroIsNoKey(Reserved(), poolBase, poolEnd, count);
      RootEnd(root, tree);
      if virt == 0 {
        return 0;
      }
      if root == null {
        EmptyReserved(tree, virt);
        return 0;
      }
      DeleteInPool(tree, virt, poolBase, poolEnd);
      FoundInterval(tree, virt, count);
      var newRoot, out := Avl.Delete(root, virt, tree);
      root, tree := newRoot, Delete(tree, virt);
      if out == null {
        return 0;
      }
      if out.iv.pages != count {
        return 0;
      }
      return out.iv.start;
    }

    /** Releasing what was reserved restores the same intervals. */
    method AllocThenFree(count: nat, align: nat) returns (r: Result)
      requires Valid() && align >= 1
      modifies this, Nodes(tree)
      ensures Valid() && Reserved() == old(Reserved())
    {
      r := AllocAligned(count, align);
      hide Ordered, InPool, Ivs, Avl.Rep, Distinct, Balanced, SeqRemove, SeqInsert;
      if r.Addr? && count > 0 {
        InsertRemove(old(Reserved()), Interval(r.addr, count));
        var _ := FreePages(r.addr, count);
      }
    }

    /** Any history of reservations and releases keeps the reserved intervals
        disjoint, in the pool, and indexed by a valid AVL tree. */
    method Run(ops: seq<Op>)
      requires Valid() && Nodes(tree) == {}
      modifies this
      ensures Valid()
    {
      for k := 0 to |ops|
        invariant Valid() && fresh(Nodes(tree))
      {
        hide Ordered, InPool, Ivs, Avl.Rep, Distinct, Balanced, LowestFeasible;
        match ops[k]
        case Reserve(count, align) =>
          if align >= 1 { var _ := AllocAligned(count, align); }
        case Release(virt, count) =>
          var _ := FreePages(virt, count);
      }
    }
  }

  datatype Op = Reserve(count: nat, align: nat) | Release(virt: nat, count: nat)

  lemma FoundInterval(t: Tree, key: nat, count: nat)
    requires Ordered(Ivs(t))
    ensures var f := Find(t, key);
            Interval(key, count) in Ivs(t) <==> f != null && f.iv.pages == count
    ensures Find(t, key) != null ==> Find(t, key).iv.start == key
  {
    FindMeaning(t, key);
    RankSplit(Ivs(t), key);
    hide Ivs, Find;
    var s, k := Ivs(t), Rank(Ivs(t), key);
    if Interval(key, count) in s {
      var i :| 0 <= i < |s| && s[i] == Interval(key, count);
      assert HasKey(s, key);
      RankAt(s, i);
    }
  }

  lemma FirstFitInTree(t: Tree, base: nat, poolEnd: nat, span: nat, align: nat)
    requires Ordered(Ivs(t)) && InPool(Ivs(t), base, poolEnd) && base >= 1 && span >= 1 && align >= 1
    ensures var a := FirstFound(Ivs(t), base, span, align);
            && a == (var r := LinearGap(Ivs(t), base, span, align);
                     if r != 0 then r else AlignUp(if t.Bin? then SubEnd(t) else base, align))
            && base <= a && DisjointFrom(Ivs(t), a, span)
            && (IsPow2(align) ==> LowestFeasible(Ivs(t), base, span, align, a))
    ensures base <= AlignUp(if t.Bin? then SubEnd(t) else base, align)
  {
    if t.Bin? { BoundsMeaning(t); }
    hide AlignUp, LinearGap, IsPow2, DisjointFrom, LowestFeasible, SubEnd;
    FoundIsFree(Ivs(t), base, span, align);
    if IsPow2(align) {
      FirstFit(Ivs(t), base, span, align);
    }
  }

  lemma RootEnd(n: Node?, t: Tree)
    requires Avl.Rep(n, t)
    ensures n == null <==> t.Leaf?
    ensures n != null ==> n.subEnd == SubEnd(t)
  {
  }

  lemma NothingFits(s: seq<Interval>, base: nat, span: nat, align: nat, a: nat, poolEnd: nat)
    requires align >= 1 && LowestFeasible(s, base, span, align, a) && a + span > poolEnd
    ensures forall b: nat :: Feasible(s, base, span, align, b) ==> b + span > poolEnd
  {
  }

  /** Inserting a node for a free range of the pool keeps the tree an AVL tree
      of disjoint intervals. */
  lemma InsertInPool(t: Tree, n: Node, base: nat, poolEnd: nat)
    requires Ordered(Ivs(t)) && InPool(Ivs(t), base, poolEnd) && Balanced(t)
    requires Distinct(t) && n !in Nodes(t) && n.iv.pages >= 1
    requires base <= n.iv.start && DisjointFrom(Ivs(t), n.iv.start, n.iv.pages * PAGE_SIZE) && End(n.iv) <= poolEnd
    ensures var u := Insert(t, n);
            && !HasKey(Ivs(t), n.iv.start) && Ivs(u) == SeqInsert(Ivs(t), n.iv)
            && Ordered(Ivs(u)) && InPool(Ivs(u), base, poolEnd)
            && Balanced(u) && Distinct(u) && Nodes(u) <= Nodes(t) + {n}
  {
    hide Ivs, Insert, Nodes, Distinct, Balanced, Ordered, SeqInsert;
    InsertOrdered(Ivs(t), n.iv);
    InsertOrder(t, n);
    InsertNodes(t, n);
    InsertBalanced(t, n);
    PoolAfterInsert(Ivs(t), n.iv, base, poolEnd);
  }

  lemma PoolAfterInsert(s: seq<Interval>, x: Interval, lo: nat, hi: nat)
    requires InPool(s, lo, hi) && lo <= x.start && End(x) <= hi
    ensures InPool(SeqInsert(s, x), lo, hi)
  {
    var k, r := Rank(s, x.start), SeqInsert(s, x);
    forall i | 0 <= i < |r|
      ensures lo <= r[i].start && End(r[i]) <= hi
    {
      assert i < k ==> r[i] == s[i];
      assert i > k ==> r[i] == s[i - 1];
    }
  }

  lemma PoolAfterRemove(s: seq<Interval>, key: nat, lo: nat, hi: nat)
    requires InPool(s, lo, hi)
    ensures InPool(SeqRemove(s, key), lo, hi)
  {
    var k, r := Rank(s, key), SeqRemove(s, key);
    if r != s {
      assert forall i :: 0 <= i < |r| ==> r[i] == s[if i < k then i else i + 1];
    }
  }

  lemma DeleteInPool(t: Tree, key: nat, base: nat, poolEnd: nat)
    requires Ordered(Ivs(t)) && InPool(Ivs(t), base, poolEnd) && Balanced(t) && Distinct(t)
    ensures var u := Delete(t, key);
            && Ivs(u) == SeqRemove(Ivs(t), key)
            && Ordered(Ivs(u)) && InPool(Ivs(u), base, poolEnd)
            && Balanced(u) && Distinct(u) && Nodes(u) <= Nodes(t)
  {
    hide Ivs, Delete, Nodes, Distinct, Balanced, Ordered, SeqRemove, Find;
    DeleteOrder(t, key);
    RemoveOrdered(Ivs(t), key);
    DeleteNodes(t, key);
    DeleteBalanced(t, key);
    PoolAfterRemove(Ivs(t), key, base, poolEnd);
  }

  lemma ZeroIsNoKey(s: seq<Interval>, lo: nat, hi: nat, count: nat)
    requires InPool(s, lo, hi) && lo >= 1
    ensures SeqRemove(s, 0) == s && Interval(0, count) !in s
  {
  }

  lemma EmptyReserved(t: Tree, key: nat)
    requires t.Leaf?
    ensures Ivs(t) == [] && SeqRemove(Ivs(t), key) == []
  {
  }
}
