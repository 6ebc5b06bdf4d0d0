/** Reserved intervals of virtual addresses in address order, the gaps between
    them, and the linear first-fit scan that the tree search has to agree with. */
module Intervals {

  const PAGE_SIZE: nat := 4096

  datatype Interval = Interval(start: nat, pages: nat)

  function End(i: Interval): nat {
    i.start + i.pages * PAGE_SIZE
  }

  /** Sorted and pairwise disjoint. */
  ghost predicate Ordered(s: seq<Interval>)
  {
    && (forall i :: 0 <= i < |s| ==> s[i].pages >= 1)
    && (forall i, j :: 0 <= i < j < |s| ==> End(s[i]) <= s[j].start)
  }

  function Max(a: int, b: int): int {
    if a > b then a else b
  }

  // ----- insertion and removal by key

  /** How many leading intervals start below the key. */
  function Rank(s: seq<Interval>, key: nat): (k: nat)
    ensures k <= |s|
  {
    if s == [] || s[0].start >= key then 0 else 1 + Rank(s[1..], key)
  }

  ghost predicate HasKey(s: seq<Interval>, key: nat) {
    exists i :: 0 <= i < |s| && s[i].start == key
  }

  function SeqInsert(s: seq<Interval>, x: Interval): seq<Interval> {
    var k := Rank(s, x.start);
    s[..k] + [x] + s[k..]
  }

  /** The sequence without the interval that starts at the key, if any. */
  function SeqRemove(s: seq<Interval>, key: nat): seq<Interval> {
    var k := Rank(s, key);
    if k < |s| && s[k].start == key then s[..k] + s[k + 1..] else s
  }

  lemma {:induction false} RankSplit(s: seq<Interval>, key: nat)
    requires Ordered(s)
    ensures forall i :: 0 <= i < |s| ==> (s[i].start < key <==> i < Rank(s, key))
  {
    if s != [] && s[0].start < key {
      RankSplit(s[1..], key);
      forall i | 0 <= i < |s|
        ensures s[i].start < key <==> i < Rank(s, key)
      {
        assert i > 0 ==> s[i] == s[1..][i - 1];
      }
    }
  }

  lemma {:induction false} RankLeft(a: seq<Interval>, m: Interval, b: seq<Interval>, key: nat)
    requires key <= m.start
    ensures Rank(a + [m] + b, key) == Rank(a, key)
  {
    if a != [] {
      assert (a + [m] + b)[1..] == a[1..] + [m] + b;
      if a[0].start < key {
        RankLeft(a[1..], m, b, key);
      }
    }
  }

  lemma {:induction false} RankRight(a: seq<Interval>, m: Interval, b: seq<Interval>, key: nat)
    requires m.start < key && forall i :: 0 <= i < |a| ==> a[i].start < key
    ensures Rank(a + [m] + b, key) == |a| + 1 + Rank(b, key)
  {
    if a == [] {
      assert (a + [m] + b)[1..] == b;
    } else {
      assert (a + [m] + b)[1..] == a[1..] + [m] + b;
      RankRight(a[1..], m, b, key);
    }
  }

  /** Inserting or removing left or right of a middle element. */
  lemma InsertLeft(a: seq<Interval>, m: Interval, b: seq<Interval>, x: Interval)
    requires x.start < m.start
    ensures SeqInsert(a + [m] + b, x) == SeqInsert(a, x) + [m] + b
  {
    RankLeft(a, m, b, x.start);
  }

  lemma InsertRight(a: seq<Interval>, m: Interval, b: seq<Interval>, x: Interval)
    requires m.start < x.start && forall i :: 0 <= i < |a| ==> a[i].start < x.start
    ensures SeqInsert(a + [m] + b, x) == a + [m] + SeqInsert(b, x)
  {
    RankRight(a, m, b, x.start);
  }

  lemma RemoveLeft(a: seq<Interval>, m: Interval, b: seq<Interval>, key: nat)
    requires key < m.start
    ensures SeqRemove(a + [m] + b, key) == SeqRemove(a, key) + [m] + b
  {
    RankLeft(a, m, b, key);
    hide Rank;
    var s, k := a + [m] + b, Rank(a, key);
    if k < |a| {
      WithoutAhead(a, [m] + b, k);
      assert s == a + ([m] + b);
      assert s[k].start == key ==> SeqRemove(s, key) == s[..k] + s[k + 1..];
    } else {
      assert s[k] == m;
    }
  }

  lemma WithoutAhead(a: seq<Interval>, p: seq<Interval>, k: nat)
    requires k < |a|
    ensures var s := a + p; s[k] == a[k] && s[..k] + s[k + 1..] == a[..k] + a[k + 1..] + p
  {
    var s := a + p;
    assert s[..k] == a[..k];
    assert s[k + 1..] == a[k + 1..] + p;
  }

  lemma RemoveRight(a: seq<Interval>, m: Interval, b: seq<Interval>, key: nat)
    requires m.start < key && forall i :: 0 <= i < |a| ==> a[i].start < key
    ensures SeqRemove(a + [m] + b, key) == a + [m] + SeqRemove(b, key)
  {
    RankRight(a, m, b, key);
    hide Rank;
    RemoveBehind(a + [m], b, key);
  }

  lemma RemoveBehind(p: seq<Interval>, b: seq<Interval>, key: nat)
    requires Rank(p + b, key) == |p| + Rank(b, key)
    ensures SeqRemove(p + b, key) == p + SeqRemove(b, key)
  {
    hide Rank;
    var s, k := p + b, Rank(b, key);
    var n := |p| + k;
    if k < |b| {
      WithoutBehind(p, b, k);
      assert s[n].start == key ==> SeqRemove(s, key) == s[..n] + s[n + 1..];
    } else {
      assert SeqRemove(s, key) == s;
    }
  }

  lemma WithoutBehind(p: seq<Interval>, b: seq<Interval>, k: nat)
    requires k < |b|
    ensures var s, n := p + b, |p| + k; s[n] == b[k] && s[..n] + s[n + 1..] == p + (b[..k] + b[k + 1..])
  {
    var s, n := p + b, |p| + k;
    assert s[..n] == p + b[..k];
    assert s[n + 1..] == b[k + 1..];
  }

  lemma {:induction false} RankAll(a: seq<Interval>, key: nat)
    requires forall i :: 0 <= i < |a| ==> a[i].start < key
    ensures Rank(a, key) == |a|
  {
    if a != [] {
      RankAll(a[1..], key);
    }
  }

  lemma RemoveMiddle(a: seq<Interval>, m: Interval, b: seq<Interval>)
    requires forall i :: 0 <= i < |a| ==> a[i].start < m.start
    ensures SeqRemove(a + [m] + b, m.start) == a + b
  {
    RankLeft(a, m, b, m.start);
    RankAll(a, m.start);
  }

  /** Removing what was inserted gives the old intervals back. */
  lemma InsertRemove(s: seq<Interval>, x: Interval)
    requires Ordered(s) && x.pages >= 1 && !HasKey(s, x.start)
    ensures SeqRemove(SeqInsert(s, x), x.start) == s
  {
    var k := Rank(s, x.start);
    RankSplit(s, x.start);
    RemoveMiddle(s[..k], x, s[k..]);
  }

  ghost predicate DisjointFrom(s: seq<Interval>, a: nat, span: nat)
  {
    forall i :: 0 <= i < |s| ==> End(s[i]) <= a || a + span <= s[i].start
  }

  lemma InsertOrdered(s: seq<Interval>, x: Interval)
    requires Ordered(s) && x.pages >= 1 && DisjointFrom(s, x.start, x.pages * PAGE_SIZE)
    ensures !HasKey(s, x.start) && Ordered(SeqInsert(s, x))
  {
    var k := Rank(s, x.start);
    RankSplit(s, x.start);
    var r := SeqInsert(s, x);
    forall i, j | 0 <= i < j < |r|
      ensures End(r[i]) <= r[j].start
    {
      assert i < k ==> r[i] == s[i];
      assert i > k ==> r[i] == s[i - 1];
      assert j < k ==> r[j] == s[j];
      assert j > k ==> r[j] == s[j - 1];
    }
  }

  lemma RemoveOrdered(s: seq<Interval>, key: nat)
    requires Ordered(s)
    ensures Ordered(SeqRemove(s, key))
  {
    var k, r := Rank(s, key), SeqRemove(s, key);
    if r != s {
      assert forall i :: 0 <= i < |r| ==> r[i] == s[if i < k then i else i + 1];
    }
  }

  /** Exactly the inserted interval is new. */
  lemma InsertMembers(s: seq<Interval>, x: Interval)
    ensures forall y :: y in SeqInsert(s, x) <==> y in s || y == x
  {
    var k := Rank(s, x.start);
    assert s == s[..k] + s[k..];
  }

  /** Exactly the interval with the key is gone. */
  lemma RemoveMembers(s: seq<Interval>, key: nat)
    requires Ordered(s)
    ensures forall x :: x in SeqRemove(s, key) <==> x in s && x.start != key
  {
    var k, r := Rank(s, key), SeqRemove(s, key);
    RankSplit(s, key);
    hide Ordered, Rank;
    if k < |s| && s[k].start == key {
      assert s == s[..k] + [s[k]] + s[k + 1..];
      assert forall i :: k < i < |s| ==> s[i].start != key by {
        assert forall i :: k < i < |s| ==> s[i].start != s[k].start by { LaterStarts(s, k); }
      }
      assert forall x :: x in s[..k] ==> x.start < key;
      assert forall x :: x in s[k + 1..] ==> x.start != key;
    }
  }

  lemma LaterStarts(s: seq<Interval>, k: nat)
    requires Ordered(s) && k < |s|
    ensures forall i :: k < i < |s| ==> s[k].start < s[i].start
  {
  }

  /** The rank of an interval's own start is its place. */
  lemma RankAt(s: seq<Interval>, i: nat)
    requires Ordered(s) && i < |s|
    ensures Rank(s, s[i].start) == i
  {
    var k := Rank(s, s[i].start);
    RankSplit(s, s[i].start);
    LaterStarts(s, k);
  }

  // ----- the largest gap

  function Gap(a: Interval, b: Interval): nat {
    if b.start >= End(a) then (b.start - End(a)) / PAGE_SIZE else 0
  }

  function LargestGap(s: seq<Interval>): nat {
    if |s| < 2 then 0 else Max(Gap(s[0], s[1]), LargestGap(s[1..]))
  }

  lemma {:induction false} LargestGapConcat(a: seq<Interval>, b: seq<Interval>)
    requires a != [] && b != []
    ensures LargestGap(a + b) == Max(Max(LargestGap(a), LargestGap(b)), Gap(a[|a| - 1], b[0]))
  {
    assert (a + b)[1..] == a[1..] + b;
    if |a| > 1 {
      LargestGapConcat(a[1..], b);
      assert (a + b)[1] == a[1];
    }
  }

  // ----- alignment

  /** x & ~m */
  function AndNot(x: nat, m: nat): nat {
    if x == 0 then 0 else 2 * AndNot(x / 2, m / 2) + if x % 2 == 1 && m % 2 == 0 then 1 else 0
  }

  /** align_up */
  function AlignUp(a: nat, align: nat): (r: nat)
    requires align >= 1
    ensures a <= r
  {
    var aligned := AndNot(a + align - 1, align - 1);
    if aligned < a then a else aligned
  }

  ghost predicate Aligned(a: nat, align: nat)
    requires align >= 1
  {
    exists k: nat :: a == k * align
  }

  predicate IsPow2(n: nat) {
    n == 1 || (n > 1 && n % 2 == 0 && IsPow2(n / 2))
  }

  lemma {:induction false} AndNotZero(x: nat)
    ensures AndNot(x, 0) == x
  {
    if x > 0 {
      AndNotZero(x / 2);
    }
  }

  lemma {:induction false} AndNotSelf(x: nat)
    ensures AndNot(x, x) == 0
  {
    if x > 0 {
      AndNotSelf(x / 2);
    }
  }

  /** For a power of two the mask rounds down to a multiple. */
  lemma {:induction false} MaskDivides(x: nat, n: nat)
    requires IsPow2(n)
    ensures AndNot(x, n - 1) == x / n * n
  {
    if n == 1 {
      AndNotZero(x);
    } else {
      var h := n / 2;
      MaskDivides(x / 2, h);
      HalfQuotient(x, h);
      assert (n - 1) / 2 == h - 1 && (n - 1) % 2 == 1;
      assert x / n * n == x / n * h * 2;
      assert x == 0 ==> x / n == 0;
    }
  }

  lemma HalfQuotient(x: nat, h: nat)
    requires h >= 1
    ensures x / 2 / h == x / (2 * h)
  {
    var q := x / 2 / h;
    DivBounds(x / 2, h);
    assert q * (2 * h) == 2 * (q * h);
    assert q * (2 * h) <= x < q * (2 * h) + 2 * h;
    DivUnique(x, 2 * h, q);
  }

  lemma DivUnique(n: nat, d: nat, q: nat)
    requires d >= 1 && q * d <= n < q * d + d
    ensures n / d == q
  {
    DivBounds(n, d);
    if n / d < q {
      MulLe(n / d + 1, q, d);
    } else if q < n / d {
      MulLe(q + 1, n / d, d);
    }
  }

  /** n & ~(n - 1) is the lowest set bit: all of n only for a power of two. */
  lemma {:induction false} LowestBit(n: nat)
    requires n >= 1
    ensures var r := AndNot(n, n - 1); 1 <= r <= n && (r == n <==> IsPow2(n))
  {
    if n % 2 == 1 {
      AndNotSelf(n / 2);
      assert (n - 1) / 2 == n / 2;
    } else {
      LowestBit(n / 2);
      assert (n - 1) / 2 == n / 2 - 1;
    }
  }

  /** For a power of two, rounding up gives the least aligned address that is not
      smaller. */
  lemma AlignUpLeast(a: nat, align: nat)
    requires IsPow2(align)
    ensures a <= AlignUp(a, align) < a + align && Aligned(AlignUp(a, align), align)
    ensures forall b: nat :: a <= b && Aligned(b, align) ==> AlignUp(a, align) <= b
  {
    MaskDivides(a + align - 1, align);
    hide AndNot, IsPow2;
    LeastMultiple(a, align);
  }

  lemma LeastMultiple(a: nat, align: nat)
    requires align >= 1
    ensures var r := (a + align - 1) / align * align;
            a <= r < a + align && Aligned(r, align) && forall b: nat :: a <= b && Aligned(b, align) ==> r <= b
  {
    var q := (a + align - 1) / align;
    DivBounds(a + align - 1, align);
    forall b: nat | a <= b && Aligned(b, align)
      ensures q * align <= b
    {
      var k: nat :| b == k * align;
      if k < q {
        MulLe(k + 1, q, align);
      } else {
        MulLe(q, k, align);
      }
    }
  }

  /** The mask aligns every address exactly if the alignment is a power of two:
      for any other, already the address 1 comes out wrong. */
  lemma AlignUpAlignsIff(align: nat)
    requires align >= 1
    ensures (forall a: nat :: Aligned(AlignUp(a, align), align)) <==> IsPow2(align)
  {
    if IsPow2(align) {
      forall a: nat
        ensures Aligned(AlignUp(a, align), align)
      {
        AlignUpLeast(a, align);
      }
    } else {
      LowestBit(align);
      var r := AlignUp(1, align);
      assert r == AndNot(align, align - 1);
      assert !Aligned(r, align) by {
        if Aligned(r, align) {
          var k: nat :| r == k * align;
          MulLe(1, k, align);
        }
      }
    }
  }

  lemma DivBounds(n: nat, d: nat)
    requires d >= 1
    ensures 0 <= n / d && n / d * d <= n < n / d * d + d
  {
  }

  lemma MulLe(a: nat, b: nat, m: nat)
    requires a <= b
    ensures a * m <= b * m && (a + 1) * m == a * m + m
  {
  }

  // ----- the linear scan

  /** First fit before the last interval, from `base` on; 0 when there is none. */
  function LinearGap(s: seq<Interval>, base: nat, span: nat, align: nat): nat
    requires align >= 1
  {
    if s == [] then 0
    else if s[0].start >= AlignUp(base, align) + span then AlignUp(base, align)
    else LinearGap(s[1..], Max(base, End(s[0])), span, align)
  }

  /** An aligned hole of the given size, before the last interval. */
  ghost predicate Hole(s: seq<Interval>, base: nat, span: nat, align: nat, a: nat)
    requires align >= 1
  {
    && base <= a && Aligned(a, align)
    && DisjointFrom(s, a, span)
    && s != [] && a + span <= s[|s| - 1].start
  }

  /** Whatever the alignment, the scan returns free space from the base on. */
  lemma {:induction false} LinearGapFits(s: seq<Interval>, base: nat, span: nat, align: nat)
    requires Ordered(s) && align >= 1 && base >= 1 && span >= 1
    requires s != [] ==> base <= s[0].start
    ensures var r := LinearGap(s, base, span, align);
            r != 0 ==> base <= r && DisjointFrom(s, r, span) && s != [] && r + span <= s[|s| - 1].start
  {
    var r := LinearGap(s, base, span, align);
    if s != [] && s[0].start < AlignUp(base, align) + span {
      var rest, base' := s[1..], Max(base, End(s[0]));
      LinearGapFits(rest, base', span, align);
      hide AlignUp;
      if r != 0 {
        assert forall i :: 0 < i < |s| ==> s[i] == rest[i - 1];
      }
    }
  }

  /** The scan returns the lowest hole, and 0 exactly when there is none. */
  lemma {:induction false} LinearGapIsLowest(s: seq<Interval>, base: nat, span: nat, align: nat)
    requires Ordered(s) && IsPow2(align) && base >= 1 && span >= 1
    requires s != [] ==> base <= s[0].start
    ensures var r := LinearGap(s, base, span, align);
            && (r != 0 ==> Hole(s, base, span, align, r))
            && (forall a: nat :: Hole(s, base, span, align, a) ==> r != 0 && r <= a)
  {
    hide AlignUp, IsPow2;
    AlignUpLeast(base, align);
    var r, b := LinearGap(s, base, span, align), AlignUp(base, align);
    if s != [] && s[0].start < b + span {
      var rest, base' := s[1..], Max(base, End(s[0]));
      LinearGapIsLowest(rest, base', span, align);
      assert r != 0 ==> Hole(s, base, span, align, r) by {
        if r != 0 {
          assert Hole(rest, base', span, align, r);
          assert forall i :: 0 < i < |s| ==> s[i] == rest[i - 1];
        }
      }
      forall a: nat | Hole(s, base, span, align, a)
        ensures r != 0 && r <= a
      {
        assert b <= a;
        assert End(s[0]) <= a;
        assert rest != [] by { assert a + span <= s[|s| - 1].start; }
        assert forall i :: 0 <= i < |rest| ==> rest[i] == s[i + 1];
        assert Hole(rest, base', span, align, a);
      }
    }
  }

  /** With no gap large enough the scan finds nothing after its first step. */
  lemma {:induction false} NoGap(s: seq<Interval>, base: nat, pages: nat, align: nat)
    requires Ordered(s) && align >= 1 && s != [] && base <= s[0].start
    requires s[0].start < AlignUp(base, align) + pages * PAGE_SIZE
    requires LargestGap(s) < pages
    ensures LinearGap(s, base, pages * PAGE_SIZE, align) == 0
  {
    if |s| > 1 {
      var base' := Max(base, End(s[0]));
      NoGap(s[1..], base', pages, align);
    }
  }

  /** A scan that finds nothing in a prefix goes on from the prefix's end. */
  lemma {:induction false} ScanConcat(a: seq<Interval>, b: seq<Interval>, base: nat, span: nat, align: nat)
    requires Ordered(a) && align >= 1 && base >= 1
    ensures var r := LinearGap(a, base, span, align);
            LinearGap(a + b, base, span, align) ==
              if r != 0 then r
              else LinearGap(b, if a == [] then base else Max(base, End(a[|a| - 1])), span, align)
  {
    if a == [] {
      assert a + b == b;
    } else if a[0].start < AlignUp(base, align) + span {
      assert (a + b)[1..] == a[1..] + b;
      ScanConcat(a[1..], b, Max(base, End(a[0])), span, align);
    }
  }

  /** An aligned range of the pool that meets no interval. */
  ghost predicate Feasible(s: seq<Interval>, base: nat, span: nat, align: nat, a: nat)
    requires align >= 1
  {
    base <= a && Aligned(a, align) && DisjointFrom(s, a, span)
  }

  ghost predicate LowestFeasible(s: seq<Interval>, base: nat, span: nat, align: nat, a: nat)
    requires align >= 1
  {
    && Feasible(s, base, span, align, a)
    && forall b: nat :: Feasible(s, base, span, align, b) ==> a <= b
  }

  /** Where the range goes: the hole the scan finds, or behind the last interval. */
  function FirstFound(s: seq<Interval>, base: nat, span: nat, align: nat): nat
    requires align >= 1
  {
    var r := LinearGap(s, base, span, align);
    if r != 0 then r else AlignUp(if s == [] then base else End(s[|s| - 1]), align)
  }

  /** Whatever the alignment, that is free space from the base on. */
  lemma FoundIsFree(s: seq<Interval>, base: nat, span: nat, align: nat)
    requires Ordered(s) && align >= 1 && base >= 1 && span >= 1
    requires s != [] ==> base <= s[0].start
    ensures var a := FirstFound(s, base, span, align); base <= a && DisjointFrom(s, a, span)
  {
    LinearGapFits(s, base, span, align);
    assert forall i :: 0 <= i < |s| ==> End(s[i]) <= End(s[|s| - 1]);
    hide AlignUp, LinearGap;
  }

  /** For a power of two, it is the lowest address at which the range fits at
      all. */
  lemma FirstFit(s: seq<Interval>, base: nat, span: nat, align: nat)
    requires Ordered(s) && IsPow2(align) && base >= 1 && span >= 1
    requires s != [] ==> base <= s[0].start
    ensures LowestFeasible(s, base, span, align, FirstFound(s, base, span, align))
  {
    hide IsPow2;
    LinearGapIsLowest(s, base, span, align);
    var last := if s == [] then base else End(s[|s| - 1]);
    AlignUpLeast(last, align);
    hide LinearGap, AlignUp;
    var r, tail := LinearGap(s, base, span, align), AlignUp(last, align);
    assert forall i :: 0 <= i < |s| ==> End(s[i]) <= last;
    forall b: nat | Feasible(s, base, span, align, b)
      ensures (if r != 0 then r else tail) <= b
    {
      if s == [] || !(b + span <= s[|s| - 1].start) {
        assert last <= b;
        assert r != 0 ==> r + span <= s[|s| - 1].start;
      } else {
        assert Hole(s, base, span, align, b);
      }
    }
  }
}
