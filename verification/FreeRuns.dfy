/** Runs of clear bits in a page bitmap (true = used), and what marking a range
    used or free does to them. A set of blocks is a map from start to length. */
module FreeRuns {

  type Blocks = map<nat, nat>

  ghost predicate AllAre(bm: seq<bool>, lo: int, hi: int, used: bool)
  {
    0 <= lo && hi <= |bm| && forall q :: lo <= q < hi ==> bm[q] == used
  }

  /** A maximal run of clear bits. */
  ghost predicate IsRun(bm: seq<bool>, p: nat, n: nat)
  {
    && n >= 1 && AllAre(bm, p, p + n, false)
    && (p == 0 || bm[p - 1])
    && (p + n == |bm| || bm[p + n])
  }

  /** The blocks are exactly the maximal runs of clear bits. */
  ghost predicate MaximalRuns(bm: seq<bool>, runs: Blocks)
  {
    forall p: nat, n: nat :: IsRun(bm, p, n) <==> (p in runs && runs[p] == n)
  }

  ghost predicate Covers(runs: Blocks, p: nat, q: nat)
  {
    p in runs && p <= q < p + runs[p]
  }

  ghost predicate Disjoint(m: Blocks)
  {
    forall p, q :: p in m && q in m && p < q ==> p + m[p] <= q
  }

  /** The blocks tile the clear bits: they are disjoint, and a bit is clear
      exactly when some block covers it. */
  ghost predicate Tiles(bm: seq<bool>, runs: Blocks)
  {
    && Disjoint(runs)
    && (forall p :: p in runs ==> runs[p] >= 1 && AllAre(bm, p, p + runs[p], false))
    && (forall q: nat :: q < |bm| && !bm[q] ==> exists p :: Covers(runs, p, q))
  }

  function SetRange(bm: seq<bool>, a: nat, n: nat, used: bool): (r: seq<bool>)
  {
    seq(|bm|, i requires 0 <= i < |bm| => if a <= i < a + n then used else bm[i])
  }

  /** The run around a clear bit. */
  lemma RunAround(bm: seq<bool>, q: nat) returns (p: nat, n: nat)
    requires q < |bm| && !bm[q]
    ensures IsRun(bm, p, n) && p <= q < p + n
  {
    p := q;
    while p > 0 && !bm[p - 1]
      invariant p <= q && AllAre(bm, p, q + 1, false)
    {
      p := p - 1;
    }
    var e := q + 1;
    while e < |bm| && !bm[e]
      invariant q < e <= |bm| && AllAre(bm, p, e, false)
    {
      e := e + 1;
    }
    n := e - p;
  }

  /** Runs that meet are the same run. */
  lemma RunsMeet(bm: seq<bool>, p: nat, n: nat, p': nat, n': nat)
    requires IsRun(bm, p, n) && IsRun(bm, p', n')
    requires p <= p' <= p + n
    ensures p == p' && n == n'
  {
  }

  lemma MaximalTiles(bm: seq<bool>, runs: Blocks)
    requires MaximalRuns(bm, runs)
    ensures Tiles(bm, runs)
  {
    forall p, q | p in runs && q in runs && p < q
      ensures p + runs[p] <= q
    {
      assert IsRun(bm, p, runs[p]) && IsRun(bm, q, runs[q]);
    }
    forall p | p in runs
      ensures runs[p] >= 1 && AllAre(bm, p, p + runs[p], false)
    {
      assert IsRun(bm, p, runs[p]);
    }
    forall q: nat | q < |bm| && !bm[q]
      ensures exists p :: Covers(runs, p, q)
    {
      var p, n := RunAround(bm, q);
      assert Covers(runs, p, q);
    }
  }

  lemma StartsClear(bm: seq<bool>, runs: Blocks)
    requires MaximalRuns(bm, runs)
    ensures forall p :: p in runs ==> p < |bm| && !bm[p]
  {
    forall p | p in runs
      ensures p < |bm| && !bm[p]
    {
      assert IsRun(bm, p, runs[p]);
    }
  }

  /** The free runs are a function of the bitmap. */
  lemma RunsDetermined(bm: seq<bool>, r1: Blocks, r2: Blocks)
    requires MaximalRuns(bm, r1) && MaximalRuns(bm, r2)
    ensures r1 == r2
  {
    assert forall p :: p in r1 ==> IsRun(bm, p, r1[p]);
    assert forall p :: p in r2 ==> IsRun(bm, p, r2[p]);
  }

  /** Taking pages a .. a+n out of block p leaves at most a head and a tail. */
  function Carve(runs: Blocks, p: nat, a: nat, n: nat): Blocks
    requires p in runs && p <= a && a + n <= p + runs[p]
  {
    var end := p + runs[p];
    var head := if p < a then (runs - {p})[p := a - p] else runs - {p};
    if a + n < end then head[a + n := end - (a + n)] else head
  }

  lemma CarveDisjoint(runs: Blocks, p: nat, a: nat, n: nat)
    requires Disjoint(runs)
    requires p in runs && p <= a && n >= 1 && a + n <= p + runs[p]
    ensures Disjoint(Carve(runs, p, a, n))
    ensures a + n < p + runs[p] ==> a + n !in runs
  {
    var runs', end := Carve(runs, p, a, n), p + runs[p];
    forall s, t | s in runs' && t in runs' && s < t
      ensures s + runs'[s] <= t
    {
      assert s !in {p, a + n} ==> s in runs && (s + runs[s] <= p || end <= s);
      assert t !in {p, a + n} ==> t in runs && (t + runs[t] <= p || end <= t);
    }
  }

  lemma CarveTiles(bm: seq<bool>, runs: Blocks, p: nat, a: nat, n: nat)
    requires Tiles(bm, runs)
    requires p in runs && p <= a && n >= 1 && a + n <= p + runs[p]
    ensures Tiles(SetRange(bm, a, n, true), Carve(runs, p, a, n))
  {
    var bm', runs', end := SetRange(bm, a, n, true), Carve(runs, p, a, n), p + runs[p];
    CarveDisjoint(runs, p, a, n);
    forall q | q in runs'
      ensures runs'[q] >= 1 && AllAre(bm', q, q + runs'[q], false)
    {
      CarveClear(bm, runs, p, a, n, q);
    }
    forall q: nat | q < |bm'| && !bm'[q]
      ensures exists s :: Covers(runs', s, q)
    {
      var s :| Covers(runs, s, q);
      if s == p {
        assert Covers(runs', if q < a then p else a + n, q);
      } else {
        assert Covers(runs', s, q);
      }
    }
  }

  lemma CarveClear(bm: seq<bool>, runs: Blocks, p: nat, a: nat, n: nat, q: nat)
    requires Tiles(bm, runs)
    requires p in runs && p <= a && n >= 1 && a + n <= p + runs[p]
    requires q in Carve(runs, p, a, n)
    ensures var r := Carve(runs, p, a, n)[q];
            r >= 1 && AllAre(SetRange(bm, a, n, true), q, q + r, false)
  {
    assert AllAre(bm, p, p + runs[p], false);
    if q != p && !(q == a + n < p + runs[p]) {
      assert AllAre(bm, q, q + runs[q], false);
      assert q + runs[q] <= p || p + runs[p] <= q;
    }
  }

  lemma CarveMaximal(bm: seq<bool>, runs: Blocks, p: nat, a: nat, n: nat)
    requires MaximalRuns(bm, runs)
    requires p in runs && p <= a && n >= 1 && a + n <= p + runs[p]
    ensures MaximalRuns(SetRange(bm, a, n, true), Carve(runs, p, a, n))
  {
    var bm', runs' := SetRange(bm, a, n, true), Carve(runs, p, a, n);
    MaximalTiles(bm, runs);
    CarveTiles(bm, runs, p, a, n);
    forall s | s in runs'
      ensures IsRun(bm', s, runs'[s])
    {
      CarvedRun(bm, runs, p, a, n, s);
    }
    TilesOfRuns(bm', runs');
  }

  lemma CarvedRun(bm: seq<bool>, runs: Blocks, p: nat, a: nat, n: nat, s: nat)
    requires MaximalRuns(bm, runs) && Tiles(bm, runs)
    requires p in runs && p <= a && n >= 1 && a + n <= p + runs[p]
    requires s in Carve(runs, p, a, n)
    ensures IsRun(SetRange(bm, a, n, true), s, Carve(runs, p, a, n)[s])
  {
    CarveClear(bm, runs, p, a, n, s);
    hide Tiles;
    assert IsRun(bm, p, runs[p]);
    if s != p && !(s == a + n < p + runs[p]) {
      assert IsRun(bm, s, runs[s]);
    }
  }

  /** A tiling by maximal runs misses none. */
  lemma TilesOfRuns(bm: seq<bool>, runs: Blocks)
    requires Tiles(bm, runs)
    requires forall s :: s in runs ==> IsRun(bm, s, runs[s])
    ensures MaximalRuns(bm, runs)
  {
    forall s: nat, m: nat | IsRun(bm, s, m)
      ensures s in runs && runs[s] == m
    {
      assert !bm[s];
      var t :| Covers(runs, t, s);
      RunsMeet(bm, t, runs[t], s, m);
    }
  }

  /** Where the run of clear bits that ends at s starts, and where the one that
      starts at e ends. */
  ghost function Before(bm: seq<bool>, s: nat): (b: nat)
    requires s <= |bm|
    ensures b <= s
  {
    if s == 0 || bm[s - 1] then s else Before(bm, s - 1)
  }

  ghost function After(bm: seq<bool>, e: nat): (a: nat)
    requires e <= |bm|
    ensures e <= a <= |bm|
    decreases |bm| - e
  {
    if e == |bm| || bm[e] then e else After(bm, e + 1)
  }

  lemma {:induction false} BeforeSpec(bm: seq<bool>, s: nat)
    requires s <= |bm|
    ensures var b := Before(bm, s);
            AllAre(bm, b, s, false) && (b == 0 || bm[b - 1])
  {
    if s > 0 && !bm[s - 1] {
      BeforeSpec(bm, s - 1);
    }
  }

  lemma {:induction false} AfterSpec(bm: seq<bool>, e: nat)
    requires e <= |bm|
    ensures var a := After(bm, e);
            AllAre(bm, e, a, false) && (a == |bm| || bm[a])
    decreases |bm| - e
  {
    if e < |bm| && !bm[e] {
      AfterSpec(bm, e + 1);
    }
  }

  lemma {:induction false} BeforeFrame(bm: seq<bool>, bm': seq<bool>, s: nat)
    requires s <= |bm| == |bm'| && forall i :: 0 <= i < s ==> bm[i] == bm'[i]
    ensures Before(bm, s) == Before(bm', s)
  {
    if s > 0 && !bm[s - 1] {
      BeforeFrame(bm, bm', s - 1);
    }
  }

  lemma {:induction false} AfterFrame(bm: seq<bool>, bm': seq<bool>, e: nat)
    requires e <= |bm| == |bm'| && forall i :: e <= i < |bm| ==> bm[i] == bm'[i]
    ensures After(bm, e) == After(bm', e)
    decreases |bm| - e
  {
    if e < |bm| && !bm[e] {
      AfterFrame(bm, bm', e + 1);
    }
  }

  /** The run map after pages s .. s+c are freed: the run before and the run
      after are absorbed. */
  ghost function Merge(bm: seq<bool>, runs: Blocks, s: nat, c: nat): Blocks
    requires s + c <= |bm|
  {
    (runs - {Before(bm, s), s + c})[Before(bm, s) := After(bm, s + c) - Before(bm, s)]
  }

  lemma MergeMaximal(bm: seq<bool>, runs: Blocks, s: nat, c: nat)
    requires MaximalRuns(bm, runs)
    requires c >= 1 && AllAre(bm, s, s + c, true)
    ensures MaximalRuns(SetRange(bm, s, c, false), Merge(bm, runs, s, c))
  {
    var bm', runs' := SetRange(bm, s, c, false), Merge(bm, runs, s, c);
    var b, e := Before(bm, s), After(bm, s + c);
    BeforeSpec(bm, s);
    AfterSpec(bm, s + c);
    hide Before, After;
    assert IsRun(bm', b, e - b);
    forall p: nat, n: nat | IsRun(bm', p, n)
      ensures p in runs' && runs'[p] == n
    {
      if b <= p <= e {
        RunsMeet(bm', b, e - b, p, n);
      } else {
        assert p < b ==> p + n < b;
        assert forall q :: p <= q < p + n ==> !bm'[q] && bm'[q] == bm[q];
        assert IsRun(bm, p, n);
      }
    }
    forall p | p in runs'
      ensures IsRun(bm', p, runs'[p])
    {
      if p != b {
        assert IsRun(bm, p, runs[p]);
        NeighbourRuns(bm, s, c, p, runs[p]);
      }
    }
  }

  lemma NeighbourRuns(bm: seq<bool>, s: nat, c: nat, p: nat, n: nat)
    requires c >= 1 && AllAre(bm, s, s + c, true)
    requires IsRun(bm, p, n) && p != Before(bm, s) && p != s + c
    ensures IsRun(SetRange(bm, s, c, false), p, n)
  {
    BeforeSpec(bm, s);
    var b := Before(bm, s);
    assert !bm[p] && bm[s];
    assert p < s && p + n == s ==> p == b;
  }

  /** Freeing what was carved out gives the old free runs back. */
  lemma CarveMergeInverse(bm: seq<bool>, runs: Blocks, p: nat, a: nat, n: nat)
    requires MaximalRuns(bm, runs)
    requires p in runs && p <= a && n >= 1 && a + n <= p + runs[p]
    ensures a + n <= |bm|
    ensures var bm' := SetRange(bm, a, n, true);
            SetRange(bm', a, n, false) == bm
            && Merge(bm', Carve(runs, p, a, n), a, n) == runs
  {
    var bm' := SetRange(bm, a, n, true);
    assert IsRun(bm, p, runs[p]);
    assert SetRange(bm', a, n, false) == bm;
    CarveMaximal(bm, runs, p, a, n);
    MergeMaximal(bm', Carve(runs, p, a, n), a, n);
    RunsDetermined(bm, runs, Merge(bm', Carve(runs, p, a, n), a, n));
  }
}
