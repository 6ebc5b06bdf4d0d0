/** Bounded random numbers without bias: the multiply-and-reject reduction of a
    32-bit draw to a range. */
module Rand {

  const WORD: nat := 0x1_0000_0000

  /** The code's computation of the rejection threshold, in 64-bit and 32-bit
      unsigned arithmetic: negate, then reduce by at most one subtraction before
      falling back on a division. */
  method Threshold(range: nat) returns (t: nat)
    requires 0 < range <= WORD
    ensures t == WORD % range
  {
    t := (0x1_0000_0000_0000_0000 - range) % WORD;
    Negated(range);
    if t >= range {
      t := t - range;
      SubtractOnce(WORD - range, range);
      if t >= range {
        t := t % range;
      }
      SmallMod(WORD - 2 * range, range);
    }
    SubtractOnce(WORD, range);
    SmallMod(WORD - range, range);
  }

  lemma Negated(range: nat)
    requires 0 < range <= WORD
    ensures (0x1_0000_0000_0000_0000 - range) % WORD == if range == WORD then 0 else WORD - range
  {
  }

  lemma SubtractOnce(a: nat, r: nat)
    requires 0 < r <= a
    ensures a % r == (a - r) % r
  {
    var q, m := (a - r) / r, (a - r) % r;
    assert a == (q + 1) * r + m;
    ModUnique(a, r, q + 1, m);
  }

  lemma SmallMod(a: int, r: nat)
    requires 0 < r
    ensures 0 <= a < r ==> a % r == a
  {
  }

  lemma ModUnique(a: nat, r: nat, q: nat, m: nat)
    requires m < r && a == q * r + m
    ensures a / r == q && a % r == m
  {
    var d := a / r - q;
    assert a == (a / r) * r + a % r;
    assert d * r == (a / r) * r - q * r;
    assert d > 0 ==> d * r >= r;
    assert d < 0 ==> d * r <= -1 * r;
  }

  function Product(x: nat, range: nat): nat {
    x * range
  }

  /** What the code returns, relative to the start of the range, for a draw. */
  function Value(x: nat, range: nat): nat {
    Product(x, range) / WORD
  }

  /** The draw is used: the code looks at the threshold only if the low half of
      the product is below the range. */
  predicate Used(x: nat, range: nat)
    requires range > 0
  {
    Product(x, range) % WORD >= range || Product(x, range) % WORD >= WORD % range
  }

  /** The shortcut never changes which draws are used. */
  lemma ShortcutSafe(x: nat, range: nat)
    requires 0 < range <= WORD
    ensures Used(x, range) <==> Product(x, range) % WORD >= WORD % range
  {
  }

  /** The first draw that gives value v and is used. */
  ghost function FirstDraw(range: nat, v: nat): nat
    requires range > 0
  {
    (v * WORD + WORD % range + range - 1) / range
  }

  /** A draw gives v and is used exactly when it is one of WORD / range
      consecutive draws. */
  lemma DrawsOf(range: nat, v: nat, x: nat)
    requires 0 < range <= WORD
    ensures Value(x, range) == v && Used(x, range) <==>
            FirstDraw(range, v) <= x < FirstDraw(range, v) + WORD / range
  {
    var t, q, x0 := WORD % range, WORD / range, FirstDraw(range, v);
    var low := v * WORD + t;
    ShortcutSafe(x, range);
    ValueUsed(x * range, v, t);
    CeilDiv(low, range, x);
    CeilDivShift(low, range, x, q);
    assert q * range == WORD - t;
    assert (v + 1) * WORD == low + q * range;
  }

  lemma ValueUsed(p: nat, v: nat, t: nat)
    requires t < WORD
    ensures p / WORD == v && p % WORD >= t <==> v * WORD + t <= p < (v + 1) * WORD
  {
    assert p == p / WORD * WORD + p % WORD;
  }

  lemma CeilDiv(low: nat, r: nat, x: int)
    requires r > 0
    ensures x * r >= low <==> x >= (low + r - 1) / r
  {
    var c := (low + r - 1) / r;
    assert c * r <= low + r - 1 < c * r + r;
    if x >= c {
      assert x * r >= c * r;
    } else {
      assert x * r <= (c - 1) * r;
      assert (c - 1) * r == c * r - r;
    }
  }

  lemma CeilDivShift(low: nat, r: nat, x: nat, q: nat)
    requires r > 0
    ensures x * r < low + q * r <==> x < (low + r - 1) / r + q
  {
    CeilDiv(low, r, x - q);
    assert (x - q) * r == x * r - q * r;
  }

  /** The 32-bit draws that give value v and are used. */
  ghost function Draws(range: nat, v: nat): set<nat>
    requires range > 0
  {
    set x: nat | 0 <= x < WORD && Value(x, range) == v && Used(x, range)
  }

  predicate Within(lo: nat, n: nat, x: nat) {
    lo <= x < lo + n
  }

  ghost function Interval(lo: nat, n: nat): set<nat> {
    set x: nat | x < lo + n && Within(lo, n, x)
  }

  lemma {:induction false} IntervalSize(lo: nat, n: nat)
    ensures |Interval(lo, n)| == n
  {
    if n == 0 {
      assert Interval(lo, n) == {};
    } else {
      IntervalSize(lo, n - 1);
      assert Interval(lo, n) == Interval(lo, n - 1) + {lo + n - 1};
    }
  }

  /** No bias: every value of the range is produced by the same number of
      draws. */
  lemma Unbiased(range: nat, v: nat)
    requires 0 < range <= WORD && v < range
    ensures |Draws(range, v)| == WORD / range
  {
    var x0, q := FirstDraw(range, v), WORD / range;
    forall x: nat
      ensures x in Interval(x0, q) <==> x in Draws(range, v)
    {
      DrawsOf(range, v, x);
      if x in Interval(x0, q) {
        ProductBound(x, range, v);
      }
    }
    assert Draws(range, v) == Interval(x0, q);
    IntervalSize(x0, q);
  }

  lemma ProductBound(x: nat, range: nat, v: nat)
    requires v < range && Value(x, range) == v
    ensures x < WORD
  {
    assert x * range < (v + 1) * WORD;
    assert (v + 1) * WORD <= range * WORD;
    assert x >= WORD ==> x * range >= WORD * range;
  }

  /** Every draw yields a value of the range. */
  lemma ValueInRange(x: nat, range: nat)
    requires x < WORD && range > 0
    ensures Value(x, range) < range
  {
    MulMono(x + 1, WORD, range);
    DivBelow(x * range, range);
  }

  lemma MulMono(a: nat, b: nat, r: nat)
    requires a <= b
    ensures a * r <= b * r
  {
  }

  lemma DivBelow(p: nat, r: nat)
    requires p < r * WORD
    ensures p / WORD < r
  {
  }

  datatype Outcome = Number(value: nat) | OutOfDraws

  /** randint, fed with the generator's successive 32-bit outputs: the first
      draw that is used decides. */
  method RandInt(draws: seq<nat>, start: nat, end: nat) returns (r: Outcome, n: nat)
    requires start < WORD && end < WORD && forall i :: 0 <= i < |draws| ==> draws[i] < WORD
    ensures var lo, hi := if start <= end then start else end, if start <= end then end else start;
            var range := hi - lo + 1;
            && n <= |draws|
            && (r.OutOfDraws? ==> n == |draws| && forall i :: 0 <= i < n ==> !Used(draws[i], range))
            && (r.Number? ==>
                  && n > 0 && (forall i :: 0 <= i < n - 1 ==> !Used(draws[i], range)) && Used(draws[n - 1], range)
                  && r.value == lo + Value(draws[n - 1], range) && lo <= r.value <= hi)
  {
    hide Product, Used;
    var lo, hi := start, end;
    if lo > hi {
      lo, hi := hi, lo;
    }
    var range := hi - lo + 1;
    if draws == [] {
      return OutOfDraws, 0;
    }
    n := 1;
    var m := Product(draws[0], range);
    var l := m % WORD;
    if l < range {
      var t := Threshold(range);
      while l < t
        invariant 1 <= n <= |draws| && m == Product(draws[n - 1], range) && l == m % WORD
        invariant forall i :: 0 <= i < n - 1 ==> !Used(draws[i], range)
        decreases |draws| - n
      {
        ShortcutSafe(draws[n - 1], range);
        if n == |draws| {
          return OutOfDraws, n;
        }
        m := Product(draws[n], range);
        l := m % WORD;
        n := n + 1;
      }
    }
    ShortcutSafe(draws[n - 1], range);
    ValueInRange(draws[n - 1], range);
    r := Number((lo + m / WORD) % WORD);
  }
}
