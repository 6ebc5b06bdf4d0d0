/** The two-level size classes of the physical page allocator: how a byte size
    is mapped to a bin, and what the position of a bin says about its sizes. */
module TlsfMapping {

  const PAGE_SIZE: nat := 4096
  const SMALL_BLOCK_SIZE: nat := 0x2_0000          // 1 << PMA_FL_INDEX_SHIFT
  const SL_COUNT: nat := 32
  const FL_COUNT: nat := 32
  const SIZE_LIMIT: nat := 0x1_0000_0000_0000      // first size whose bin row is 32

  datatype Bin = Bin(fl: nat, sl: nat)

  predicate InTable(b: Bin) {
    b.fl < FL_COUNT && b.sl < SL_COUNT
  }

  /** The order in which the search visits the bins. */
  predicate BinLe(a: Bin, b: Bin) {
    a.fl < b.fl || (a.fl == b.fl && a.sl <= b.sl)
  }

  function Pow2(k: nat): (r: nat)
    ensures r >= 1
  {
    if k == 0 then 1 else 2 * Pow2(k - 1)
  }

  /** Index of the highest set bit, or -1 for zero. */
  function Fls(n: nat): (r: int)
    ensures r >= -1
    ensures n > 0 ==> r >= 0 && Pow2(r) <= n < 2 * Pow2(r)
  {
    if n == 0 then -1 else if n == 1 then 0 else 1 + Fls(n / 2)
  }

  /** `n >> k` */
  function ShiftRight(n: nat, k: nat): (r: nat) {
    if k == 0 then n else ShiftRight(n / 2, k - 1)
  }

  /** `v ^ 32` on the integer value of a word. */
  function Xor32(v: nat): nat {
    if v / 32 % 2 == 1 then v - 32 else v + 32
  }

  function MappingInsert(size: nat): Bin {
    if size < SMALL_BLOCK_SIZE then
      Bin(0, size / PAGE_SIZE)
    else
      var fl := Fls(size);
      LargeFls(size);
      Bin(fl - 16, Xor32(ShiftRight(size, fl - 5)))
  }

  /** The bin of a block of `pages` pages. */
  function BinOf(pages: nat): Bin {
    MappingInsert(pages * PAGE_SIZE)
  }

  /** The smallest size kept in a bin, and how many sizes follow it. */
  function BinFloor(b: Bin): nat {
    if b.fl == 0 then b.sl * PAGE_SIZE else (32 + b.sl) * Pow2(b.fl + 11)
  }

  function BinWidth(b: Bin): nat {
    if b.fl == 0 then PAGE_SIZE else Pow2(b.fl + 11)
  }

  lemma {:induction false} Pow2Monotone(a: nat, b: nat)
    requires a <= b
    ensures Pow2(a) <= Pow2(b)
    ensures a < b ==> 2 * Pow2(a) <= Pow2(b)
    decreases b - a
  {
    if a < b {
      Pow2Monotone(a, b - 1);
    }
  }

  lemma Pow2Table()
    ensures Pow2(5) == 32 && Pow2(12) == 4096 && Pow2(17) == SMALL_BLOCK_SIZE
  {
    assert Pow2(6) == 64 && Pow2(12) == 64 * Pow2(6) by {
      assert Pow2(3) == 8 && Pow2(6) == 8 * Pow2(3);
      assert Pow2(9) == 8 * Pow2(6) && Pow2(12) == 8 * Pow2(9);
    }
    assert Pow2(15) == 8 * Pow2(12);
  }

  lemma Pow2Limit()
    ensures Pow2(48) == SIZE_LIMIT
  {
    Pow2Table();
    Pow2Plus(12, 12);
    Pow2Plus(24, 24);
  }

  lemma {:induction false} Pow2Plus(a: nat, b: nat)
    ensures Pow2(a + b) == Pow2(a) * Pow2(b)
  {
    if b > 0 {
      Pow2Plus(a, b - 1);
      assert a + b - 1 == a + (b - 1);
      calc {
        Pow2(a + b);
        2 * Pow2(a + b - 1);
        2 * (Pow2(a) * Pow2(b - 1));
        Pow2(a) * (2 * Pow2(b - 1));
      }
    }
  }

  lemma FlsAtLeast(size: nat, k: nat)
    requires size >= Pow2(k)
    ensures Fls(size) >= k
  {
    if Fls(size) < k {
      Pow2Monotone(Fls(size), k);
    }
  }

  lemma LargeFls(size: nat)
    requires size >= SMALL_BLOCK_SIZE
    ensures Fls(size) >= 17
  {
    Pow2Table();
    FlsAtLeast(size, 17);
  }

  /** Dividing a size by its bin width gives a number in 32..63. */
  lemma TopBits(size: nat)
    requires size >= SMALL_BLOCK_SIZE
    ensures Fls(size) >= 17
    ensures var w := Pow2(Fls(size) - 5);
            w >= PAGE_SIZE && 32 * w <= size < 64 * w
  {
    Pow2Table();
    LargeFls(size);
    var fl := Fls(size);
    Pow2Plus(fl - 5, 5);
    Pow2Monotone(12, fl - 5);
  }

  /** A right shift is the quotient by a power of two. */
  lemma {:induction false} ShiftIsQuotient(n: nat, k: nat)
    ensures ShiftRight(n, k) * Pow2(k) <= n < (ShiftRight(n, k) + 1) * Pow2(k)
  {
    if k > 0 {
      ShiftIsQuotient(n / 2, k - 1);
      HalfQuotient(n, ShiftRight(n, k), Pow2(k - 1));
    }
  }

  lemma HalfQuotient(n: nat, q: nat, w: nat)
    requires q * w <= n / 2 < (q + 1) * w
    ensures q * (2 * w) <= n < (q + 1) * (2 * w)
  {
    assert q * (2 * w) == 2 * (q * w);
    assert (q + 1) * (2 * w) == 2 * ((q + 1) * w);
  }

  lemma MulMonotone(a: nat, b: nat, w: nat)
    requires a <= b
    ensures a * w <= b * w
  {
  }

  lemma LargeBounds(size: nat)
    requires size >= SMALL_BLOCK_SIZE
    ensures var b := MappingInsert(size);
            b.fl == Fls(size) - 16 > 0 && b.sl < SL_COUNT
            && BinFloor(b) <= size < BinFloor(b) + BinWidth(b)
  {
    TopBits(size);
    var fl := Fls(size);
    ShiftIsQuotient(size, fl - 5);
    TopDigits(size, ShiftRight(size, fl - 5), Pow2(fl - 5));
    assert fl - 5 == fl - 16 + 11;
  }

  lemma TopDigits(size: nat, q: nat, w: nat)
    requires q * w <= size < (q + 1) * w
    requires 32 * w <= size < 64 * w
    ensures 32 <= q < 64 && Xor32(q) == q - 32
    ensures (32 + Xor32(q)) * w <= size < (32 + Xor32(q)) * w + w
  {
    if q < 32 {
      MulMonotone(q + 1, 32, w);
    } else if 64 <= q {
      MulMonotone(64, q, w);
    }
    assert (q + 1) * w == q * w + w;
  }

  /** A bin holds exactly the sizes from its floor to its floor plus its width. */
  lemma MappingBounds(size: nat)
    ensures var b := MappingInsert(size);
            b.sl < SL_COUNT && BinFloor(b) <= size < BinFloor(b) + BinWidth(b)
    ensures size < SIZE_LIMIT ==> InTable(MappingInsert(size))
  {
    if size >= SMALL_BLOCK_SIZE {
      LargeBounds(size);
      if size < SIZE_LIMIT && Fls(size) >= 48 {
        Pow2Limit();
        Pow2Monotone(48, Fls(size));
      }
    }
  }

  /** Every size of a bin is smaller than every size of a later bin. */
  lemma BinsOrdered(a: Bin, b: Bin)
    requires a.sl < SL_COUNT && b.sl < SL_COUNT
    requires BinLe(a, b) && a != b
    ensures BinFloor(a) + BinWidth(a) <= BinFloor(b)
  {
    Pow2Table();
    var v, w := Pow2(a.fl + 11), Pow2(b.fl + 11);
    assert (33 + a.sl) * v == (32 + a.sl) * v + v;
    if a.fl == b.fl {
      MulMonotone(33 + a.sl, 32 + b.sl, v);
    } else {
      Pow2Monotone(12, b.fl + 11);
      MulMonotone(32, 32 + b.sl, w);
      if a.fl > 0 {
        Pow2Monotone(a.fl + 11, b.fl + 11);
        MulMonotone(33 + a.sl, 64, v);
      }
    }
  }

  lemma BinFloorUnique(a: Bin, b: Bin, size: nat)
    requires a.sl < SL_COUNT && b.sl < SL_COUNT
    requires BinFloor(a) <= size < BinFloor(a) + BinWidth(a)
    requires BinFloor(b) <= size < BinFloor(b) + BinWidth(b)
    ensures a == b
  {
    if a != b {
      if BinLe(a, b) {
        BinsOrdered(a, b);
      } else {
        BinsOrdered(b, a);
      }
    }
  }

  /** Larger sizes never go to an earlier bin. */
  lemma MappingMonotone(x: nat, y: nat)
    requires x <= y
    ensures BinLe(MappingInsert(x), MappingInsert(y))
  {
    MappingBounds(x);
    MappingBounds(y);
    var a, b := MappingInsert(x), MappingInsert(y);
    if !BinLe(a, b) {
      BinsOrdered(b, a);
    }
  }

  /** What the search relies on. A block found in the request's bin or a later
      one is short by less than one bin width, and never short when the bin is
      a later one; below 64 pages a bin is one page wide, so it is never short. */
  lemma FoundBlockSize(request: nat, found: nat)
    requires BinLe(BinOf(request), BinOf(found))
    ensures BinOf(request) != BinOf(found) ==> request < found
    ensures request * PAGE_SIZE < found * PAGE_SIZE + BinWidth(BinOf(request))
    ensures request < 64 ==> request <= found
    ensures request >= 64 ==> 32 * request < 33 * found
  {
    var r, f := request * PAGE_SIZE, found * PAGE_SIZE;
    var a, b := MappingInsert(r), MappingInsert(f);
    MappingBounds(r);
    MappingBounds(f);
    if a != b {
      BinsOrdered(a, b);
    }
    if request < 64 {
      NarrowBin(r);
    } else {
      LargeBounds(r);
      WidthBound(a);
    }
  }

  lemma WidthBound(b: Bin)
    requires b.fl > 0
    ensures 32 * BinWidth(b) <= BinFloor(b)
  {
    MulMonotone(32, 32 + b.sl, Pow2(b.fl + 11));
  }

  lemma NarrowBin(size: nat)
    requires size < 2 * SMALL_BLOCK_SIZE
    ensures BinWidth(MappingInsert(size)) == PAGE_SIZE
  {
    Pow2Table();
    if size >= SMALL_BLOCK_SIZE {
      TopBits(size);
      if Fls(size) > 17 {
        Pow2Monotone(18, Fls(size));
      }
    }
  }
}
