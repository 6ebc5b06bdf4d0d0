/** The kernel's formatted output and number reader: the bounded output
    context, the digit loops and strtoull. */
module Stdio {
  import opened Numerals

  function Min(a: nat, b: nat): nat {
    if a < b then a else b
  }

  // ----- sizes of digit strings

  function Pow2(n: nat): (r: nat)
    ensures r > 0
  {
    if n == 0 then 1 else 2 * Pow2(n - 1)
  }

  lemma {:induction false} Pow2Grows(k: nat, n: nat)
    requires k <= n
    ensures Pow2(k) <= Pow2(n)
    decreases n
  {
    if k < n { Pow2Grows(k, n - 1); }
  }

  lemma Pow2Double(n: nat, v: nat)
    requires Pow2(n) == v
    ensures Pow2(n + n) == v * v
  {
    Pow2Sum(n, n);
  }

  lemma Pow2Of64()
    ensures Pow2(64) == WORD
  {
    assert Pow2(1) == 2;
    hide Pow2;
    Pow2Double(1, 2);
    Pow2Double(2, 4);
    Pow2Double(4, 16);
    Pow2Double(8, 256);
    Pow2Double(16, 0x1_0000);
    Pow2Double(32, 0x1_0000_0000);
  }

  lemma {:induction false} Pow2Sum(a: nat, b: nat)
    ensures Pow2(a + b) == Pow2(a) * Pow2(b)
  {
    if a > 0 {
      Pow2Sum(a - 1, b);
      assert Pow2(a + b) == 2 * (Pow2(a - 1) * Pow2(b));
    }
  }

  /** k digits have been taken off a 64-bit number and val is left: there is
      room for d more as long as val is at least 2 to the d - 1. */
  ghost predicate Room(val: nat, k: nat, whole: nat) {
    val * Pow2(k) <= whole < WORD
  }

  lemma RoomFor(val: nat, k: nat, whole: nat, d: nat)
    requires Room(val, k, whole) && d >= 1 && val >= Pow2(d - 1)
    ensures k + d <= 64
  {
    assert val * Pow2(k) >= Pow2(d - 1) * Pow2(k);
    Pow2Sum(d - 1, k);
    Pow2Of64();
    if k + d > 64 {
      Pow2Grows(64, k + d - 1);
    }
  }

  lemma RoomStep(val: nat, k: nat, whole: nat, base: nat)
    requires Room(val, k, whole) && base >= 2
    ensures Room(Quot(val, base), k + 1, whole)
  {
    hide Quot;
    DivSmaller(val, base);
    var q := Quot(val, base);
    assert q * Pow2(k + 1) == (q * 2) * Pow2(k);
    assert (q * 2) * Pow2(k) <= val * Pow2(k);
  }

  // ----- two decimal digits at a time

  /** map100: the digits of 00 to 99, one pair after another. */
  function Map100(k: nat): char
    requires k < 200
  {
    DigitChar(if k % 2 == 0 then k / 2 / 10 else k / 2 % 10, false)
  }

  lemma TwoDigits(v: nat)
    requires v >= 10
    ensures Digits(v, 10, false) ==
            Digits(v / 100, 10, false) + [Map100(v % 100 * 2), Map100(v % 100 * 2 + 1)]
  {
    hide DigitChar;
    Hundreds(v);
    PairOf(v % 100);
    assert Digits(v, 10, false) == Digits(v / 10, 10, false) + [DigitChar(v % 10, false)];
    assert Digits(v / 10, 10, false) == Digits(v / 10 / 10, 10, false) + [DigitChar(v / 10 % 10, false)];
  }

  lemma PairOf(r: nat)
    requires r < 100
    ensures Map100(r * 2) == DigitChar(r / 10, false) && Map100(r * 2 + 1) == DigitChar(r % 10, false)
  {
  }

  lemma Hundreds(v: nat)
    ensures v / 10 / 10 == v / 100 && v % 100 / 10 == v / 10 % 10 && v % 100 % 10 == v % 10
  {
  }

  // ----- the digit loops

  /** The digits of a number in the last places of a 66-character buffer,
      filled backwards. */
  method WriteDigits(tmp: array<char>, value: nat, base: nat, upper: bool) returns (i: nat)
    requires tmp.Length == 66 && value < WORD && 2 <= base <= 16 && (base == 10 ==> !upper)
    modifies tmp
    ensures i <= 65 && tmp[i..65] == Numeral(value, base, upper)
  {
    if value == 0 {
      tmp[64] := '0';
      assert tmp[64..65] == "0";
      return 64;
    }
    assert Pow2(0) == 1;
    if base == 10 {
      i := WriteDecimal(tmp, value);
    } else {
      i := WriteInBase(tmp, value, base, upper);
    }
  }

  /** One digit at a time, as for bases 16, 2 and the others. */
  method WriteInBase(tmp: array<char>, value: nat, base: nat, upper: bool) returns (i: nat)
    requires tmp.Length == 66 && value < WORD && 2 <= base <= 16
    modifies tmp
    ensures i <= 65 && tmp[i..65] == Digits(value, base, upper)
  {
    hide Room, DigitChar, Quot, Rem;
    i := 65;
    var val: nat := value;
    RoomStart(value);
    while val != 0
      invariant 1 <= i <= 65 && Room(val, 65 - i, value)
      invariant Digits(val, base, upper) + tmp[i..65] == Digits(value, base, upper)
    {
      assert Pow2(0) == 1;
      RoomFor(val, 65 - i, value, 1);
      DivSmaller(val, base);
      RoomStep(val, 65 - i, value, base);
      ghost var rest, high := tmp[i..65], Digits(Quot(val, base), base, upper);
      i := i - 1;
      tmp[i] := DigitChar(Rem(val, base), upper);
      assert tmp[i..65] == [tmp[i]] + rest;
      assert (high + [tmp[i]]) + rest == high + ([tmp[i]] + rest);
      val := Quot(val, base);
    }
  }

  lemma RoomStart(value: nat)
    requires value < WORD
    ensures Room(value, 0, value)
  {
    assert Pow2(0) == 1;
  }

  lemma NoMore()
    ensures Digits(0, 10, false) == ""
  {
  }

  lemma OneDigit(v: nat)
    requires 0 < v < 10
    ensures Digits(v, 10, false) == ['0' + v as char]
  {
    assert Digits(0, 10, false) == "";
  }

  lemma SmallPowers()
    ensures Pow2(0) == 1 && Pow2(3) == 8
  {
  }

  lemma RoomTwo(val: nat, k: nat, whole: nat)
    requires Room(val, k, whole)
    ensures Room(val / 100, k + 2, whole)
  {
    hide Room;
    RoomStep(val, k, whole, 10);
    RoomStep(val / 10, k + 1, whole, 10);
    Hundreds(val);
  }

  /** Two digits at a time. */
  method WriteDecimal(tmp: array<char>, value: nat) returns (i: nat)
    requires tmp.Length == 66 && 0 < value < WORD
    modifies tmp
    ensures i <= 65 && tmp[i..65] == Digits(value, 10, false)
  {
    hide Room, Map100, Pow2, Digits;
    i := 65;
    var val := value;
    RoomStart(value);
    SmallPowers();
    while val >= 100
      invariant 1 <= i <= 65 && val > 0 && Room(val, 65 - i, value)
      invariant Digits(val, 10, false) + tmp[i..65] == Digits(value, 10, false)
    {
      RoomFor(val, 65 - i, value, 4);
      RoomTwo(val, 65 - i, value);
      TwoDigits(val);
      ghost var rest := tmp[i..65];
      var rem := val % 100;
      val := val / 100;
      i := i - 1;
      tmp[i] := Map100(rem * 2 + 1);
      i := i - 1;
      tmp[i] := Map100(rem * 2);
      assert tmp[i..65] == [tmp[i], tmp[i + 1]] + rest;
    }
    ghost var rest := tmp[i..65];
    if val >= 10 {
      RoomFor(val, 65 - i, value, 4);
      TwoDigits(val);
      NoMore();
      i := i - 1;
      tmp[i] := Map100(val * 2 + 1);
      i := i - 1;
      tmp[i] := Map100(val * 2);
      assert tmp[i..65] == [tmp[i], tmp[i + 1]] + rest;
    } else {
      RoomFor(val, 65 - i, value, 1);
      OneDigit(val);
      i := i - 1;
      tmp[i] := '0' + val as char;
      assert tmp[i..65] == [tmp[i]] + rest;
    }
  }

  /** memcpy and memset. */
  method CopyInto(buf: array<char>, at: nat, s: string)
    requires at + |s| <= buf.Length
    modifies buf
    ensures buf[..at] == old(buf[..at]) && buf[at..at + |s|] == s && buf[at + |s|..] == old(buf[at + |s|..])
  {
    for k := 0 to |s|
      invariant buf[..at] == old(buf[..at]) && buf[at..at + k] == s[..k] && buf[at + k..] == old(buf[at + k..])
    {
      buf[at + k] := s[k];
      assert buf[at..at + k + 1] == buf[at..at + k] + [s[k]];
      assert buf[at + k + 1..] == buf[at + k..][1..] && old(buf[at + k + 1..]) == old(buf[at + k..][1..]);
    }
  }

  // ----- the output context

  /** An output position over a bounded buffer. */
  class Context {
    const buf: array<char>
    const cap: nat
    var pos: nat
    ghost var out: string

    /** The buffer holds the first min(pos, cap) characters of everything
        written, and the position is its full length. */
    ghost predicate Valid()
      reads this, buf
    {
      cap <= buf.Length && |out| == pos && buf[..Min(pos, cap)] == out[..Min(pos, cap)]
    }

    /** The context of vsnprintf: one place is kept for the terminator. */
    constructor (buf: array<char>, size: nat)
      requires size <= buf.Length
      ensures Valid() && this.buf == buf && cap == (if size > 0 then size - 1 else 0) && out == ""
    {
      this.buf := buf;
      cap := if size > 0 then size - 1 else 0;
      pos := 0;
      out := "";
    }

    method Putc(c: char)
      requires Valid()
      modifies this, buf
      ensures Valid() && out == old(out) + [c]
    {
      if pos < cap {
        buf[pos] := c;
      }
      pos := pos + 1;
      out := out + [c];
    }

    method Write(s: string)
      requires Valid()
      modifies this, buf
      ensures Valid() && out == old(out) + s
    {
      if s == "" {
        return;
      }
      var avail := if cap > pos then cap - pos else 0;
      var copy := Min(|s|, avail);
      if copy > 0 {
        CopyInto(buf, pos, s[..copy]);
      }
      pos := pos + |s|;
      out := out + s;
    }

    method Pad(c: char, n: int)
      requires Valid()
      modifies this, buf
      ensures Valid() && out == old(out) + Repeat(c, if n > 0 then n else 0)
    {
      if n <= 0 {
        return;
      }
      var avail := if cap > pos then cap - pos else 0;
      var fill := Min(n, avail);
      if fill > 0 {
        CopyInto(buf, pos, Repeat(c, fill));
      }
      pos := pos + n;
      out := out + Repeat(c, n);
    }

    /** What goes in front of the digits. */
    method Front(flags: Flags, prefix: string, padding: nat)
      requires Valid()
      modifies this, buf
      ensures Valid() && out == old(out) + FrontOf(flags, prefix, padding)
    {
      hide Repeat, Valid;
      if !flags.left {
        if flags.zero {
          Write(prefix);
          Pad('0', padding);
        } else {
          Pad(' ', padding);
          Write(prefix);
        }
      } else {
        Write(prefix);
      }
    }

    /** _internal_printf_fmt_uint */
    method FmtUint(value: nat, base: nat, width: nat, flags: Flags, upper: bool, prefix: string)
      requires Valid() && value < WORD && 2 <= base <= 16 && (base == 10 ==> !upper)
      modifies this, buf
      ensures Valid() && out == old(out) + Formatted(value, base, width, flags, upper, prefix)
    {
      hide Numeral, Repeat, Valid, FrontOf, Formatted;
      var tmp := new char[66];
      var i := WriteDigits(tmp, value, base, upper);
      var num := tmp[i..65];
      var total := |num| + |prefix|;
      var padding := if width > total then width - total else 0;
      FormattedAs(value, base, width, flags, upper, prefix);
      ghost var before := out;
      Front(flags, prefix, padding);
      Write(num);
      assert out == before + (FrontOf(flags, prefix, padding) + num);
      if flags.left {
        Pad(' ', padding);
        assert out == before + (FrontOf(flags, prefix, padding) + num + Repeat(' ', padding));
      }
    }

    /** _internal_printf_fmt_signed, for a 64-bit two's complement number. */
    method FmtSigned(value: int, width: nat, flags: Flags)
      requires Valid() && -0x8000_0000_0000_0000 <= value < 0x8000_0000_0000_0000
      modifies this, buf
      ensures Valid()
      ensures old(out) <= out && |out| >= |old(out)| + width
      ensures var text := out[|old(out)|..];
              && ReadSigned(text) == value
              && (FirstMark(text) == '-' <==> value < 0) && (FirstMark(text) == '+' <==> value >= 0 && flags.sign)
              && (value >= 0 && !flags.sign && flags.space ==> At(text, 0) == ' ')
      ensures out == old(out) + Formatted(if value < 0 then -value else value, 10, width, flags, false,
                                          SignOf(value, flags))
    {
      hide Formatted, ReadSigned, FirstMark, Valid;
      ghost var v: nat := if value < 0 then -value else value;
      SignedRoundTrip(v, width, flags, SignOf(value, flags));
      WidthMet(v, 10, width, flags, false, SignOf(value, flags));
      if value < 0 {
        FmtUint(-(value + 1) + 1, 10, width, flags, false, "-");
      } else if flags.sign {
        FmtUint(value, 10, width, flags, false, "+");
      } else if flags.space {
        FmtUint(value, 10, width, flags, false, " ");
      } else {
        FmtUint(value, 10, width, flags, false, "");
      }
    }

    /** The terminator vsnprintf puts behind what fits. */
    method Terminate(size: nat) returns (n: nat)
      requires Valid() && size <= buf.Length && cap == (if size > 0 then size - 1 else 0)
      modifies buf
      ensures n == |out| && out == old(out)
      ensures size > 0 ==> buf[..Min(n, cap)] == out[..Min(n, cap)] && buf[Min(n, cap)] == '\0'
    {
      if size > 0 {
        buf[Min(pos, cap)] := '\0';
      }
      return pos;
    }
  }

  function FrontOf(flags: Flags, prefix: string, padding: nat): string {
    if flags.left then prefix else if flags.zero then prefix + Repeat('0', padding) else Repeat(' ', padding) + prefix
  }

  lemma FormattedAs(v: nat, base: nat, width: nat, flags: Flags, upper: bool, prefix: string)
    requires 2 <= base <= 16
    ensures var num, pad := Numeral(v, base, upper), Padding(v, base, width, upper, prefix);
            Formatted(v, base, width, flags, upper, prefix) ==
            FrontOf(flags, prefix, pad) + num + (if flags.left then Repeat(' ', pad) else "")
  {
  }

  function SignOf(value: int, flags: Flags): string {
    if value < 0 then "-" else if flags.sign then "+" else if flags.space then " " else ""
  }

  // ----- reading

  lemma MulMod(a: nat, b: nat, d: nat)
    ensures (a % WORD * b + d) % WORD == (a * b + d) % WORD
  {
    var q := a / WORD;
    assert a == q * WORD + a % WORD;
    assert a * b + d == (a % WORD * b + d) + q * b * WORD;
    AddMultiple(a % WORD * b + d, q * b);
  }

  lemma AddMultiple(x: nat, k: nat)
    ensures (x + k * WORD) % WORD == x % WORD
  {
  }

  lemma {:induction false} LeadingStep(s: string, hex: bool, k: nat)
    requires k <= |Leading(s, hex)|
    ensures k <= |s| && s[..k] == Leading(s, hex)[..k]
    ensures k < |Leading(s, hex)| <==> k < |s| && (if hex then IsHex(s[k]) else IsDec(s[k]))
  {
    if k > 0 {
      LeadingStep(s[1..], hex, k - 1);
      assert s[..k] == [s[0]] + s[1..][..k - 1];
      assert Leading(s, hex)[..k] == [s[0]] + Leading(s[1..], hex)[..k - 1];
    }
  }

  lemma ReadStep(d: string, k: nat, base: nat, val: nat)
    requires AllHex(d) && k < |d| && val == Value(d[..k], base) % WORD
    ensures (val * base + DigitVal(d[k])) % WORD == Value(d[..k + 1], base) % WORD
  {
    hide IsHex, DigitVal;
    assert d[..k + 1][..k] == d[..k];
    MulMod(Value(d[..k], base), base, DigitVal(d[k]));
  }

  /** One of strtoull's two loops. */
  method ReadDigits(s: string, hex: bool) returns (val: nat)
    ensures val == Value(Leading(s, hex), if hex then 16 else 10) % WORD
  {
    hide IsDec, IsHex, DigitVal, Value, Leading;
    val := 0;
    var k := 0;
    var base := if hex then 16 else 10;
    ghost var d := Leading(s, hex);
    LeadingStep(s, hex, 0);
    Nothing(base);
    while k < |s| && (if hex then IsHex(s[k]) else IsDec(s[k]))
      invariant k <= |d| && val == Value(d[..k], base) % WORD
      invariant k < |d| <==> k < |s| && (if hex then IsHex(s[k]) else IsDec(s[k]))
    {
      LeadingStep(s, hex, k + 1);
      assert d[k] == s[..k + 1][k];
      ReadStep(d, k, base, val);
      val := (val * base + DigitVal(s[k])) % WORD;
      k := k + 1;
    }
    assert d[..k] == d;
  }

  lemma Nothing(base: nat)
    ensures Value("", base) == 0
  {
  }

  /** strtoull */
  method Strtoull(s: string) returns (val: nat)
    ensures val == Read(s)
  {
    if At(s, 0) == '0' && (At(s, 1) == 'x' || At(s, 1) == 'X') {
      val := ReadDigits(s[2..], true);
    } else {
      val := ReadDigits(s, false);
    }
  }

  /** ptrthex: sixteen upper-case digits and a terminator. */
  method PtrToHex(buf: array<char>, value: nat)
    requires buf.Length >= 17 && value < WORD
    modifies buf
    ensures AllHex(buf[..16]) && Value(buf[..16], 16) == value && buf[16] == '\0'
    ensures forall i :: 0 <= i < 16 ==> InCase(buf[i], true)
    ensures buf[17..] == old(buf[17..])
  {
    hide Pow16, Value, DigitChar;
    var val := value;
    var i := 16;
    ghost var k := 0;
    NoDigits(value);
    while i > 0
      invariant 0 <= i <= 16 && AllHex(buf[i..16]) && k == 16 - i
      invariant val * Pow16(k) + Value(buf[i..16], 16) == value && Value(buf[i..16], 16) < Pow16(k)
      invariant buf[17..] == old(buf[17..]) && forall j :: i <= j < 16 ==> InCase(buf[j], true)
    {
      i := i - 1;
      ghost var rest := buf[i + 1..16];
      DigitRoundTrip(val % 16, true);
      buf[i] := DigitChar(val % 16, true);
      assert buf[i..16] == [buf[i]] + rest;
      HighDigit(buf[i], rest);
      HexStep(val, k, Value(rest, 16));
      val := val / 16;
      k := k + 1;
    }
    Pow16Of16();
    HighIsZero(val, Value(buf[0..16], 16), value);
    buf[16] := '\0';
    assert buf[..16] == buf[0..16];
  }

  function Pow16(k: nat): (r: nat)
    ensures r > 0
  {
    if k == 0 then 1 else 16 * Pow16(k - 1)
  }

  lemma Pow16Of16()
    ensures Pow16(16) == WORD
  {
    assert Pow16(4) == 0x1_0000;
    assert Pow16(8) == 0x1_0000_0000;
    assert Pow16(12) == 0x1_0000_0000_0000;
  }

  lemma NextHex(val: nat, k: nat)
    ensures val * Pow16(k) == val / 16 * Pow16(k + 1) + val % 16 * Pow16(k)
    ensures val % 16 * Pow16(k) + Pow16(k) <= Pow16(k + 1)
  {
    Spread(val / 16, val % 16, Pow16(k));
  }

  lemma Spread(q: nat, r: nat, p: nat)
    requires r < 16
    ensures (q * 16 + r) * p == q * (16 * p) + r * p
    ensures r * p + p <= 16 * p
  {
    Distribute(q * 16, r, p);
    assert (r + 1) * p <= 16 * p;
  }

  lemma Distribute(a: nat, b: nat, p: nat)
    ensures (a + b) * p == a * p + b * p
  {
  }

  lemma NoDigits(value: nat)
    ensures Value("", 16) == 0 && Pow16(0) == 1 && value * Pow16(0) == value
  {
  }

  lemma HighIsZero(val: nat, low: nat, value: nat)
    requires val * WORD + low == value < WORD
    ensures low == value
  {
  }

  lemma HexStep(val: nat, k: nat, rest: nat)
    requires rest < Pow16(k)
    ensures val * Pow16(k) + rest == val / 16 * Pow16(k + 1) + (val % 16 * Pow16(k) + rest)
    ensures val % 16 * Pow16(k) + rest < Pow16(k + 1)
  {
    NextHex(val, k);
  }

  lemma Horner(a: nat, p: nat, b: nat, d: nat)
    ensures (a * p + b) * 16 + d == a * (16 * p) + (b * 16 + d)
  {
  }

  /** A digit in front counts as many times the power of the length. */
  lemma {:induction false} HighDigit(c: char, s: string)
    requires IsHex(c) && AllHex(s)
    ensures AllHex([c] + s) && Value([c] + s, 16) == DigitVal(c) * Pow16(|s|) + Value(s, 16)
  {
    hide DigitVal, IsHex;
    var t := [c] + s;
    if s == "" {
      assert t[..0] == "" && t == [c];
    } else {
      var r := s[..|s| - 1];
      assert t[..|t| - 1] == [c] + r;
      HighDigit(c, r);
      Horner(DigitVal(c), Pow16(|r|), Value(r, 16), DigitVal(s[|s| - 1]));
    }
  }
}
