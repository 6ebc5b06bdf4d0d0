/** Written numbers as values: digit strings, what they denote, what the printer
    writes and what the reader makes of it. */
module Numerals {

  const WORD: nat := 0x1_0000_0000_0000_0000

  function DigitChar(d: nat, upper: bool): char
    requires d < 16
  {
    if d < 10 then '0' + d as char else (if upper then 'A' else 'a') + (d - 10) as char
  }

  predicate IsDec(c: char) {
    '0' <= c <= '9'
  }

  predicate IsHex(c: char) {
    '0' <= c <= '9' || 'a' <= c <= 'f' || 'A' <= c <= 'F'
  }

  function DigitVal(c: char): nat
    requires IsHex(c)
  {
    if '0' <= c <= '9' then c as int - '0' as int
    else if 'a' <= c <= 'f' then c as int - 'a' as int + 10
    else c as int - 'A' as int + 10
  }

  lemma DigitRoundTrip(d: nat, upper: bool)
    requires d < 16
    ensures var c := DigitChar(d, upper); IsHex(c) && DigitVal(c) == d && (d < 10 ==> IsDec(c)) && (IsDec(c) ==> d < 10)
    ensures d >= 10 ==> if upper then 'A' <= DigitChar(d, upper) <= 'F' else 'a' <= DigitChar(d, upper) <= 'f'
  {
  }

  // ----- digit strings

  /** The digits of a number, the highest first; none for zero. */
  function Digits(v: nat, base: nat, upper: bool): string
    requires 2 <= base <= 16
  {
    if v == 0 then "" else
    DivSmaller(v, base);
    Digits(Quot(v, base), base, upper) + [DigitChar(Rem(v, base), upper)]
  }

  function Quot(v: nat, base: nat): nat
    requires base >= 2
  {
    v / base
  }

  function Rem(v: nat, base: nat): (r: nat)
    requires base >= 2
    ensures r < base
  {
    v % base
  }

  lemma DivSmaller(v: nat, base: nat)
    requires base >= 2
    ensures v > 0 ==> Quot(v, base) < v
    ensures Quot(v, base) * 2 <= v && v == Quot(v, base) * base + Rem(v, base)
  {
    assert v / base * base >= v / base * 2;
  }

  /** How the number is written without padding. */
  function Numeral(v: nat, base: nat, upper: bool): string
    requires 2 <= base <= 16
  {
    if v == 0 then "0" else Digits(v, base, upper)
  }

  ghost predicate AllHex(s: string) {
    forall i :: 0 <= i < |s| ==> IsHex(s[i])
  }

  ghost predicate AllDec(s: string) {
    forall i :: 0 <= i < |s| ==> IsDec(s[i])
  }

  /** The number a digit string denotes. */
  function Value(s: string, base: nat): nat
    requires forall i :: 0 <= i < |s| ==> IsHex(s[i])
  {
    if s == "" then 0 else Value(s[..|s| - 1], base) * base + DigitVal(s[|s| - 1])
  }

  /** A decimal digit, or a letter of the case asked for. */
  predicate InCase(c: char, upper: bool) {
    IsDec(c) || if upper then 'A' <= c <= 'F' else 'a' <= c <= 'f'
  }

  /** Digit strings and numbers determine each other, without zeros in front and
      in the case asked for. */
  lemma {:induction false} DigitsValue(v: nat, base: nat, upper: bool)
    requires 2 <= base <= 16
    ensures AllHex(Digits(v, base, upper)) && Value(Digits(v, base, upper), base) == v
    ensures base == 10 ==> AllDec(Digits(v, base, upper))
    ensures v > 0 ==> Digits(v, base, upper) != "" && Digits(v, base, upper)[0] != '0'
    ensures forall i :: 0 <= i < |Digits(v, base, upper)| ==> InCase(Digits(v, base, upper)[i], upper)
  {
    hide Quot, Rem;
    if v > 0 {
      DivSmaller(v, base);
      DigitsValue(Quot(v, base), base, upper);
      DigitRoundTrip(Rem(v, base), upper);
      var s := Digits(v, base, upper);
      assert s[..|s| - 1] == Digits(Quot(v, base), base, upper);
    }
  }

  lemma NumeralValue(v: nat, base: nat, upper: bool)
    requires 2 <= base <= 16
    ensures AllHex(Numeral(v, base, upper)) && Value(Numeral(v, base, upper), base) == v
    ensures Numeral(v, base, upper) != ""
    ensures base == 10 ==> AllDec(Numeral(v, base, upper))
  {
    DigitsValue(v, base, upper);
    if v == 0 {
      assert "0"[..0] == "";
    }
  }

  function Repeat(c: char, n: nat): (s: string)
    ensures |s| == n && forall i :: 0 <= i < n ==> s[i] == c
  {
    if n == 0 then "" else Repeat(c, n - 1) + [c]
  }

  lemma {:induction false} LeadingZeros(n: nat, s: string, base: nat)
    requires AllHex(s)
    ensures AllHex(Repeat('0', n) + s) && Value(Repeat('0', n) + s, base) == Value(s, base)
    decreases |s| + n
  {
    var t := Repeat('0', n) + s;
    if s != "" {
      var r := s[..|s| - 1];
      assert t[..|t| - 1] == Repeat('0', n) + r;
      LeadingZeros(n, r, base);
    } else if n > 0 {
      assert t == Repeat('0', n) && t[..|t| - 1] == Repeat('0', n - 1) + "";
      LeadingZeros(n - 1, "", base);
    } else {
      assert t == "";
    }
  }

  // ----- what the printer writes

  datatype Flags = Flags(zero: bool, left: bool, space: bool, sign: bool)

  function Padding(v: nat, base: nat, width: nat, upper: bool, prefix: string): nat
    requires 2 <= base <= 16
  {
    var total := |Numeral(v, base, upper)| + |prefix|;
    if width > total then width - total else 0
  }

  function Formatted(v: nat, base: nat, width: nat, flags: Flags, upper: bool, prefix: string): string
    requires 2 <= base <= 16
  {
    var num, pad := Numeral(v, base, upper), Padding(v, base, width, upper, prefix);
    if flags.left then prefix + num + Repeat(' ', pad)
    else if flags.zero then prefix + Repeat('0', pad) + num
    else Repeat(' ', pad) + prefix + num
  }

  /** The text is as wide as asked for, or as long as its prefix and digits when
      these are longer, and the digits stand at the side asked for. */
  lemma WidthMet(v: nat, base: nat, width: nat, flags: Flags, upper: bool, prefix: string)
    requires 2 <= base <= 16
    ensures var f, num := Formatted(v, base, width, flags, upper, prefix), Numeral(v, base, upper);
            && |f| == (if width > |prefix| + |num| then width else |prefix| + |num|)
            && (flags.left ==> prefix + num <= f && forall i :: |prefix + num| <= i < |f| ==> f[i] == ' ')
            && (!flags.left ==> f[|f| - |num|..] == num)
            && (!flags.left && flags.zero ==>
                  prefix <= f && forall i :: |prefix| <= i < |f| - |num| ==> f[i] == '0')
            && (!flags.left && !flags.zero ==>
                  && f[|f| - |num| - |prefix|..|f| - |num|] == prefix
                  && forall i :: 0 <= i < |f| - |num| - |prefix| ==> f[i] == ' ')
            && (prefix == " " ==> f[0] == ' ')
  {
    hide Numeral;
  }

  // ----- what the reader makes of a string

  function At(s: string, k: nat): char {
    if k < |s| then s[k] else '\0'
  }

  /** The digits a string starts with. */
  function Leading(s: string, hex: bool): (r: string)
    ensures forall i :: 0 <= i < |r| ==> IsHex(r[i])
  {
    if s == "" || !(if hex then IsHex(s[0]) else IsDec(s[0])) then "" else [s[0]] + Leading(s[1..], hex)
  }

  predicate HexPrefixed(s: string) {
    At(s, 0) == '0' && (At(s, 1) == 'x' || At(s, 1) == 'X')
  }

  /** The number strtoull reads, in 64-bit arithmetic. */
  function Read(s: string): nat {
    if HexPrefixed(s) then Value(Leading(s[2..], true), 16) % WORD else Value(Leading(s, false), 10) % WORD
  }

  /** The leading digits of digits followed by something else. */
  lemma {:induction false} LeadingOf(d: string, rest: string, hex: bool)
    requires if hex then AllHex(d) else AllDec(d)
    requires rest == "" || !IsHex(rest[0])
    ensures Leading(d + rest, hex) == d
  {
    if d == "" {
      assert d + rest == rest;
    } else {
      var t := d + rest;
      assert t[0] == d[0] && t[1..] == d[1..] + rest;
      LeadingOf(d[1..], rest, hex);
    }
  }

  /** The padding comes in front as spaces. */
  predicate SpacesFirst(v: nat, base: nat, width: nat, flags: Flags, upper: bool, prefix: string)
    requires 2 <= base <= 16
  {
    !flags.left && !flags.zero && Padding(v, base, width, upper, prefix) > 0
  }

  lemma ReadSpace(s: string)
    requires s != "" && s[0] == ' '
    ensures Read(s) == 0
  {
    assert Leading(s, false) == "";
  }

  lemma ReadDec(d: string, rest: string)
    requires AllDec(d) && AllHex(d) && Value(d, 10) < WORD && (rest == "" || rest[0] == ' ')
    ensures Read(d + rest) == Value(d, 10)
  {
    hide Value;
    LeadingOf(d, rest, false);
    NotHexPrefixed(d, rest);
  }

  lemma ReadHex(x: char, d: string, rest: string)
    requires AllHex(d) && Value(d, 16) < WORD && (x == 'x' || x == 'X') && (rest == "" || rest[0] == ' ')
    ensures Read(['0', x] + (d + rest)) == Value(d, 16)
  {
    hide Value;
    var s := ['0', x] + (d + rest);
    assert s[2..] == d + rest;
    LeadingOf(d, rest, true);
  }

  /** A formatted number is its padding and its digits, spaces in front or not. */
  lemma FormattedParts(v: nat, base: nat, width: nat, flags: Flags, upper: bool, prefix: string) returns (zeros: nat,
                       spaces: nat)
    requires 2 <= base <= 16
    ensures var f := Formatted(v, base, width, flags, upper, prefix);
            if SpacesFirst(v, base, width, flags, upper, prefix) then f != "" && f[0] == ' '
            else f == prefix + ((Repeat('0', zeros) + Numeral(v, base, upper)) + Repeat(' ', spaces))
  {
    hide Numeral;
    var num, pad := Numeral(v, base, upper), Padding(v, base, width, upper, prefix);
    zeros := if flags.left || !flags.zero then 0 else pad;
    spaces := if flags.left then pad else 0;
    assert Repeat('0', 0) == "" && Repeat(' ', 0) == "";
    var f := Formatted(v, base, width, flags, upper, prefix);
    if SpacesFirst(v, base, width, flags, upper, prefix) {
      assert f[0] == Repeat(' ', pad)[0];
    } else {
      assert f == prefix + ((Repeat('0', zeros) + num) + Repeat(' ', spaces));
    }
  }

  lemma {:induction false} ZerosAreDec(n: nat, num: string)
    requires AllDec(num)
    ensures AllDec(Repeat('0', n) + num)
  {
  }

  /** Printing in decimal and reading gives the number back, exactly unless
      spaces come first: those make the reader stop at once with zero. */
  lemma DecimalRoundTrip(v: nat, width: nat, flags: Flags)
    requires v < WORD
    ensures Read(Formatted(v, 10, width, flags, false, "")) ==
              if SpacesFirst(v, 10, width, flags, false, "") then 0 else v
  {
    hide Numeral, Value, Formatted, SpacesFirst, Read, Repeat, AllHex, AllDec;
    NumeralValue(v, 10, false);
    var zeros, spaces := FormattedParts(v, 10, width, flags, false, "");
    var num := Numeral(v, 10, false);
    var d := Repeat('0', zeros) + num;
    LeadingZeros(zeros, num, 10);
    ZerosAreDec(zeros, num);
    ReadDec(d, Repeat(' ', spaces));
    assert "" + (d + Repeat(' ', spaces)) == d + Repeat(' ', spaces);
    if SpacesFirst(v, 10, width, flags, false, "") {
      ReadSpace(Formatted(v, 10, width, flags, false, ""));
    }
  }

  lemma NotHexPrefixed(d: string, rest: string)
    requires AllDec(d) && (rest == "" || rest[0] == ' ')
    ensures !HexPrefixed(d + rest)
  {
    var t := d + rest;
    if |t| > 1 {
      assert t[1] == if 1 < |d| then d[1] else rest[1 - |d|];
    }
  }

  /** The same for hexadecimal with its prefix. */
  lemma HexRoundTrip(v: nat, width: nat, flags: Flags, upper: bool)
    requires v < WORD
    ensures var prefix := if upper then "0X" else "0x";
            Read(Formatted(v, 16, width, flags, upper, prefix)) ==
              if SpacesFirst(v, 16, width, flags, upper, prefix) then 0 else v
  {
    hide Numeral, Value, Formatted, SpacesFirst, Read, Repeat, AllHex, AllDec;
    var x := if upper then 'X' else 'x';
    var prefix := if upper then "0X" else "0x";
    assert prefix == ['0', x];
    NumeralValue(v, 16, upper);
    var zeros, spaces := FormattedParts(v, 16, width, flags, upper, prefix);
    var num := Numeral(v, 16, upper);
    LeadingZeros(zeros, num, 16);
    ReadHex(x, Repeat('0', zeros) + num, Repeat(' ', spaces));
    if SpacesFirst(v, 16, width, flags, upper, prefix) {
      ReadSpace(Formatted(v, 16, width, flags, upper, prefix));
    }
  }

  // ----- signed numbers

  function SkipSpaces(s: string): (r: string)
    ensures |r| <= |s|
  {
    if s != "" && s[0] == ' ' then SkipSpaces(s[1..]) else s
  }

  /** What a reader of signed numbers makes of a string: spaces, a sign or none,
      and digits. */
  function ReadSigned(s: string): int {
    var t := SkipSpaces(s);
    if At(t, 0) == '-' then -(Value(Leading(t[1..], false), 10) as int)
    else if At(t, 0) == '+' then Value(Leading(t[1..], false), 10)
    else Value(Leading(t, false), 10)
  }

  /** The character a number's text starts with behind the spaces. */
  function FirstMark(s: string): char {
    At(SkipSpaces(s), 0)
  }

  lemma {:induction false} SpacesSkipped(n: nat, s: string)
    ensures SkipSpaces(Repeat(' ', n) + s) == SkipSpaces(s)
  {
    var t := Repeat(' ', n) + s;
    if n > 0 {
      RepeatHead(' ', n);
      assert t[1..] == Repeat(' ', n - 1) + s;
      SpacesSkipped(n - 1, s);
    } else {
      assert t == s;
    }
  }

  lemma RepeatHead(c: char, n: nat)
    requires n > 0
    ensures Repeat(c, n)[0] == c && Repeat(c, n)[1..] == Repeat(c, n - 1)
  {
  }

  /** A text behind the spaces that may be in front of it. */
  lemma SpacesOff(v: nat, width: nat, flags: Flags, prefix: string) returns (zeros: nat, spaces: nat)
    ensures SkipSpaces(Formatted(v, 10, width, flags, false, prefix)) ==
              SkipSpaces(prefix + ((Repeat('0', zeros) + Numeral(v, 10, false)) + Repeat(' ', spaces)))
  {
    hide Numeral, SkipSpaces;
    if SpacesFirst(v, 10, width, flags, false, prefix) {
      zeros, spaces := 0, 0;
      var num, pad := Numeral(v, 10, false), Padding(v, 10, width, false, prefix);
      assert Repeat('0', 0) == "" && Repeat(' ', 0) == "";
      assert prefix + ((Repeat('0', 0) + num) + Repeat(' ', 0)) == prefix + num;
      assert Formatted(v, 10, width, flags, false, prefix) == Repeat(' ', pad) + (prefix + num);
      SpacesSkipped(pad, prefix + num);
    } else {
      zeros, spaces := FormattedParts(v, 10, width, flags, false, prefix);
    }
  }

  /** A sign, or nothing that shows, in front of the number's text. */
  lemma SignedRoundTrip(v: nat, width: nat, flags: Flags, prefix: string)
    requires prefix == "-" || prefix == "+" || prefix == " " || prefix == ""
    ensures var s := Formatted(v, 10, width, flags, false, prefix);
            && ReadSigned(s) == (if prefix == "-" then -(v as int) else v as int)
            && (prefix == "-" ==> FirstMark(s) == '-') && (prefix == "+" ==> FirstMark(s) == '+')
            && (prefix == " " || prefix == "" ==> IsDec(FirstMark(s)))
  {
    hide Numeral, Value, Formatted, Repeat, AllHex, AllDec, Leading;
    NumeralValue(v, 10, false);
    var zeros, spaces := SpacesOff(v, width, flags, prefix);
    var d := Repeat('0', zeros) + Numeral(v, 10, false);
    var rest := Repeat(' ', spaces);
    LeadingZeros(zeros, Numeral(v, 10, false), 10);
    ZerosAreDec(zeros, Numeral(v, 10, false));
    LeadingOf(d, rest, false);
    FirstIsDec(d, rest);
    var t := prefix + (d + rest);
    if prefix == " " {
      assert t[1..] == d + rest;
    } else if prefix == "" {
      assert t == d + rest;
    } else {
      assert t[1..] == d + rest;
    }
  }

  lemma FirstIsDec(d: string, rest: string)
    requires AllDec(d) && d != ""
    ensures IsDec((d + rest)[0])
  {
  }
}
