/** The reflected CRC-32 of the GPT code: a table built once, then one table
    look-up per byte, against the bit-by-bit definition. */
module Crc {

  /** A 32-bit register. */
  datatype Word = Word(v: bv32)

  const POLY: Word := Word(0xEDB8_8320)
  const ONES: Word := Word(0xFFFF_FFFF)

  function Xor(x: Word, y: Word): Word {
    Word(x.v ^ y.v)
  }

  function Half(x: Word): Word {
    Word(x.v >> 1)
  }

  predicate Odd(x: Word) {
    x.v & 1 == 1
  }

  function Wide(b: bv8): Word {
    Word(b as bv32)
  }

  /** The lowest byte, and the register shifted down by one byte. */
  function Low(x: Word): Word {
    Word(x.v & 0xFF)
  }

  function Rest(x: Word): Word {
    Word(x.v >> 8)
  }

  // ----- the definition, one message bit at a time

  /** Shift one message bit into the register, lowest bit first. */
  function BitStep(crc: Word, bit: bool): Word {
    if Odd(crc) != bit then Xor(Half(crc), POLY) else Half(crc)
  }

  function CrcBits(crc: Word, bits: seq<bool>): Word
    decreases |bits|
  {
    if bits == [] then crc else CrcBits(BitStep(crc, bits[0]), bits[1..])
  }

  /** The lowest n bits of a word, the lowest first. */
  function LowBits(c: Word, n: nat): (r: seq<bool>)
    ensures |r| == n
    decreases n
  {
    if n == 0 then [] else [Odd(c)] + LowBits(Half(c), n - 1)
  }

  /** A message's bits, each byte's lowest bit first. */
  function Message(data: seq<bv8>): seq<bool> {
    if data == [] then [] else LowBits(Wide(data[0]), 8) + Message(data[1..])
  }

  /** CRC-32 of section 8 of RFC 1952. */
  function Reference(data: seq<bv8>): Word {
    Xor(CrcBits(ONES, Message(data)), ONES)
  }

  // ----- the table

  /** One round of the table's inner loop. */
  function Round(x: Word): Word {
    if Odd(x) then Xor(Half(x), POLY) else Half(x)
  }

  function Rounds(x: Word, n: nat): Word
    decreases n
  {
    if n == 0 then x else Rounds(Round(x), n - 1)
  }

  function Numbered(i: nat): Word
    requires i < 256
  {
    Word(i as bv32)
  }

  ghost predicate IsTable(table: seq<Word>) {
    |table| == 256 && forall i :: 0 <= i < 256 ==> table[i] == Rounds(Numbered(i), 8)
  }

  /** crc32_fill */
  method Fill(table: array<Word>)
    requires table.Length == 256
    modifies table
    ensures IsTable(table[..])
  {
    hide Odd, Half, Xor, Numbered;
    var index := 0;
    while index < 256
      invariant 0 <= index <= 256
      invariant forall i :: 0 <= i < index ==> table[i] == Rounds(Numbered(i), 8)
    {
      table[index] := Numbered(index);
      var z := 8;
      while z != 0
        invariant 0 <= z <= 8 && 0 <= index < 256
        invariant Rounds(table[index], z) == Rounds(Numbered(index), 8)
        invariant forall i :: 0 <= i < index ==> table[i] == Rounds(Numbered(i), 8)
      {
        table[index] := if Odd(table[index]) then Xor(Half(table[index]), POLY) else Half(table[index]);
        z := z - 1;
      }
      index := index + 1;
    }
  }

  // ----- facts about single words

  lemma XorParts(x: Word, y: Word)
    ensures Half(Xor(x, y)) == Xor(Half(x), Half(y))
    ensures Odd(Xor(x, y)) <==> Odd(x) != Odd(y)
  {
  }

  lemma XorAssoc(a: Word, b: Word, c: Word)
    ensures Xor(Xor(a, b), c) == Xor(a, Xor(b, c))
  {
  }

  lemma XorSelf(p: Word)
    ensures Xor(p, p) == Word(0)
  {
  }

  lemma XorMoves(a: Word, b: Word, p: Word)
    ensures Xor(Xor(a, p), Xor(b, p)) == Xor(a, b)
    ensures Xor(Xor(a, p), b) == Xor(Xor(a, b), p) && Xor(a, Xor(b, p)) == Xor(Xor(a, b), p)
  {
    hide Xor;
    XorAssoc(a, b, p);
    XorAssoc(a, p, b);
    XorSwap(b, p);
    XorAssoc(Xor(a, p), b, p);
    XorAssoc(Xor(a, b), p, p);
    XorSelf(p);
    XorZero(Xor(a, b));
  }

  lemma XorSwap(x: Word, y: Word)
    ensures Xor(x, y) == Xor(y, x)
  {
  }

  lemma XorCancel(x: Word, y: Word, p: Word)
    ensures Xor(x, p) == Xor(y, p) ==> x == y
  {
  }

  lemma XorZero(x: Word)
    ensures Xor(x, Word(0)) == x
  {
  }

  lemma WideInjective(x: Word, b: bv8, d: bv8)
    ensures Xor(x, Wide(b)) == Xor(x, Wide(d)) ==> b == d
  {
  }

  /** The word with its low byte cleared. */
  function High(x: Word): Word {
    Word(x.v & 0xFFFF_FF00)
  }

  predicate EvenByte(y: Word) {
    y.v & 0xFF == 0
  }

  /** A word is its low byte and the rest, which starts with eight even bits. */
  lemma SplitWord(x: Word)
    ensures x == Xor(Low(x), High(x))
  {
  }

  lemma HighEven(x: Word)
    ensures EvenByte(High(x))
  {
  }

  lemma HighOfXor(crc: Word, b: bv8)
    ensures High(Xor(crc, Wide(b))) == High(crc)
  {
  }

  lemma EvenHalf(y: Word)
    requires EvenByte(y)
    ensures !Odd(y) && !Odd(Half(y)) && !Odd(Half(Half(y))) && !Odd(Half(Half(Half(y))))
  {
  }

  lemma EvenQuarter(y: Word)
    requires EvenByte(y)
    ensures var z := Half(Half(Half(Half(y))));
            !Odd(z) && !Odd(Half(z)) && !Odd(Half(Half(z))) && !Odd(Half(Half(Half(z))))
  {
    var z := Half(Half(Half(Half(y))));
    assert z.v == y.v >> 4;
    assert z.v & 0xF == 0;
    hide EvenByte;
  }

  lemma EightHalves(x: Word)
    ensures Half(Half(Half(Half(Half(Half(Half(Half(High(x))))))))) == Rest(x)
  {
  }

  lemma ByteHalved(b: bv8)
    ensures var z := Half(Half(Half(Half(Wide(b))))); Half(Half(Half(Half(z)))) == Word(0)
  {
  }

  lemma Index(x: Word)
    ensures Low(x).v as nat < 256 && Numbered(Low(x).v as nat) == Low(x)
  {
  }

  // ----- one byte by look-up

  /** The register after a byte has been mixed in whole. */
  function ByteStep(crc: Word, b: bv8): Word {
    Rounds(Xor(crc, Wide(b)), 8)
  }

  lemma BitIsRound(crc: Word, c: Word)
    ensures Xor(BitStep(crc, Odd(c)), Half(c)) == Round(Xor(crc, c))
  {
    hide Xor, Half, Odd;
    XorParts(crc, c);
    XorMoves(Half(crc), Half(c), POLY);
  }

  function Halved(c: Word, n: nat): Word
    decreases n
  {
    if n == 0 then c else Halved(Half(c), n - 1)
  }

  /** Feeding bits one by one is mixing them in at once and then rounding. */
  lemma {:induction false} BitsAreRounds(crc: Word, c: Word, n: nat)
    ensures Xor(CrcBits(crc, LowBits(c, n)), Halved(c, n)) == Rounds(Xor(crc, c), n)
    decreases n
  {
    hide Xor, Half, Odd, Round, BitStep;
    if n > 0 {
      var bits := LowBits(c, n);
      assert bits[0] == Odd(c) && bits[1..] == LowBits(Half(c), n - 1);
      BitsAreRounds(BitStep(crc, Odd(c)), Half(c), n - 1);
      BitIsRound(crc, c);
    }
  }

  lemma FourHalves(c: Word, n: nat)
    requires n >= 4
    ensures Halved(c, n) == Halved(Half(Half(Half(Half(c)))), n - 4)
  {
    hide Half;
    assert Halved(c, n) == Halved(Half(c), n - 1) == Halved(Half(Half(c)), n - 2);
    assert Halved(Half(Half(c)), n - 2) == Halved(Half(Half(Half(c))), n - 3);
  }

  lemma ByteOfBits(crc: Word, b: bv8)
    ensures CrcBits(crc, LowBits(Wide(b), 8)) == ByteStep(crc, b)
  {
    hide Xor, Half, Wide, Rounds, CrcBits, LowBits;
    BitsAreRounds(crc, Wide(b), 8);
    FourHalves(Wide(b), 8);
    FourHalves(Half(Half(Half(Half(Wide(b))))), 4);
    ByteHalved(b);
    XorZero(CrcBits(crc, LowBits(Wide(b), 8)));
  }

  lemma RoundLinear(x: Word, y: Word)
    ensures Round(Xor(x, y)) == Xor(Round(x), Round(y))
  {
    hide Xor, Half, Odd;
    XorParts(x, y);
    XorMoves(Half(x), Half(y), POLY);
  }

  lemma {:induction false} RoundsLinear(x: Word, y: Word, n: nat)
    ensures Rounds(Xor(x, y), n) == Xor(Rounds(x, n), Rounds(y, n))
    decreases n
  {
    hide Xor, Round;
    if n > 0 {
      RoundLinear(x, y);
      RoundsLinear(Round(x), Round(y), n - 1);
    }
  }

  lemma FourRounds(y: Word, n: nat)
    requires n >= 4 && !Odd(y) && !Odd(Half(y)) && !Odd(Half(Half(y))) && !Odd(Half(Half(Half(y))))
    ensures Rounds(y, n) == Rounds(Half(Half(Half(Half(y)))), n - 4)
  {
    hide Xor, Half, Odd;
    assert Rounds(y, n) == Rounds(Half(y), n - 1) == Rounds(Half(Half(y)), n - 2);
    assert Rounds(Half(Half(y)), n - 2) == Rounds(Half(Half(Half(y))), n - 3);
  }

  /** A look-up and a shift do the work of eight rounds. */
  lemma LookUp(crc: Word, b: bv8)
    ensures ByteStep(crc, b) == Xor(Rounds(Low(Xor(crc, Wide(b))), 8), Rest(crc))
  {
    hide Xor, Half, Odd, Low, High, Rest, Wide, EvenByte, Round;
    var x, y := Xor(crc, Wide(b)), High(crc);
    SplitWord(x);
    HighOfXor(crc, b);
    HighEven(crc);
    RoundsLinear(Low(x), y, 8);
    EvenHalf(y);
    EvenQuarter(y);
    EightHalves(crc);
    FourRounds(y, 8);
    FourRounds(Half(Half(Half(Half(y)))), 4);
  }

  // ----- whole messages

  ghost function Fold(crc: Word, data: seq<bv8>): Word
    decreases |data|
  {
    if data == [] then crc else Fold(ByteStep(crc, data[0]), data[1..])
  }

  lemma {:induction false} CrcConcat(crc: Word, a: seq<bool>, b: seq<bool>)
    ensures CrcBits(crc, a + b) == CrcBits(CrcBits(crc, a), b)
    decreases |a|
  {
    hide BitStep;
    if a == [] {
      assert a + b == b;
    } else {
      assert (a + b)[0] == a[0] && (a + b)[1..] == a[1..] + b;
      CrcConcat(BitStep(crc, a[0]), a[1..], b);
    }
  }

  lemma {:induction false} FoldIsCrc(crc: Word, data: seq<bv8>)
    ensures CrcBits(crc, Message(data)) == Fold(crc, data)
    decreases |data|
  {
    hide ByteStep, Wide;
    if data != [] {
      CrcConcat(crc, LowBits(Wide(data[0]), 8), Message(data[1..]));
      ByteOfBits(crc, data[0]);
      FoldIsCrc(ByteStep(crc, data[0]), data[1..]);
    }
  }

  lemma {:induction false} FoldConcat(crc: Word, a: seq<bv8>, b: seq<bv8>)
    ensures Fold(crc, a + b) == Fold(Fold(crc, a), b)
    decreases |a|
  {
    hide ByteStep;
    if a == [] {
      assert a + b == b;
    } else {
      assert (a + b)[0] == a[0] && (a + b)[1..] == a[1..] + b;
      FoldConcat(ByteStep(crc, a[0]), a[1..], b);
    }
  }

  /** The crc32 loop over a table of the right contents computes the CRC-32. */
  method Crc32(data: seq<bv8>, table: array<Word>) returns (crc: Word)
    requires IsTable(table[..])
    ensures crc == Reference(data)
  {
    hide Xor, Low, Rest, Wide, Rounds, ByteStep, CrcBits, Message, Numbered;
    FoldIsCrc(ONES, data);
    crc := ONES;
    var k := 0;
    while k < |data|
      invariant 0 <= k <= |data| && Fold(crc, data[k..]) == Fold(ONES, data)
    {
      var i := Low(Xor(crc, Wide(data[k])));
      Index(Xor(crc, Wide(data[k])));
      LookUp(crc, data[k]);
      assert data[k..][0] == data[k] && data[k..][1..] == data[k + 1..];
      var entry := table[i.v as nat];
      assert table[..][i.v as nat] == entry;
      XorSwap(Rest(crc), entry);
      crc := Xor(Rest(crc), entry);
      k := k + 1;
    }
    crc := Xor(crc, ONES);
  }

  // ----- the check value

  function EightRounds(x: Word): Word {
    Round(Round(Round(Round(Round(Round(Round(Round(x))))))))
  }

  lemma Unrolled(x: Word)
    ensures Rounds(x, 8) == EightRounds(x)
  {
    hide Round;
  }

  lemma CheckSteps()
    ensures ByteStep(Word(0xFFFF_FFFF), 0x31) == Word(0x7C23_1048)
    ensures ByteStep(Word(0x7C23_1048), 0x32) == Word(0xB0AC_BB32)
    ensures ByteStep(Word(0xB0AC_BB32), 0x33) == Word(0x77B7_9C2D)
    ensures ByteStep(Word(0x77B7_9C2D), 0x34) == Word(0x641C_1F5C)
    ensures ByteStep(Word(0x641C_1F5C), 0x35) == Word(0x340A_C5E3)
    ensures ByteStep(Word(0x340A_C5E3), 0x36) == Word(0xF68D_2C9E)
    ensures ByteStep(Word(0xF68D_2C9E), 0x37) == Word(0xAFFC_9660)
    ensures ByteStep(Word(0xAFFC_9660), 0x38) == Word(0x651F_2550)
    ensures ByteStep(Word(0x651F_2550), 0x39) == Word(0x340B_C6D9)
  {
    CheckRounds();
    hide EightRounds, Rounds;
    Unrolled(Word(0xFFFF_FFCE));
    Unrolled(Word(0x7C23_107A));
    Unrolled(Word(0xB0AC_BB01));
    Unrolled(Word(0x77B7_9C19));
    Unrolled(Word(0x641C_1F69));
    Unrolled(Word(0x340A_C5D5));
    Unrolled(Word(0xF68D_2CA9));
    Unrolled(Word(0xAFFC_9658));
    Unrolled(Word(0x651F_2569));
  }

  lemma CheckRounds()
    ensures EightRounds(Word(0xFFFF_FFCE)) == Word(0x7C23_1048)
    ensures EightRounds(Word(0x7C23_107A)) == Word(0xB0AC_BB32)
    ensures EightRounds(Word(0xB0AC_BB01)) == Word(0x77B7_9C2D)
    ensures EightRounds(Word(0x77B7_9C19)) == Word(0x641C_1F5C)
    ensures EightRounds(Word(0x641C_1F69)) == Word(0x340A_C5E3)
    ensures EightRounds(Word(0x340A_C5D5)) == Word(0xF68D_2C9E)
    ensures EightRounds(Word(0xF68D_2CA9)) == Word(0xAFFC_9660)
    ensures EightRounds(Word(0xAFFC_9658)) == Word(0x651F_2550)
    ensures EightRounds(Word(0x651F_2569)) == Word(0x340B_C6D9)
  {
  }

  /** The bytes of "123456789" have the check value published for the CRC-32. */
  lemma CheckValue()
    ensures Reference([0x31, 0x32, 0x33, 0x34, 0x35, 0x36, 0x37, 0x38, 0x39]) == Word(0xCBF4_3926)
  {
    hide ByteStep, CrcBits, Message;
    var d: seq<bv8> := [0x31, 0x32, 0x33, 0x34, 0x35, 0x36, 0x37, 0x38, 0x39];
    CheckSteps();
    FoldIsCrc(ONES, d);
    FoldNone(0x340B_C6D9);
    FoldOne(0x651F_2550, d[8..]);
    FoldOne(0xAFFC_9660, d[7..]);
    FoldOne(0xF68D_2C9E, d[6..]);
    FoldOne(0x340A_C5E3, d[5..]);
    FoldOne(0x641C_1F5C, d[4..]);
    FoldOne(0x77B7_9C2D, d[3..]);
    FoldOne(0xB0AC_BB32, d[2..]);
    FoldOne(0x7C23_1048, d[1..]);
    FoldOne(0xFFFF_FFFF, d[0..]);
    assert d[0..] == d;
  }

  lemma FoldNone(c: bv32)
    ensures Fold(Word(c), []) == Word(c)
  {
  }

  lemma FoldOne(c: bv32, data: seq<bv8>)
    requires data != []
    ensures Fold(Word(c), data) == Fold(ByteStep(Word(c), data[0]), data[1..])
  {
  }

  // ----- damage is detected

  function Unround(y: Word): Word {
    if y.v & 0x8000_0000 != 0 then Word(((y.v ^ POLY.v) << 1) | 1) else Word(y.v << 1)
  }

  lemma RoundInjective(x: Word)
    ensures Unround(Round(x)) == x
  {
  }

  lemma {:induction false} RoundsInjective(x: Word, y: Word, n: nat)
    requires Rounds(x, n) == Rounds(y, n)
    ensures x == y
    decreases n
  {
    hide Round, Unround;
    if n > 0 {
      RoundsInjective(Round(x), Round(y), n - 1);
      RoundInjective(x);
      RoundInjective(y);
    }
  }

  lemma ByteInjective(x: Word, y: Word, b: bv8, d: bv8)
    requires ByteStep(x, b) == ByteStep(y, d)
    ensures (b == d ==> x == y) && (x == y ==> b == d)
  {
    hide Rounds, Xor, Wide;
    RoundsInjective(Xor(x, Wide(b)), Xor(y, Wide(d)), 8);
    XorCancel(x, y, Wide(b));
    WideInjective(x, b, d);
  }

  lemma {:induction false} FoldInjective(x: Word, y: Word, data: seq<bv8>)
    requires Fold(x, data) == Fold(y, data)
    ensures x == y
    decreases |data|
  {
    hide ByteStep;
    if data != [] {
      FoldInjective(ByteStep(x, data[0]), ByteStep(y, data[0]), data[1..]);
      ByteInjective(x, y, data[0], data[0]);
    }
  }

  /** Changing one byte of a message always changes its CRC. */
  lemma DetectsByte(data: seq<bv8>, k: nat, b: bv8)
    requires k < |data| && b != data[k]
    ensures Reference(data[k := b]) != Reference(data)
  {
    hide ByteStep, CrcBits, Message, Xor;
    var pre, post := data[..k], data[k + 1..];
    assert data == pre + ([data[k]] + post) && data[k := b] == pre + ([b] + post);
    FoldIsCrc(ONES, data);
    FoldIsCrc(ONES, data[k := b]);
    FoldConcat(ONES, pre, [data[k]] + post);
    FoldConcat(ONES, pre, [b] + post);
    var crc := Fold(ONES, pre);
    assert ([b] + post)[1..] == post && ([data[k]] + post)[1..] == post;
    XorCancel(Fold(ONES, data), Fold(ONES, data[k := b]), ONES);
    if Reference(data[k := b]) == Reference(data) {
      FoldInjective(ByteStep(crc, b), ByteStep(crc, data[k]), post);
      ByteInjective(crc, crc, b, data[k]);
    }
  }
}
