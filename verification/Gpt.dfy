/** Writing a GUID partition table to a disk, and reading partition tables. */
module Gpt {
  import opened Bytes
  import Crc

  const SECTOR: nat := 512
  const WORD32: nat := 0x1_0000_0000
  const WORD64: nat := 0x1_0000_0000_0000_0000
  const ARRAY: nat := 16384

  /** "EFI PART" */
  const SIGNATURE: seq<bv8> := [0x45, 0x46, 0x49, 0x20, 0x50, 0x41, 0x52, 0x54]

  function Checksum(data: seq<bv8>): (r: nat)
    ensures r < WORD32
  {
    Crc.Reference(data).v as nat
  }

  function Field(buf: seq<bv8>, off: nat, n: nat): nat
    requires off + n <= |buf|
  {
    FromLe(Get(buf, off, n))
  }

  // ----- reading

  datatype Part = Part(start: nat, count: nat, id: nat, guid: seq<bv8>)

  /** How reading a table ends; Overrun when a length or an offset from the disk
      makes the code read behind its buffer. */
  datatype Parsed = Unreadable | NoSignature | BadHeader | BadArray | Overrun | Found(parts: seq<Part>)

  function Offset(i: nat, size: nat): nat {
    i * size % WORD32
  }

  function PartAt(a: seq<bv8>, off: nat, i: nat): Part
    requires off + 48 <= |a|
  {
    Part(Field(a, off + 32, 8), (Field(a, off + 40, 8) - Field(a, off + 32, 8) + 1) % WORD64, i, Get(a, off, 16))
  }

  /** The partitions of entries i and up, behind those already registered. */
  function Entries(a: seq<bv8>, num: nat, size: nat, i: nat, done: seq<Part>): Parsed
    decreases num - i
  {
    if i >= num then Found(done)
    else
      var off := Offset(i, size);
      if off + 48 > |a| then Overrun
      else if Get(a, off, 16) == Zeros(16) then Entries(a, num, size, i + 1, done)
      else Entries(a, num, size, i + 1, done + [PartAt(a, off, i)])
  }

  /** The checks on the partition array a header names. */
  function ParseArray(disk: seq<bv8>, h: seq<bv8>): Parsed
    requires |h| == SECTOR
  {
    var num, size, lba := Field(h, 80, 4), Field(h, 84, 4), Field(h, 72, 8);
    var bytes := num * size % WORD32;
    var sectors := (bytes + 511) % WORD32 / 512;
    if (lba + sectors) * SECTOR > |disk| then Unreadable
    else
      var a := Get(disk, lba * SECTOR, sectors * SECTOR);
      if bytes > |a| then Overrun
      else if Checksum(a[..bytes]) != Field(h, 88, 4) then BadArray
      else Entries(a, num, size, 0, [])
  }

  /** What gpt_parse makes of the header in a sector. */
  function ParseGpt(disk: seq<bv8>, lba: nat): Parsed {
    if (lba + 1) * SECTOR > |disk| then Unreadable
    else
      var h := Get(disk, lba * SECTOR, SECTOR);
      if Get(h, 0, 8) != SIGNATURE then NoSignature
      else if Field(h, 12, 4) > SECTOR then Overrun
      else if Checksum(Put(h, 16, Zeros(4))[..Field(h, 12, 4)]) != Field(h, 16, 4) then BadHeader
      else ParseArray(disk, h)
  }

  /** gpt_parse: of a disk with a valid table exactly its entries with a type are
      registered. */
  method Parse(disk: seq<bv8>, lba: nat) returns (r: Parsed)
    ensures r == ParseGpt(disk, lba)
    ensures forall start, size, es :: HoldsTable(disk, lba, start, size, es) ==> r == Found(Registered(es))
  {
    forall start, size, es | HoldsTable(disk, lba, start, size, es)
      ensures ParseGpt(disk, lba) == Found(Registered(es))
    {
      ListParses(disk, lba, start, size, es);
    }
    hide Checksum, Field, PartAt, Zeros, HoldsTable, Registered;
    if (lba + 1) * SECTOR > |disk| {
      return Unreadable;
    }
    var h := Get(disk, lba * SECTOR, SECTOR);
    if Get(h, 0, 8) != SIGNATURE {
      return NoSignature;
    }
    if Field(h, 12, 4) > SECTOR {
      return Overrun;
    }
    if Checksum(Put(h, 16, Zeros(4))[..Field(h, 12, 4)]) != Field(h, 16, 4) {
      return BadHeader;
    }
    var num, size, at := Field(h, 80, 4), Field(h, 84, 4), Field(h, 72, 8);
    var bytes := num * size % WORD32;
    var sectors := (bytes + 511) % WORD32 / 512;
    if (at + sectors) * SECTOR > |disk| {
      return Unreadable;
    }
    var a := Get(disk, at * SECTOR, sectors * SECTOR);
    if bytes > |a| {
      return Overrun;
    }
    if Checksum(a[..bytes]) != Field(h, 88, 4) {
      return BadArray;
    }
    var parts := [];
    var i := 0;
    while i < num
      invariant 0 <= i <= num && Entries(a, num, size, i, parts) == Entries(a, num, size, 0, [])
    {
      var off := Offset(i, size);
      if off + 48 > |a| {
        return Overrun;
      }
      if Get(a, off, 16) != Zeros(16) {
        parts := parts + [PartAt(a, off, i)];
      }
      i := i + 1;
    }
    return Found(parts);
  }

  // ----- what the reader makes of a list of entries

  /** An entry as the specification describes it. */
  datatype Described = Described(kind: seq<bv8>, first: nat, last: nat)

  /** Entry i of the list lies at i times the size: its type, then after its own
      identifier its first and last sector, in eight bytes each. */
  ghost predicate LaidOut(a: seq<bv8>, size: nat, es: seq<Described>) {
    forall i :: 0 <= i < |es| ==> EntryAt(a, i * size, es[i])
  }

  ghost predicate EntryAt(a: seq<bv8>, off: nat, e: Described) {
    && off + 48 <= |a| && a[off..off + 16] == e.kind
    && e.first < WORD64 && e.last < WORD64
    && a[off + 32..off + 40] == Le(e.first, 8) && a[off + 40..off + 48] == Le(e.last, 8)
  }

  /** The entries whose type is not empty, in order, each with its own number. */
  function Registered(es: seq<Described>): seq<Part> {
    if es == [] then []
    else
      var n := |es| - 1;
      var e := es[n];
      Registered(es[..n]) + if e.kind == Zeros(16) then [] else [Part(e.first, SectorsOf(e), n, e.kind)]
  }

  /** How many sectors from the first to the last, in 64-bit arithmetic. */
  function SectorsOf(e: Described): nat {
    (e.last - e.first + 1) % WORD64
  }

  lemma {:induction false} EntriesListed(a: seq<bv8>, size: nat, es: seq<Described>, i: nat)
    requires LaidOut(a, size, es) && |es| * size < WORD32 && i <= |es|
    ensures Entries(a, |es|, size, i, Registered(es[..i])) == Found(Registered(es))
    decreases |es| - i
  {
    hide PartAt, Zeros, SectorsOf, LaidOut;
    if i == |es| {
      assert es[..i] == es;
    } else {
      OneListed(a, size, es, i);
      assert es[..i + 1][..i] == es[..i];
      EntriesListed(a, size, es, i + 1);
      assert Registered(es[..i]) + [] == Registered(es[..i]);
    }
  }

  lemma OneListed(a: seq<bv8>, size: nat, es: seq<Described>, i: nat)
    requires LaidOut(a, size, es) && |es| * size < WORD32 && i < |es|
    ensures Offset(i, size) == i * size && i * size + 48 <= |a| && Get(a, i * size, 16) == es[i].kind
    ensures PartAt(a, i * size, i) == Part(es[i].first, SectorsOf(es[i]), i, es[i].kind)
  {
    hide Le, FromLe, Pow256;
    assert EntryAt(a, i * size, es[i]);
    SmallProduct(i, |es|, size);
    Powers();
    LeRoundTrip(es[i].first, 8);
    LeRoundTrip(es[i].last, 8);
  }

  lemma SmallProduct(i: nat, n: nat, size: nat)
    requires i < n && n * size < WORD32
    ensures i * size % WORD32 == i * size
  {
    assert i * size <= n * size;
  }

  /** The disk holds a header with these numbers at lba that passes its check, and
      an array of the list's entries that passes the check of the header. */
  ghost predicate HoldsTable(disk: seq<bv8>, lba: nat, start: nat, size: nat, es: seq<Described>) {
    && (lba + 1) * SECTOR <= |disk| && |es| * size < WORD32 - SECTOR
    && (start * SECTOR + (|es| * size + 511) / SECTOR * SECTOR <= |disk|)
    && var h, a := disk[lba * SECTOR..(lba + 1) * SECTOR], disk[start * SECTOR..start * SECTOR + |es| * size];
       && h[..8] == SIGNATURE && HeaderSum(h)
       && FromLe(h[72..80]) == start && FromLe(h[80..84]) == |es| && FromLe(h[84..88]) == size
       && FromLe(h[88..92]) == Checksum(a) && LaidOut(a, size, es)
  }

  /** The header's checksum, over as many bytes as it says and with its own four
      bytes cleared. */
  ghost predicate HeaderSum(h: seq<bv8>)
    requires |h| == SECTOR
  {
    var n := FromLe(h[12..16]);
    n <= SECTOR && FromLe(h[16..20]) == Checksum((h[..16] + [0, 0, 0, 0] + h[20..])[..n])
  }

  lemma HeaderPasses(disk: seq<bv8>, lba: nat)
    requires (lba + 1) * SECTOR <= |disk|
    ensures var h := disk[lba * SECTOR..(lba + 1) * SECTOR];
            && (h[..8] == SIGNATURE && HeaderSum(h) ==> ParseGpt(disk, lba) == ParseArray(disk, h))
            && (ParseGpt(disk, lba).Found? ==> h[..8] == SIGNATURE && HeaderSum(h))
  {
    hide Checksum, FromLe, ParseArray;
    var h := disk[lba * SECTOR..(lba + 1) * SECTOR];
    assert [0, 0, 0, 0] == Zeros(4);
    assert Put(h, 16, Zeros(4)) == h[..16] + [0, 0, 0, 0] + h[20..];
  }

  /** Of such a disk exactly the entries with a type are registered, in order,
      each with its own number, first sector, length and type. */
  lemma ListParses(disk: seq<bv8>, lba: nat, start: nat, size: nat, es: seq<Described>)
    requires HoldsTable(disk, lba, start, size, es)
    ensures ParseGpt(disk, lba) == Found(Registered(es))
  {
    hide Entries, Checksum, FromLe, LaidOut, Registered, ParseGpt, ParseArray, HeaderSum;
    HeaderPasses(disk, lba);
    ArrayListed(disk, disk[lba * SECTOR..(lba + 1) * SECTOR], start, size, |es| * size, es);
  }

  lemma ArrayListed(disk: seq<bv8>, h: seq<bv8>, start: nat, size: nat, bytes: nat, es: seq<Described>)
    requires |h| == SECTOR && bytes == |es| * size < WORD32 - SECTOR
    requires start * SECTOR + (bytes + 511) / SECTOR * SECTOR <= |disk|
    requires FromLe(h[72..80]) == start && FromLe(h[80..84]) == |es| && FromLe(h[84..88]) == size
    requires var a := disk[start * SECTOR..start * SECTOR + bytes];
             FromLe(h[88..92]) == Checksum(a) && LaidOut(a, size, es)
    ensures ParseArray(disk, h) == Found(Registered(es))
  {
    hide Entries, Checksum, FromLe, LaidOut, Registered, ParseArray;
    var all := disk[start * SECTOR..start * SECTOR + (bytes + 511) / SECTOR * SECTOR];
    var a := disk[start * SECTOR..start * SECTOR + bytes];
    assert all[..bytes] == a;
    ArrayPasses(disk, h, start, |es|, size, bytes);
    LongerArray(a, all, size, es);
    EntriesListed(all, size, es, 0);
    NothingListed(es);
  }

  lemma Below32(n: nat)
    requires n < WORD32
    ensures n % WORD32 == n
  {
  }

  lemma ArrayPasses(disk: seq<bv8>, h: seq<bv8>, start: nat, num: nat, size: nat, bytes: nat)
    requires |h| == SECTOR && bytes == num * size < WORD32 - SECTOR
    requires start * SECTOR + (bytes + 511) / SECTOR * SECTOR <= |disk|
    requires FromLe(h[72..80]) == start && FromLe(h[80..84]) == num && FromLe(h[84..88]) == size
    requires FromLe(h[88..92]) == Checksum(disk[start * SECTOR..start * SECTOR + bytes])
    ensures var all := disk[start * SECTOR..start * SECTOR + (bytes + 511) / SECTOR * SECTOR];
            ParseArray(disk, h) == Entries(all, num, size, 0, [])
  {
    hide Entries, Checksum, FromLe;
    var all := disk[start * SECTOR..start * SECTOR + (bytes + 511) / SECTOR * SECTOR];
    Below32(bytes);
    Below32(bytes + 511);
    assert all[..bytes] == disk[start * SECTOR..start * SECTOR + bytes];
  }

  lemma NothingListed(es: seq<Described>)
    ensures Registered(es[..0]) == []
  {
  }

  lemma LongerArray(a: seq<bv8>, all: seq<bv8>, size: nat, es: seq<Described>)
    requires |a| <= |all| && all[..|a|] == a && LaidOut(a, size, es)
    ensures LaidOut(all, size, es)
  {
    forall i | 0 <= i < |es|
      ensures EntryAt(all, i * size, es[i])
    {
      var off := i * size;
      assert EntryAt(a, off, es[i]);
      assert all[off..off + 16] == all[..|a|][off..off + 16];
      assert all[off + 32..off + 40] == all[..|a|][off + 32..off + 40];
      assert all[off + 40..off + 48] == all[..|a|][off + 40..off + 48];
    }
  }

  /** Nothing is registered of a table whose signature or checksums are wrong. */
  lemma RefusesWrongSums(disk: seq<bv8>, lba: nat)
    requires ParseGpt(disk, lba).Found?
    ensures (lba + 1) * SECTOR <= |disk|
    ensures var h := disk[lba * SECTOR..(lba + 1) * SECTOR];
            && h[..8] == SIGNATURE && HeaderSum(h)
            && var at, bytes := FromLe(h[72..80]) * SECTOR, FromLe(h[80..84]) * FromLe(h[84..88]) % WORD32;
               at + bytes <= |disk| && FromLe(h[88..92]) == Checksum(disk[at..at + bytes])
  {
    hide Entries, Checksum, FromLe, HeaderSum;
    HeaderPasses(disk, lba);
    var h := disk[lba * SECTOR..(lba + 1) * SECTOR];
    var at, bytes := FromLe(h[72..80]) * SECTOR, FromLe(h[80..84]) * FromLe(h[84..88]) % WORD32;
    var sectors := (bytes + 511) % WORD32 / 512;
    assert Get(disk, at, sectors * SECTOR)[..bytes] == disk[at..at + bytes];
  }

  datatype MbrKind = Invalid | Legacy | Protective

  /** What mbr_parse reports: no boot signature, a protective entry among the
      four, or a legacy table. */
  method ParseMbr(sector: seq<bv8>) returns (r: MbrKind)
    requires |sector| == SECTOR
    ensures r == Invalid <==> Field(sector, 510, 2) != 0xAA55
    ensures r == Protective <==>
              Field(sector, 510, 2) == 0xAA55 && exists i :: 0 <= i < 4 && EntryType(sector, i) == 0xEE
  {
    if Field(sector, 510, 2) != 0xAA55 {
      return Invalid;
    }
    for i := 0 to 4
      invariant forall j :: 0 <= j < i ==> EntryType(sector, j) != 0xEE
    {
      if EntryType(sector, i) == 0xEE {
        return Protective;
      }
    }
    return Legacy;
  }

  function EntryType(sector: seq<bv8>, i: nat): bv8
    requires |sector| == SECTOR && i < 4
  {
    sector[446 + 16 * i + 4]
  }

  // ----- writing

  datatype Option<T> = None | Some(value: T)

  /** A name's characters as 16-bit units, at most 36; characters are signed. */
  function NameBytes(name: seq<nat>, n: nat): (s: seq<bv8>)
    requires n <= |name| && forall i :: 0 <= i < |name| ==> name[i] < 256
    ensures |s| == 2 * n
  {
    if n == 0 then []
    else NameBytes(name, n - 1) + Le(if name[n - 1] >= 128 then 0xFF00 + name[n - 1] else name[n - 1], 2)
  }

  function NameLength(name: seq<nat>): nat {
    if |name| < 36 then |name| else 36
  }

  predicate NameOk(name: Option<seq<nat>>) {
    name.Some? ==> forall i :: 0 <= i < |name.value| ==> name.value[i] < 256
  }

  function Name(name: Option<seq<nat>>): (s: seq<bv8>)
    requires NameOk(name)
    ensures |s| <= 72
  {
    if name.None? then [] else NameBytes(name.value, NameLength(name.value))
  }

  /** GUID_LINUX_FILESYSTEM */
  const LINUX: seq<bv8> := [0xAF, 0x3D, 0xC6, 0x0F, 0x83, 0x84, 0x72, 0x47, 0x8E, 0x79, 0x3D, 0x69, 0xD8, 0x47, 0x7D,
                            0xE4]

  function Filled(b: bv8, n: nat): (s: seq<bv8>)
    ensures |s| == n
  {
    seq(n, _ => b)
  }

  function EntryWrites(total: nat, name: Option<seq<nat>>, guid: seq<bv8>): seq<Write>
    requires total >= 68 && NameOk(name) && |guid| == 16
  {
    [Write(0, guid), Write(16, Filled(0xAA, 16)), Write(32, Le(2048, 8)), Write(40, Le(total - 34, 8)),
     Write(56, Name(name))]
  }

  function EntryArray(total: nat, name: Option<seq<nat>>, guid: seq<bv8>): (a: seq<bv8>)
    requires total >= 68 && NameOk(name) && |guid| == 16
    ensures |a| == ARRAY
  {
    PutAll(Zeros(ARRAY), EntryWrites(total, name, guid))
  }

  function MbrWrites(total: nat): seq<Write>
    requires total >= 68
  {
    [Write(450, [0xEE]), Write(454, Le(1, 4)),
     Write(458, Le(if total > 0xFFFF_FFFF then 0xFFFF_FFFF else total - 1, 4)), Write(510, [0x55, 0xAA])]
  }

  function MbrSector(total: nat): (s: seq<bv8>)
    requires total >= 68
    ensures |s| == SECTOR
  {
    PutAll(Zeros(SECTOR), MbrWrites(total))
  }

  function HeaderStart(my: nat, alternate: nat): (ws: seq<Write>)
    ensures Inside(SECTOR, ws)
  {
    [Write(0, SIGNATURE), Write(8, Le(0x1_0000, 4)), Write(12, Le(92, 4)), Write(24, Le(my, 8)),
     Write(32, Le(alternate, 8))]
  }

  function HeaderMiddle(total: nat): (ws: seq<Write>)
    requires total >= 68
    ensures Inside(SECTOR, ws)
  {
    [Write(40, Le(34, 8)), Write(48, Le(total - 34, 8)), Write(56, Filled(0xCC, 16))]
  }

  function HeaderEnd(entries: nat, crc: nat): (ws: seq<Write>)
    ensures Inside(SECTOR, ws)
  {
    [Write(72, Le(entries, 8)), Write(80, Le(128, 4)), Write(84, Le(128, 4)), Write(88, Le(crc, 4))]
  }

  /** A header sector before its own checksum is filled in. */
  function HeaderImage(total: nat, my: nat, alternate: nat, entries: nat, crc: nat): (s: seq<bv8>)
    requires total >= 68
    ensures |s| == SECTOR
  {
    PutAll(PutAll(PutAll(Zeros(SECTOR), HeaderStart(my, alternate)), HeaderMiddle(total)), HeaderEnd(entries, crc))
  }

  function HeaderSector(total: nat, my: nat, alternate: nat, entries: nat, crc: nat): (s: seq<bv8>)
    requires total >= 68
    ensures |s| == SECTOR
  {
    var image := HeaderImage(total, my, alternate, entries, crc);
    Put(image, 16, Le(Checksum(image[..92]), 4))
  }

  /** What gpt_install writes, sector by sector. */
  function InstallWrites(total: nat, name: Option<seq<nat>>, guid: seq<bv8>): seq<Write>
    requires total >= 68 && NameOk(name) && |guid| == 16
  {
    var a := EntryArray(total, name, guid);
    var crc := Checksum(a);
    [Write(0, MbrSector(total)), Write(2 * SECTOR, a), Write((total - 33) * SECTOR, a),
     Write(SECTOR, HeaderSector(total, 1, total - 1, 2, crc)),
     Write((total - 1) * SECTOR, HeaderSector(total, total - 1, 1, total - 33, crc))]
  }

  // ----- what a written table reads as

  lemma ZerosAt(n: nat, off: nat, k: nat)
    requires off + k <= n
    ensures Get(Zeros(n), off, k) == Zeros(k)
  {
  }

  lemma StartShape(my: nat, alternate: nat)
    ensures var ws := HeaderStart(my, alternate);
            && |ws| == 5 && Separate(ws) && ws[0] == Write(0, SIGNATURE) && ws[2] == Write(12, Le(92, 4))
            && Spares(ws, 16, 4)
  {
    hide Le;
  }

  lemma StartRead(my: nat, alternate: nat)
    ensures var b := PutAll(Zeros(SECTOR), HeaderStart(my, alternate));
            Get(b, 0, 8) == SIGNATURE && Get(b, 12, 4) == Le(92, 4) && Get(b, 16, 4) == Zeros(4)
  {
    hide Le, PutAll, HeaderStart, Inside, Separate, Spares, Get, Zeros;
    var ws := HeaderStart(my, alternate);
    StartShape(my, alternate);
    PutAllSame(Zeros(SECTOR), ws, 0);
    PutAllSame(Zeros(SECTOR), ws, 2);
    PutAllElsewhere(Zeros(SECTOR), ws, 16, 4);
    ZerosAt(SECTOR, 16, 4);
  }

  lemma MiddleRead(b: seq<bv8>, total: nat, off: nat, n: nat)
    requires |b| == SECTOR && total >= 68 && off + n <= 40
    ensures Get(PutAll(b, HeaderMiddle(total)), off, n) == Get(b, off, n)
  {
    hide Le, PutAll;
    var ws := HeaderMiddle(total);
    assert |ws| == 3 && ws[0].off == 40 && ws[1].off == 48 && ws[2].off == 56;
    PutAllElsewhere(b, ws, off, n);
  }

  lemma EndShape(entries: nat, crc: nat)
    ensures var ws := HeaderEnd(entries, crc);
            && |ws| == 4 && Separate(ws) && ws[0] == Write(72, Le(entries, 8)) && ws[1] == Write(80, Le(128, 4))
            && ws[2] == Write(84, Le(128, 4)) && ws[3] == Write(88, Le(crc, 4))
            && Spares(ws, 0, 8) && Spares(ws, 12, 4) && Spares(ws, 16, 4)
  {
    hide Le;
  }

  lemma EndRead(b: seq<bv8>, entries: nat, crc: nat)
    requires |b| == SECTOR
    ensures var c := PutAll(b, HeaderEnd(entries, crc));
            && Get(c, 72, 8) == Le(entries, 8) && Get(c, 80, 4) == Le(128, 4) && Get(c, 84, 4) == Le(128, 4)
            && Get(c, 88, 4) == Le(crc, 4)
            && Get(c, 0, 8) == Get(b, 0, 8) && Get(c, 12, 4) == Get(b, 12, 4) && Get(c, 16, 4) == Get(b, 16, 4)
  {
    hide Le, PutAll, HeaderEnd, Inside, Separate, Spares, Get;
    var ws := HeaderEnd(entries, crc);
    EndShape(entries, crc);
    PutAllSame(b, ws, 0);
    PutAllSame(b, ws, 1);
    PutAllSame(b, ws, 2);
    PutAllSame(b, ws, 3);
    PutAllElsewhere(b, ws, 0, 8);
    PutAllElsewhere(b, ws, 12, 4);
    PutAllElsewhere(b, ws, 16, 4);
  }

  lemma ImageRead(total: nat, my: nat, alternate: nat, entries: nat, crc: nat)
    requires total >= 68
    ensures var c := HeaderImage(total, my, alternate, entries, crc);
            && Get(c, 0, 8) == SIGNATURE && Get(c, 12, 4) == Le(92, 4) && Get(c, 16, 4) == Zeros(4)
            && Get(c, 72, 8) == Le(entries, 8) && Get(c, 80, 4) == Le(128, 4) && Get(c, 84, 4) == Le(128, 4)
            && Get(c, 88, 4) == Le(crc, 4)
  {
    hide Le, PutAll, HeaderStart, HeaderMiddle, HeaderEnd, Get, Zeros;
    StartRead(my, alternate);
    var b := PutAll(Zeros(SECTOR), HeaderStart(my, alternate));
    MiddleRead(b, total, 0, 8);
    MiddleRead(b, total, 12, 4);
    MiddleRead(b, total, 16, 4);
    EndRead(PutAll(b, HeaderMiddle(total)), entries, crc);
  }

  /** A header written by gpt_install passes gpt_parse's own checks, and its
      fields read back. */
  lemma HeaderReads(total: nat, my: nat, alternate: nat, entries: nat, crc: nat)
    requires total >= 68 && entries < WORD64 && crc < WORD32
    ensures var h := HeaderSector(total, my, alternate, entries, crc);
            && Get(h, 0, 8) == SIGNATURE && Field(h, 12, 4) == 92
            && Checksum(Put(h, 16, Zeros(4))[..92]) == Field(h, 16, 4)
            && Field(h, 72, 8) == entries && Field(h, 80, 4) == 128 && Field(h, 84, 4) == 128 && Field(h, 88, 4) == crc
  {
    hide Le, Checksum, HeaderImage, Zeros, Get, Put, FromLe;
    var image := HeaderImage(total, my, alternate, entries, crc);
    var sum := Checksum(image[..92]);
    ImageRead(total, my, alternate, entries, crc);
    PutBack(image, 16, Le(sum, 4), Zeros(4));
    PutSame(image, 16, Le(sum, 4));
    PutElsewhere(image, 16, Le(sum, 4), 0, 8);
    PutElsewhere(image, 16, Le(sum, 4), 12, 4);
    PutElsewhere(image, 16, Le(sum, 4), 72, 8);
    PutElsewhere(image, 16, Le(sum, 4), 80, 4);
    PutElsewhere(image, 16, Le(sum, 4), 84, 4);
    PutElsewhere(image, 16, Le(sum, 4), 88, 4);
    NumbersBack(entries, crc, sum);
  }

  lemma NumbersBack(entries: nat, crc: nat, sum: nat)
    requires entries < WORD64 && crc < WORD32 && sum < WORD32
    ensures FromLe(Le(92, 4)) == 92 && FromLe(Le(entries, 8)) == entries && FromLe(Le(128, 4)) == 128
    ensures FromLe(Le(crc, 4)) == crc && FromLe(Le(sum, 4)) == sum
  {
    hide Le, FromLe, Pow256;
    Powers();
    LeRoundTrip(92, 4);
    LeRoundTrip(entries, 8);
    LeRoundTrip(128, 4);
    LeRoundTrip(crc, 4);
    LeRoundTrip(sum, 4);
  }

  /** The fields of a header at their places in the format: revision 1.0, its own
      sector and the other header's, the usable sectors, the disk's identifier,
      and where its array of 128 entries of 128 bytes is. */
  ghost predicate HeaderSays(h: seq<bv8>, total: nat, my: nat, alternate: nat, entries: nat)
    requires |h| == SECTOR && total >= 68
  {
    && h[..8] == [0x45, 0x46, 0x49, 0x20, 0x50, 0x41, 0x52, 0x54]
    && FromLe(h[8..12]) == 0x1_0000 && FromLe(h[12..16]) == 92 && HeaderSum(h)
    && FromLe(h[24..32]) == my && FromLe(h[32..40]) == alternate
    && FromLe(h[40..48]) == 34 && FromLe(h[48..56]) == total - 34
    && (forall i :: 56 <= i < 72 ==> h[i] == 0xCC)
    && FromLe(h[72..80]) == entries && FromLe(h[80..84]) == 128 && FromLe(h[84..88]) == 128
  }

  lemma StartFields(my: nat, alternate: nat)
    ensures var b := PutAll(Zeros(SECTOR), HeaderStart(my, alternate));
            Get(b, 8, 4) == Le(0x1_0000, 4) && Get(b, 24, 8) == Le(my, 8) && Get(b, 32, 8) == Le(alternate, 8)
  {
    var ws := HeaderStart(my, alternate);
    hide Le, PutAll, Get, Zeros, Inside;
    assert |ws| == 5 && ws[1] == Write(8, Le(0x1_0000, 4)) && ws[3] == Write(24, Le(my, 8));
    assert ws[4] == Write(32, Le(alternate, 8));
    StartShape(my, alternate);
    PutAllSame(Zeros(SECTOR), ws, 1);
    PutAllSame(Zeros(SECTOR), ws, 3);
    PutAllSame(Zeros(SECTOR), ws, 4);
  }

  lemma MiddleShape(total: nat)
    requires total >= 68
    ensures var ws := HeaderMiddle(total);
            && |ws| == 3 && Separate(ws) && ws[0] == Write(40, Le(34, 8)) && ws[1] == Write(48, Le(total - 34, 8))
            && ws[2] == Write(56, Filled(0xCC, 16))
  {
    hide Le, Filled;
  }

  lemma MiddleFields(b: seq<bv8>, total: nat)
    requires |b| == SECTOR && total >= 68
    ensures var c := PutAll(b, HeaderMiddle(total));
            Get(c, 40, 8) == Le(34, 8) && Get(c, 48, 8) == Le(total - 34, 8) && Get(c, 56, 16) == Filled(0xCC, 16)
  {
    hide Le, PutAll, Get, Inside, Filled, Separate, HeaderMiddle;
    var ws := HeaderMiddle(total);
    MiddleShape(total);
    PutAllSame(b, ws, 0);
    PutAllSame(b, ws, 1);
    PutAllSame(b, ws, 2);
  }

  lemma EndKeeps(b: seq<bv8>, entries: nat, crc: nat, off: nat, n: nat)
    requires |b| == SECTOR && off + n <= 72
    ensures Get(PutAll(b, HeaderEnd(entries, crc)), off, n) == Get(b, off, n)
  {
    var ws := HeaderEnd(entries, crc);
    hide Le, PutAll, Get, Inside;
    assert |ws| == 4 && ws[0].off == 72 && ws[1].off == 80 && ws[2].off == 84 && ws[3].off == 88;
    PutAllElsewhere(b, ws, off, n);
  }

  lemma ImageFields(total: nat, my: nat, alternate: nat, entries: nat, crc: nat)
    requires total >= 68
    ensures var c := HeaderImage(total, my, alternate, entries, crc);
            && Get(c, 8, 4) == Le(0x1_0000, 4) && Get(c, 24, 8) == Le(my, 8) && Get(c, 32, 8) == Le(alternate, 8)
            && Get(c, 40, 8) == Le(34, 8) && Get(c, 48, 8) == Le(total - 34, 8) && Get(c, 56, 16) == Filled(0xCC, 16)
  {
    hide Le, PutAll, HeaderStart, HeaderMiddle, HeaderEnd, Get, Zeros, Filled;
    StartFields(my, alternate);
    var b := PutAll(Zeros(SECTOR), HeaderStart(my, alternate));
    MiddleRead(b, total, 8, 4);
    MiddleRead(b, total, 24, 8);
    MiddleRead(b, total, 32, 8);
    MiddleFields(b, total);
    var m := PutAll(b, HeaderMiddle(total));
    EndKeeps(m, entries, crc, 8, 4);
    EndKeeps(m, entries, crc, 24, 8);
    EndKeeps(m, entries, crc, 32, 8);
    EndKeeps(m, entries, crc, 40, 8);
    EndKeeps(m, entries, crc, 48, 8);
    EndKeeps(m, entries, crc, 56, 16);
  }

  /** Every field of a written header is where the format has it. */
  lemma HeaderLayout(total: nat, my: nat, alternate: nat, entries: nat, crc: nat)
    requires 68 <= total < WORD64 && my < WORD64 && alternate < WORD64 && entries < WORD64 && crc < WORD32
    ensures HeaderSays(HeaderSector(total, my, alternate, entries, crc), total, my, alternate, entries)
  {
    hide Le, Checksum, HeaderImage, Zeros, Put, FromLe, HeaderSum;
    var image := HeaderImage(total, my, alternate, entries, crc);
    var sum := Le(Checksum(image[..92]), 4);
    var h := HeaderSector(total, my, alternate, entries, crc);
    HeaderReads(total, my, alternate, entries, crc);
    SumHolds(h);
    ImageFields(total, my, alternate, entries, crc);
    PutElsewhere(image, 16, sum, 8, 4);
    PutElsewhere(image, 16, sum, 24, 8);
    PutElsewhere(image, 16, sum, 32, 8);
    PutElsewhere(image, 16, sum, 40, 8);
    PutElsewhere(image, 16, sum, 48, 8);
    PutElsewhere(image, 16, sum, 56, 16);
    assert forall i :: 56 <= i < 72 ==> h[i] == Get(h, 56, 16)[i - 56];
    SomeNumbers(total, my, alternate);
  }

  lemma SumHolds(h: seq<bv8>)
    requires |h| == SECTOR && Field(h, 12, 4) == 92 && Checksum(Put(h, 16, Zeros(4))[..92]) == Field(h, 16, 4)
    ensures HeaderSum(h)
  {
    hide Checksum, FromLe;
    assert [0, 0, 0, 0] == Zeros(4);
    assert Put(h, 16, Zeros(4)) == h[..16] + [0, 0, 0, 0] + h[20..];
  }

  lemma SomeNumbers(total: nat, my: nat, alternate: nat)
    requires 68 <= total < WORD64 && my < WORD64 && alternate < WORD64
    ensures FromLe(Le(0x1_0000, 4)) == 0x1_0000 && FromLe(Le(my, 8)) == my && FromLe(Le(alternate, 8)) == alternate
    ensures FromLe(Le(34, 8)) == 34 && FromLe(Le(total - 34, 8)) == total - 34
  {
    hide Le, FromLe, Pow256;
    Powers();
    LeRoundTrip(0x1_0000, 4);
    LeRoundTrip(my, 8);
    LeRoundTrip(alternate, 8);
    LeRoundTrip(34, 8);
    LeRoundTrip(total - 34, 8);
  }

  lemma EntryShape(total: nat, name: Option<seq<nat>>, guid: seq<bv8>)
    requires total >= 68 && NameOk(name) && |guid| == 16
    ensures var ws := EntryWrites(total, name, guid);
            && |ws| == 5 && Separate(ws) && Inside(ARRAY, ws) && ws[0] == Write(0, guid)
            && ws[2] == Write(32, Le(2048, 8))
            && ws[3] == Write(40, Le(total - 34, 8))
    ensures forall off: nat :: off >= 128 ==> Spares(EntryWrites(total, name, guid), off, 16)
  {
    hide Le, Name;
  }

  /** Every entry behind the first is empty. */
  ghost predicate RestEmpty(a: seq<bv8>)
    requires |a| == ARRAY
  {
    forall off: nat :: 128 <= off <= ARRAY - 16 ==> Get(a, off, 16) == Zeros(16)
  }

  /** The first entry reads back, and all others are empty. */
  lemma ArrayReads(total: nat, name: Option<seq<nat>>, guid: seq<bv8>)
    requires 68 <= total < WORD64 && NameOk(name) && |guid| == 16
    ensures var a := EntryArray(total, name, guid);
            Get(a, 0, 16) == guid && Field(a, 32, 8) == 2048 && Field(a, 40, 8) == total - 34 && RestEmpty(a)
  {
    hide Le, PutAll, EntryWrites, Name, FromLe, Zeros, Pow256, Get, Separate, Inside, Spares;
    var ws := EntryWrites(total, name, guid);
    EntryShape(total, name, guid);
    PutAllSame(Zeros(ARRAY), ws, 0);
    PutAllSame(Zeros(ARRAY), ws, 2);
    PutAllSame(Zeros(ARRAY), ws, 3);
    Powers();
    LeRoundTrip(2048, 8);
    LeRoundTrip(total - 34, 8);
    forall off: nat | 128 <= off <= ARRAY - 16
      ensures Get(EntryArray(total, name, guid), off, 16) == Zeros(16)
    {
      PutAllElsewhere(Zeros(ARRAY), ws, off, 16);
      ZerosAt(ARRAY, off, 16);
    }
  }

  /** The first entry at its places in the format: the type, an identifier, the
      first and last sector, and the name in 16-bit units, a zero behind it. */
  ghost predicate EntrySays(a: seq<bv8>, total: nat, name: Option<seq<nat>>, guid: seq<bv8>)
    requires |a| == ARRAY && total >= 68 && NameOk(name) && |guid| == 16
  {
    && a[..16] == guid && (forall i :: 16 <= i < 32 ==> a[i] == 0xAA)
    && FromLe(a[32..40]) == 2048 && FromLe(a[40..48]) == total - 34 && FromLe(a[48..56]) == 0
    && (forall i :: 0 <= i < 36 ==> FromLe(a[56 + 2 * i..58 + 2 * i]) == UnitAt(name, i))
    && (forall i :: 128 <= i < ARRAY ==> a[i] == 0)
  }

  /** The i-th unit of a name: characters are signed, and zero ends the name. */
  function UnitAt(name: Option<seq<nat>>, i: nat): nat
    requires NameOk(name)
  {
    if name.None? || i >= |name.value| then 0
    else if name.value[i] < 128 then name.value[i]
    else 0x1_0000 + name.value[i] - 256
  }

  lemma {:induction false} NameUnit(name: seq<nat>, n: nat, i: nat)
    requires i < n <= |name| && forall j :: 0 <= j < |name| ==> name[j] < 256
    ensures FromLe(NameBytes(name, n)[2 * i..2 * i + 2]) == UnitAt(Some(name), i)
  {
    hide FromLe, Le, Pow256;
    if i == n - 1 {
      var unit := if name[i] >= 128 then 0xFF00 + name[i] else name[i];
      TwoBytes();
      LeRoundTrip(unit, 2);
      assert NameBytes(name, n)[2 * i..2 * i + 2] == Le(unit, 2);
    } else {
      NameUnit(name, n - 1, i);
      assert NameBytes(name, n)[2 * i..2 * i + 2] == NameBytes(name, n - 1)[2 * i..2 * i + 2];
    }
  }

  lemma TwoBytes()
    ensures Pow256(2) == 0x1_0000
  {
    assert Pow256(1) == 256;
  }

  /** The entry of a written array says what was asked for. */
  lemma EntryLayout(total: nat, name: Option<seq<nat>>, guid: seq<bv8>)
    requires 68 <= total < WORD64 && NameOk(name) && |guid| == 16
    ensures EntrySays(EntryArray(total, name, guid), total, name, guid)
  {
    hide Le, PutAll, EntryWrites, Name, FromLe, Zeros, Get, Separate, Inside, Spares, UnitAt;
    var ws := EntryWrites(total, name, guid);
    var a := EntryArray(total, name, guid);
    EntryShape(total, name, guid);
    ArrayReads(total, name, guid);
    EntryGaps(total, name, guid);
    PutAllSame(Zeros(ARRAY), ws, 1);
    PutAllSame(Zeros(ARRAY), ws, 4);
    PutAllElsewhere(Zeros(ARRAY), ws, 48, 8);
    ZerosAt(ARRAY, 48, 8);
    ZeroNumber(8);
    EntryBytes(a, guid);
    forall i | 128 <= i < ARRAY
      ensures a[i] == 0
    {
      PutAllElsewhere(Zeros(ARRAY), ws, i, 1);
      ByteAt(a, i);
      ZeroByte(ARRAY, i);
    }
    forall i | 0 <= i < 36
      ensures FromLe(a[56 + 2 * i..58 + 2 * i]) == UnitAt(name, i)
    {
      NameInEntry(total, name, guid, i);
    }
  }

  lemma EntryBytes(a: seq<bv8>, guid: seq<bv8>)
    requires |a| == ARRAY && Get(a, 0, 16) == guid && Get(a, 16, 16) == Filled(0xAA, 16)
    ensures a[..16] == guid && forall i :: 16 <= i < 32 ==> a[i] == 0xAA
    ensures Get(a, 32, 8) == a[32..40] && Get(a, 40, 8) == a[40..48] && Get(a, 48, 8) == a[48..56]
  {
    assert forall i :: 16 <= i < 32 ==> a[i] == Get(a, 16, 16)[i - 16];
  }

  lemma ByteAt(a: seq<bv8>, i: nat)
    requires i < |a|
    ensures Get(a, i, 1) == [a[i]]
  {
  }

  lemma ZeroByte(n: nat, i: nat)
    requires i < n
    ensures Get(Zeros(n), i, 1) == [0]
  {
  }

  lemma ZeroNumber(n: nat)
    ensures FromLe(Zeros(n)) == 0
  {
    if n > 0 {
      assert Zeros(n)[1..] == Zeros(n - 1);
      ZeroNumber(n - 1);
    }
  }

  lemma EntryGaps(total: nat, name: Option<seq<nat>>, guid: seq<bv8>)
    requires total >= 68 && NameOk(name) && |guid| == 16
    ensures var ws := EntryWrites(total, name, guid);
            && |ws| == 5 && ws[1] == Write(16, Filled(0xAA, 16)) && ws[4] == Write(56, Name(name))
            && Spares(ws, 48, 8)
            && (forall i: nat :: i >= 128 ==> Spares(ws, i, 1))
            && (forall i: nat :: i >= 56 + |Name(name)| ==> Spares(ws, i, 2))
  {
    hide Le, Name;
  }

  lemma NameInEntry(total: nat, name: Option<seq<nat>>, guid: seq<bv8>, i: nat)
    requires 68 <= total < WORD64 && NameOk(name) && |guid| == 16 && i < 36
    ensures FromLe(EntryArray(total, name, guid)[56 + 2 * i..58 + 2 * i]) == UnitAt(name, i)
  {
    hide Le, PutAll, EntryWrites, FromLe, Zeros, Separate, Inside, Spares, NameBytes;
    var ws := EntryWrites(total, name, guid);
    var a := EntryArray(total, name, guid);
    EntryShape(total, name, guid);
    EntryGaps(total, name, guid);
    var bytes := Name(name);
    if name.Some? && i < |name.value| {
      PutAllSame(Zeros(ARRAY), ws, 4);
      NameUnit(name.value, NameLength(name.value), i);
      SliceOf(a, 56, bytes, 2 * i);
    } else {
      assert |bytes| <= 2 * i;
      PutAllElsewhere(Zeros(ARRAY), ws, 56 + 2 * i, 2);
      ZerosAt(ARRAY, 56 + 2 * i, 2);
      ZeroNumber(2);
    }
  }

  lemma SliceOf(a: seq<bv8>, off: nat, s: seq<bv8>, k: nat)
    requires off + |s| <= |a| && Get(a, off, |s|) == s && k + 2 <= |s|
    ensures a[off + k..off + k + 2] == s[k..k + 2]
  {
    var t, u := a[off..off + |s|], a[off + k..off + k + 2];
    assert t == s;
    assert u[0] == a[off + k] == t[k] && u[1] == a[off + k + 1] == t[k + 1];
    assert u == [s[k], s[k + 1]];
  }

  lemma {:induction false} EmptyEntries(a: seq<bv8>, i: nat, done: seq<Part>)
    requires |a| == ARRAY && 1 <= i <= 128 && RestEmpty(a)
    ensures Entries(a, 128, 128, i, done) == Found(done)
    decreases 128 - i
  {
    hide Get, Zeros;
    if i < 128 {
      EmptyEntries(a, i + 1, done);
    }
  }

  /** The one partition a written table describes; none if its type is the
      empty one. */
  function Expected(total: nat, guid: seq<bv8>): seq<Part> {
    if guid == Zeros(16) then [] else [Part(2048, (total - 2081) % WORD64, 0, guid)]
  }

  lemma FirstEntry(a: seq<bv8>, guid: seq<bv8>)
    requires |a| == ARRAY && Get(a, 0, 16) == guid
    ensures Entries(a, 128, 128, 0, []) ==
            if guid == Zeros(16) then Entries(a, 128, 128, 1, []) else Entries(a, 128, 128, 1, [PartAt(a, 0, 0)])
  {
    hide Get, Zeros, PartAt;
    assert [] + [PartAt(a, 0, 0)] == [PartAt(a, 0, 0)];
    assert Offset(0, 128) == 0;
  }

  lemma ArrayParses(total: nat, name: Option<seq<nat>>, guid: seq<bv8>)
    requires 68 <= total < WORD64 && NameOk(name) && |guid| == 16
    ensures Entries(EntryArray(total, name, guid), 128, 128, 0, []) == Found(Expected(total, guid))
  {
    hide EntryArray, Get, Zeros, RestEmpty;
    ArrayReads(total, name, guid);
    var a := EntryArray(total, name, guid);
    var p := PartAt(a, 0, 0);
    EmptyEntries(a, 1, []);
    EmptyEntries(a, 1, [p]);
    FirstEntry(a, guid);
    assert p == Part(2048, (total - 2081) % WORD64, 0, guid);
    hide PartAt, Field, Entries;
  }

  /** A disk with a written header and its array reads as the one partition. */
  lemma TableParses(disk: seq<bv8>, total: nat, name: Option<seq<nat>>, guid: seq<bv8>, my: nat, alternate: nat,
                    entries: nat)
    requires 68 <= total < WORD64 && NameOk(name) && |guid| == 16 && |disk| == total * SECTOR
    requires my < total && entries + 32 <= total
    requires Get(disk, entries * SECTOR, ARRAY) == EntryArray(total, name, guid)
    requires Get(disk, my * SECTOR, SECTOR) == HeaderSector(total, my, alternate, entries,
                                                            Checksum(EntryArray(total, name, guid)))
    ensures ParseGpt(disk, my) == Found(Expected(total, guid))
  {
    hide EntryArray, HeaderSector, Get, Put, Zeros, Field, Checksum, Entries, Expected;
    var a := EntryArray(total, name, guid);
    HeaderReads(total, my, alternate, entries, Checksum(a));
    ArrayParses(total, name, guid);
    assert a[..ARRAY] == a;
  }

  // ----- the whole disk

  ghost function Installed(disk: seq<bv8>, total: nat, name: Option<seq<nat>>, guid: seq<bv8>): seq<bv8>
    requires total >= 68 && |disk| == total * SECTOR && NameOk(name) && |guid| == 16
  {
    InstallInside(total, name, guid);
    PutAll(disk, InstallWrites(total, name, guid))
  }

  lemma InstallInside(total: nat, name: Option<seq<nat>>, guid: seq<bv8>)
    requires total >= 68 && NameOk(name) && |guid| == 16
    ensures var ws := InstallWrites(total, name, guid);
            && |ws| == 5 && Inside(total * SECTOR, ws) && Separate(ws)
            && ws[0] == Write(0, MbrSector(total)) && ws[1] == Write(2 * SECTOR, EntryArray(total, name, guid))
            && ws[2] == Write((total - 33) * SECTOR, EntryArray(total, name, guid))
            && ws[3] == Write(SECTOR, HeaderSector(total, 1, total - 1, 2, Checksum(EntryArray(total, name, guid))))
            && ws[4] == Write((total - 1) * SECTOR,
                              HeaderSector(total, total - 1, 1, total - 33, Checksum(EntryArray(total, name, guid))))
  {
    hide EntryArray, HeaderSector, MbrSector, Checksum;
  }

  /** Sector 0 is the protective MBR, sector 1 the primary header with its array
      from sector 2 on, the last sector the backup header with the same array
      before it, and each header names the other. */
  ghost predicate InstalledSays(d: seq<bv8>, total: nat, name: Option<seq<nat>>, guid: seq<bv8>)
    requires 68 <= total && |d| == total * SECTOR && NameOk(name) && |guid| == 16
  {
    && MbrSays(Get(d, 0, SECTOR), total)
    && HeaderSays(Get(d, SECTOR, SECTOR), total, 1, total - 1, 2)
    && HeaderSays(Get(d, (total - 1) * SECTOR, SECTOR), total, total - 1, 1, total - 33)
    && EntrySays(Get(d, 2 * SECTOR, ARRAY), total, name, guid)
    && Get(d, (total - 33) * SECTOR, ARRAY) == Get(d, 2 * SECTOR, ARRAY)
  }

  /** After gpt_install the disk reads as a protective MBR, and both the primary
      and the backup table pass every check and describe the one partition. */
  lemma InstallThenParse(disk: seq<bv8>, total: nat, name: Option<seq<nat>>, guid: seq<bv8>)
    requires 68 <= total < WORD64 && |disk| == total * SECTOR && NameOk(name) && |guid| == 16
    ensures var d := Installed(disk, total, name, guid);
            && |d| == |disk|
            && Field(Get(d, 0, SECTOR), 510, 2) == 0xAA55 && EntryType(Get(d, 0, SECTOR), 0) == 0xEE
            && ParseGpt(d, 1) == Found(Expected(total, guid))
            && ParseGpt(d, total - 1) == Found(Expected(total, guid))
            && InstalledSays(d, total, name, guid)
  {
    var ws := InstallWrites(total, name, guid);
    InstallInside(total, name, guid);
    hide InstallWrites, PutAll, EntryArray, HeaderSector, MbrSector, Checksum, ParseGpt, Expected, Field, EntryType;
    hide HeaderSays, MbrSays, EntrySays;
    var d := Installed(disk, total, name, guid);
    PutAllSame(disk, ws, 0);
    PutAllSame(disk, ws, 1);
    PutAllSame(disk, ws, 2);
    PutAllSame(disk, ws, 3);
    PutAllSame(disk, ws, 4);
    MbrReads(total);
    EntryLayout(total, name, guid);
    HeaderLayout(total, 1, total - 1, 2, Checksum(EntryArray(total, name, guid)));
    HeaderLayout(total, total - 1, 1, total - 33, Checksum(EntryArray(total, name, guid)));
    TableParses(d, total, name, guid, 1, total - 1, 2);
    TableParses(d, total, name, guid, total - 1, 1, total - 33);
  }

  lemma MbrReads(total: nat)
    requires total >= 68
    ensures Field(MbrSector(total), 510, 2) == 0xAA55 && EntryType(MbrSector(total), 0) == 0xEE
    ensures MbrSays(MbrSector(total), total)
  {
    MbrLayout(total);
    hide MbrSays;
    var ws := MbrWrites(total);
    var m := MbrSector(total);
    assert && |ws| == 4 && ws[0] == Write(450, [0xEE]) && ws[1].off == 454 && |ws[1].bytes| == 4 && ws[2].off == 458
           && |ws[2].bytes| == 4 && ws[3] == Write(510, [0x55, 0xAA]);
    hide Le, PutAll, MbrWrites;
    PutAllSame(Zeros(SECTOR), ws, 0);
    PutAllSame(Zeros(SECTOR), ws, 3);
    assert Get(m, 450, 1)[0] == m[450];
    BootSignature();
  }

  /** One protective entry for all of the disk but the first sector, and nothing
      else but the boot signature. */
  ghost predicate MbrSays(m: seq<bv8>, total: nat)
    requires |m| == SECTOR && total >= 68
  {
    && (forall i :: 0 <= i < 450 ==> m[i] == 0) && m[450] == 0xEE && (forall i :: 451 <= i < 454 ==> m[i] == 0)
    && FromLe(m[454..458]) == 1 && FromLe(m[458..462]) == (if total - 1 < WORD32 - 1 then total - 1 else WORD32 - 1)
    && (forall i :: 462 <= i < 510 ==> m[i] == 0) && m[510] == 0x55 && m[511] == 0xAA
  }

  lemma MbrShape(total: nat)
    requires total >= 68
    ensures var ws := MbrWrites(total);
            var sectors := if total - 1 < WORD32 - 1 then total - 1 else WORD32 - 1;
            && |ws| == 4 && Separate(ws) && Inside(SECTOR, ws)
            && ws[0] == Write(450, [0xEE]) && ws[1] == Write(454, Le(1, 4))
            && ws[2] == Write(458, Le(sectors, 4)) && ws[3] == Write(510, [0x55, 0xAA])
            && forall i: nat :: i < 450 || 451 <= i < 454 || 462 <= i < 510 ==> Spares(ws, i, 1)
  {
    hide Le;
  }

  lemma MbrLayout(total: nat)
    requires total >= 68
    ensures MbrSays(MbrSector(total), total)
  {
    hide Le, PutAll, MbrWrites, FromLe, Pow256, Zeros, Get, Separate, Inside, Spares;
    var ws := MbrWrites(total);
    var m := MbrSector(total);
    var sectors := if total - 1 < WORD32 - 1 then total - 1 else WORD32 - 1;
    MbrShape(total);
    PutAllSame(Zeros(SECTOR), ws, 0);
    PutAllSame(Zeros(SECTOR), ws, 1);
    PutAllSame(Zeros(SECTOR), ws, 2);
    PutAllSame(Zeros(SECTOR), ws, 3);
    Powers();
    LeRoundTrip(1, 4);
    LeRoundTrip(sectors, 4);
    MbrBytes(m);
    forall i | 0 <= i < 450 || 451 <= i < 454 || 462 <= i < 510
      ensures m[i] == 0
    {
      PutAllElsewhere(Zeros(SECTOR), ws, i, 1);
      ByteAt(m, i);
      ZeroByte(SECTOR, i);
    }
  }

  lemma MbrBytes(m: seq<bv8>)
    requires |m| == SECTOR && Get(m, 450, 1) == [0xEE] && Get(m, 510, 2) == [0x55, 0xAA]
    ensures m[450] == 0xEE && m[510] == 0x55 && m[511] == 0xAA
    ensures Get(m, 454, 4) == m[454..458] && Get(m, 458, 4) == m[458..462]
  {
    assert Get(m, 450, 1)[0] == m[450] && Get(m, 510, 2)[0] == m[510] && Get(m, 510, 2)[1] == m[511];
  }

  lemma BootSignature()
    ensures FromLe([0x55, 0xAA]) == 0xAA55
  {
    assert [0x55, 0xAA as bv8][1..] == [0xAA];
    assert FromLe([0xAA]) == 0xAA;
  }

  /** The partition read back lies inside the usable sectors exactly on disks of
      at least 2082 sectors; on smaller ones its length is zero or wraps. */
  lemma PartitionFits(total: nat, guid: seq<bv8>)
    requires 68 <= total < WORD64 && guid != Zeros(16)
    ensures var p := Expected(total, guid)[0];
            p.count > 0 && p.start + p.count <= total - 33 <==> total >= 2082
    ensures total >= 2082 ==> Expected(total, guid)[0].count == total - 2081
    ensures total < 2081 ==> Expected(total, guid)[0].count == WORD64 - (2081 - total)
  {
  }

  // ----- gpt_install

  /** The type the new partition gets. */
  function TypeOf(guid: Option<seq<bv8>>): seq<bv8> {
    if guid.Some? then guid.value else LINUX
  }

  /** Filling the partition array. */
  method FillArray(total: nat, name: Option<seq<nat>>, guid: seq<bv8>) returns (a: seq<bv8>)
    requires total >= 68 && NameOk(name) && |guid| == 16
    ensures a == EntryArray(total, name, guid)
  {
    hide Le, Put, Filled, Zeros;
    a := Zeros(ARRAY);
    a := Put(a, 0, guid);
    a := Put(a, 16, Filled(0xAA, 16));
    a := Put(a, 32, Le(2048, 8));
    a := Put(a, 40, Le(total - 34, 8));
    ghost var before := a;
    if name.Some? {
      var i := 0;
      NoName(before);
      while i < |name.value| && i < 36
        invariant 0 <= i <= NameLength(name.value) && |before| == ARRAY
        invariant a == Put(before, 56, NameBytes(name.value, i))
      {
        var c := name.value[i];
        var unit := Le(if c >= 128 then 0xFF00 + c else c, 2);
        PutAppend(before, 56, NameBytes(name.value, i), unit);
        a := Put(a, 56 + 2 * i, unit);
        i := i + 1;
      }
    } else {
      NoName(before);
    }
    FiveWrites(Zeros(ARRAY), EntryWrites(total, name, guid));
  }

  lemma NoName(a: seq<bv8>)
    requires |a| == ARRAY
    ensures Put(a, 56, []) == a
  {
  }

  lemma FiveWrites(buf: seq<bv8>, ws: seq<Write>)
    requires Inside(|buf|, ws) && |ws| == 5
    ensures PutAll(buf, ws) ==
            Put(Put(Put(Put(Put(buf, ws[0].off, ws[0].bytes), ws[1].off, ws[1].bytes), ws[2].off, ws[2].bytes),
                    ws[3].off, ws[3].bytes), ws[4].off, ws[4].bytes)
  {
    hide Put;
    assert ws[..4][..3] == ws[..3] && ws[..3][..2] == ws[..2] && ws[..2][..1] == ws[..1] && ws[..1][..0] == [];
    assert PutAll(buf, ws[..1]) == Put(buf, ws[0].off, ws[0].bytes);
    assert PutAll(buf, ws[..2]) == Put(PutAll(buf, ws[..1]), ws[1].off, ws[1].bytes);
    assert PutAll(buf, ws[..3]) == Put(PutAll(buf, ws[..2]), ws[2].off, ws[2].bytes);
    assert PutAll(buf, ws[..4]) == Put(PutAll(buf, ws[..3]), ws[3].off, ws[3].bytes);
  }

  /** Turning the primary header's image in the buffer into the backup's. */
  lemma Retarget(total: nat, my: nat, alternate: nat, entries: nat, crc: nat, my': nat, alternate': nat, entries': nat)
    requires total >= 68
    ensures Put(Put(Put(HeaderImage(total, my, alternate, entries, crc), 24, Le(my', 8)), 32, Le(alternate', 8)), 72,
                Le(entries', 8))
            == HeaderImage(total, my', alternate', entries', crc)
  {
    hide Le, Put, PutAll, Zeros, HeaderStart, HeaderMiddle, HeaderEnd;
    RetargetStart(total, my, alternate, entries, crc, my', alternate');
    RetargetEnd(PutAll(PutAll(Zeros(SECTOR), HeaderStart(my', alternate')), HeaderMiddle(total)), entries, crc,
                entries');
  }

  lemma RetargetEnd(b: seq<bv8>, entries: nat, crc: nat, entries': nat)
    requires |b| == SECTOR
    ensures Put(PutAll(b, HeaderEnd(entries, crc)), 72, Le(entries', 8)) == PutAll(b, HeaderEnd(entries', crc))
  {
    hide Le, Put, PutAll, Separate, Spares;
    EndShape(entries, crc);
    Overwrite(b, HeaderEnd(entries, crc), 0, Le(entries', 8));
    assert HeaderEnd(entries, crc)[0 := Write(72, Le(entries', 8))] == HeaderEnd(entries', crc);
  }

  lemma RetargetStart(total: nat, my: nat, alternate: nat, entries: nat, crc: nat, my': nat, alternate': nat)
    requires total >= 68
    ensures Put(Put(HeaderImage(total, my, alternate, entries, crc), 24, Le(my', 8)), 32, Le(alternate', 8))
            == HeaderImage(total, my', alternate', entries, crc)
  {
    hide Le, Put, PutAll, Zeros, HeaderStart, HeaderMiddle, HeaderEnd, Inside, Spares;
    var z := Zeros(SECTOR);
    var s0 := PutAll(z, HeaderStart(my, alternate));
    var s1 := Put(s0, 24, Le(my', 8));
    var m, n := HeaderMiddle(total), HeaderEnd(entries, crc);
    RestSpares(total, entries, crc);
    PutFirst(PutAll(s0, m), n, Write(24, Le(my', 8)));
    PutFirst(s0, m, Write(24, Le(my', 8)));
    PutFirst(PutAll(s1, m), n, Write(32, Le(alternate', 8)));
    PutFirst(s1, m, Write(32, Le(alternate', 8)));
    StartAgain(my, alternate, my', alternate');
  }

  lemma RestSpares(total: nat, entries: nat, crc: nat)
    requires total >= 68
    ensures Spares(HeaderMiddle(total), 24, 8) && Spares(HeaderMiddle(total), 32, 8)
    ensures Spares(HeaderEnd(entries, crc), 24, 8) && Spares(HeaderEnd(entries, crc), 32, 8)
  {
    hide Le;
  }

  lemma StartAgain(my: nat, alternate: nat, my': nat, alternate': nat)
    ensures Put(Put(PutAll(Zeros(SECTOR), HeaderStart(my, alternate)), 24, Le(my', 8)), 32, Le(alternate', 8))
            == PutAll(Zeros(SECTOR), HeaderStart(my', alternate'))
  {
    hide Le, Put, PutAll, Separate, Zeros;
    var z := Zeros(SECTOR);
    StartShape(my, alternate);
    StartShape(my', alternate);
    assert && HeaderStart(my, alternate)[3] == Write(24, Le(my, 8))
           && HeaderStart(my', alternate)[4] == Write(32, Le(alternate, 8));
    Overwrite(z, HeaderStart(my, alternate), 3, Le(my', 8));
    assert HeaderStart(my, alternate)[3 := Write(24, Le(my', 8))] == HeaderStart(my', alternate);
    Overwrite(z, HeaderStart(my', alternate), 4, Le(alternate', 8));
    assert HeaderStart(my', alternate)[4 := Write(32, Le(alternate', 8))] == HeaderStart(my', alternate');
  }

  lemma ZeroWord()
    ensures Le(0, 4) == Zeros(4)
  {
    assert Le(0, 2) == [0, 0];
    assert Le(0, 4) == [0, 0] + Le(0, 2);
  }

  /** Clearing the checksum of a finished header whose fields were changed gives
      the changed image. */
  lemma ChangedImage(image: seq<bv8>, crc: seq<bv8>, a: seq<bv8>, b: seq<bv8>, c: seq<bv8>)
    requires |image| == SECTOR && |crc| == 4 && |a| == |b| == |c| == 8 && Get(image, 16, 4) == Zeros(4)
    ensures Put(Put(Put(Put(Put(image, 16, crc), 24, a), 32, b), 72, c), 16, Zeros(4)) ==
        Put(Put(Put(image, 24, a), 32, b), 72, c)
  {
    hide Put, Get, Zeros;
    var w := Write(16, crc);
    PutCommutes(image, w, Write(24, a));
    PutCommutes(Put(image, 24, a), w, Write(32, b));
    PutCommutes(Put(Put(image, 24, a), 32, b), w, Write(72, c));
    var changed := Put(Put(Put(image, 24, a), 32, b), 72, c);
    PutElsewhere(image, 24, a, 16, 4);
    PutElsewhere(Put(image, 24, a), 32, b, 16, 4);
    PutElsewhere(Put(Put(image, 24, a), 32, b), 72, c, 16, 4);
    PutBack(changed, 16, crc, Zeros(4));
  }

  /** Filling in a header and its checksum. */
  method FillHeader(total: nat, my: nat, alternate: nat, entries: nat, crc: nat) returns (h: seq<bv8>)
    requires total >= 68
    ensures h == HeaderSector(total, my, alternate, entries, crc)
  {
    hide Le, Put, Filled, Zeros, Get, Checksum;
    h := Zeros(SECTOR);
    h := Put(h, 0, SIGNATURE);
    h := Put(h, 8, Le(0x1_0000, 4));
    h := Put(h, 12, Le(92, 4));
    h := Put(h, 24, Le(my, 8));
    h := Put(h, 32, Le(alternate, 8));
    FiveWrites(Zeros(SECTOR), HeaderStart(my, alternate));
    assert h == PutAll(Zeros(SECTOR), HeaderStart(my, alternate));
    h := RestOfHeader(h, total, entries, crc);
    ImageRead(total, my, alternate, entries, crc);
    h := Put(h, 16, Le(Checksum(h[..92]), 4));
  }

  method RestOfHeader(b: seq<bv8>, total: nat, entries: nat, crc: nat) returns (h: seq<bv8>)
    requires total >= 68 && |b| == SECTOR
    ensures h == PutAll(PutAll(b, HeaderMiddle(total)), HeaderEnd(entries, crc))
  {
    hide Le, Put, Filled;
    h := Put(b, 40, Le(34, 8));
    h := Put(h, 48, Le(total - 34, 8));
    h := Put(h, 56, Filled(0xCC, 16));
    ThreeWrites(b, HeaderMiddle(total));
    ghost var c := h;
    h := Put(h, 72, Le(entries, 8));
    h := Put(h, 80, Le(128, 4));
    h := Put(h, 84, Le(128, 4));
    ThreeWrites(c, HeaderEnd(entries, crc)[..3]);
    PutAllMore(c, HeaderEnd(entries, crc)[..3], Write(88, Le(crc, 4)));
    h := Put(h, 88, Le(crc, 4));
    assert HeaderEnd(entries, crc)[..3] + [Write(88, Le(crc, 4))] == HeaderEnd(entries, crc);
  }

  lemma ThreeWrites(buf: seq<bv8>, ws: seq<Write>)
    requires Inside(|buf|, ws) && |ws| == 3
    ensures PutAll(buf, ws) == Put(Put(Put(buf, ws[0].off, ws[0].bytes), ws[1].off, ws[1].bytes), ws[2].off,
                                   ws[2].bytes)
  {
    hide Put;
    assert ws[..2][..1] == ws[..1] && ws[..1][..0] == [];
    assert PutAll(buf, ws[..1]) == Put(buf, ws[0].off, ws[0].bytes);
    assert PutAll(buf, ws[..2]) == Put(PutAll(buf, ws[..1]), ws[1].off, ws[1].bytes);
  }

  /** The backup header, made from the primary one in the same buffer. */
  method BackupHeader(sector: seq<bv8>, total: nat, crc: nat) returns (h: seq<bv8>)
    requires total >= 68 && sector == HeaderSector(total, 1, total - 1, 2, crc)
    ensures h == HeaderSector(total, total - 1, 1, total - 33, crc)
  {
    hide Le, Put, Zeros, Get, Checksum, HeaderImage;
    ghost var image := HeaderImage(total, 1, total - 1, 2, crc);
    h := Put(sector, 24, Le(total - 1, 8));
    h := Put(h, 32, Le(1, 8));
    h := Put(h, 72, Le(total - 33, 8));
    h := Put(h, 16, Le(0, 4));
    ZeroWord();
    ImageRead(total, 1, total - 1, 2, crc);
    ChangedImage(image, Le(Checksum(image[..92]), 4), Le(total - 1, 8), Le(1, 8), Le(total - 33, 8));
    Retarget(total, 1, total - 1, 2, crc, total - 1, 1, total - 33);
    h := Put(h, 16, Le(Checksum(h[..92]), 4));
  }

  method FillMbr(total: nat) returns (s: seq<bv8>)
    requires total >= 68
    ensures s == MbrSector(total)
  {
    hide Le, Put, Zeros;
    s := Zeros(SECTOR);
    s := Put(s, 450, [0xEE]);
    s := Put(s, 454, Le(1, 4));
    s := Put(s, 458, Le(if total > 0xFFFF_FFFF then 0xFFFF_FFFF else total - 1, 4));
    ThreeWrites(Zeros(SECTOR), MbrWrites(total)[..3]);
    PutAllMore(Zeros(SECTOR), MbrWrites(total)[..3], Write(510, [0x55, 0xAA]));
    s := Put(s, 510, [0x55, 0xAA]);
    assert MbrWrites(total)[..3] + [Write(510, [0x55, 0xAA])] == MbrWrites(total);
  }

  class Disk {
    const total: nat
    var data: seq<bv8>

    ghost predicate Valid()
      reads this
    {
      |data| == total * SECTOR
    }

    constructor (data: seq<bv8>, total: nat)
      requires |data| == total * SECTOR
      ensures Valid() && this.data == data && this.total == total
    {
      this.data, this.total := data, total;
    }

    method WriteSectors(lba: nat, buf: seq<bv8>)
      requires Valid() && lba * SECTOR + |buf| <= |data|
      modifies this
      ensures Valid() && data == Put(old(data), lba * SECTOR, buf)
    {
      data := Put(data, lba * SECTOR, buf);
    }

    /** gpt_install; the disk then reads as a protective MBR and two tables that
        pass every check and describe the one partition. */
    method Install(name: Option<seq<nat>>, guid: Option<seq<bv8>>)
      requires Valid() && total < WORD64 && NameOk(name) && |TypeOf(guid)| == 16
      modifies this
      ensures Valid()
      ensures total < 68 ==> data == old(data)
      ensures total >= 68 ==>
                && data == Installed(old(data), total, name, TypeOf(guid))
                && Field(Get(data, 0, SECTOR), 510, 2) == 0xAA55 && EntryType(Get(data, 0, SECTOR), 0) == 0xEE
                && ParseGpt(data, 1) == Found(Expected(total, TypeOf(guid)))
                && ParseGpt(data, total - 1) == Found(Expected(total, TypeOf(guid)))
                && InstalledSays(data, total, name, TypeOf(guid))
    {
      hide Put, Checksum, EntryArray, MbrSector, HeaderSector, ParseGpt, Expected, Get, Field, EntryType,
        InstallWrites, TypeOf, InstalledSays;
      if total < 68 {
        return;
      }
      ghost var before := data;
      ghost var ws := InstallWrites(total, name, TypeOf(guid));
      InstallInside(total, name, TypeOf(guid));
      var full := FillArray(total, name, TypeOf(guid));
      var crc := Checksum(full);
      var sector := FillMbr(total);
      WriteSectors(0, sector);
      WriteSectors(2, full);
      WriteSectors(total - 33, full);
      sector := FillHeader(total, 1, total - 1, 2, crc);
      WriteSectors(1, sector);
      sector := BackupHeader(sector, total, crc);
      WriteSectors(total - 1, sector);
      FiveWrites(before, ws);
      InstallThenParse(before, total, name, TypeOf(guid));
    }
  }

  // ----- damage

  /** Changing any one byte of the partition array makes gpt_parse refuse it. */
  lemma DamagedArray(disk: seq<bv8>, lba: nat, k: nat, b: bv8)
    requires (lba + 1) * SECTOR <= |disk| && ParseGpt(disk, lba).Found?
    requires var h := Get(disk, lba * SECTOR, SECTOR);
             var at, bytes := Field(h, 72, 8) * SECTOR, Field(h, 80, 4) * Field(h, 84, 4) % WORD32;
             && at <= k < at + bytes && k < |disk| && disk[k] != b
             && (at + bytes <= lba * SECTOR || (lba + 1) * SECTOR <= at)
    ensures ParseGpt(disk[k := b], lba) == BadArray
  {
    hide Field, Entries, Checksum, Put, Zeros, Get;
    var d := disk[k := b];
    var h := Get(disk, lba * SECTOR, SECTOR);
    var num, size, at := Field(h, 80, 4), Field(h, 84, 4), Field(h, 72, 8);
    var bytes := num * size % WORD32;
    var sectors := (bytes + 511) % WORD32 / 512;
    GetUpdate(disk, k, b, lba * SECTOR, SECTOR);
    GetUpdate(disk, k, b, at * SECTOR, sectors * SECTOR);
    var a, i := Get(disk, at * SECTOR, sectors * SECTOR), k - at * SECTOR;
    assert a[i := b][..bytes] == a[..bytes][i := b];
    ChecksumDetects(a[..bytes], i, b);
  }

  lemma GetUpdate(disk: seq<bv8>, k: nat, b: bv8, off: nat, n: nat)
    requires k < |disk| && off + n <= |disk|
    ensures |Get(disk, off, n)| == n
    ensures off <= k < off + n ==>
              Get(disk, off, n)[k - off] == disk[k] && Get(disk[k := b], off, n) == Get(disk, off, n)[k - off := b]
    ensures !(off <= k < off + n) ==> Get(disk[k := b], off, n) == Get(disk, off, n)
  {
  }

  lemma ChecksumDetects(data: seq<bv8>, k: nat, b: bv8)
    requires k < |data| && b != data[k]
    ensures Checksum(data[k := b]) != Checksum(data)
  {
    hide Crc.Reference;
    Crc.DetectsByte(data, k, b);
    WordBack(Crc.Reference(data[k := b]));
    WordBack(Crc.Reference(data));
  }

  lemma WordBack(w: Crc.Word)
    ensures Crc.Word((w.v as nat) as bv32) == w
  {
  }
}
