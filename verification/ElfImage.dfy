/** The segments of a program and an address space page by page: what the ELF
    loader is asked for, and where it works. */
module ElfImage {

  const PAGE: nat := 4096
  /** Pages of a 2 MB chunk. */
  const CHUNK: nat := 512

  /** A program header. */
  datatype Segment = Segment(load: bool, vaddr: nat, memsz: nat, filesz: nat, offset: nat, writable: bool,
                             executable: bool)

  /** What a 4 KB page of the address space is mapped to: its frame, the flags
      of its entry, and whether the entry is a huge one. */
  datatype Page = Page(frame: nat, writable: bool, executable: bool, user: bool, huge: bool)

  type Pages = map<nat, Page>

  type Ram = nat -> int

  /** The address space page by page, physical memory, the frames and 2 MB
      blocks the physical allocator will hand out, the frames that hold page
      tables, whom the program is loaded for, and how many frames the direct
      map reaches. */
  datatype Mem = Mem(pages: Pages, ram: Ram, frames: seq<nat>, blocks: seq<nat>, tables: set<nat>, user: bool,
                     reach: nat)

  function Min(a: nat, b: nat): nat {
    if a < b then a else b
  }

  // ----- the segment's pages

  function First(g: Segment): nat {
    g.vaddr / PAGE
  }

  function Last(g: Segment): nat {
    (g.vaddr + g.memsz + PAGE - 1) / PAGE
  }

  function HugeFirst(g: Segment): nat {
    (First(g) + CHUNK - 1) / CHUNK * CHUNK
  }

  function HugeLast(g: Segment): nat {
    Last(g) / CHUNK * CHUNK
  }

  predicate Owns(g: Segment, p: nat) {
    First(g) <= p < Last(g)
  }

  /** The pages the loader touches for a segment: its own, and when it ends
      inside the chunk it starts in, those of that chunk before it as well. */
  predicate Touches(g: Segment, p: nat) {
    Min(First(g), HugeLast(g)) <= p < Last(g)
  }

  /** The page lies in a whole chunk of the segment. */
  predicate Whole(g: Segment, p: nat) {
    HugeFirst(g) <= p < HugeLast(g)
  }

  /** The segment has a whole chunk and is not executable. */
  predicate Astray(g: Segment) {
    HugeFirst(g) < HugeLast(g) && !g.executable
  }

  predicate InChunk(c: nat, q: nat) {
    c <= q < c + CHUNK
  }

  // ----- memory

  function Zero(ram: Ram, at: nat, n: nat): Ram {
    (a: nat) => if at <= a < at + n then 0 else ram(a)
  }

  function Copied(ram: Ram, at: nat, src: seq<int>): Ram {
    (a: nat) => if at <= a < at + |src| then src[a - at] else ram(a)
  }

  function Zeros(n: nat): (s: seq<int>)
    ensures |s| == n
  {
    seq(n, _ => 0)
  }

  /** The file holds the segment's part. */
  predicate InFile(g: Segment, file: seq<int>) {
    g.offset + g.filesz <= |file|
  }

  /** What the program header asks for at an address. */
  function Content(g: Segment, file: seq<int>, va: nat): int
    requires InFile(g, file) && g.vaddr <= va
  {
    if va - g.vaddr < g.filesz then file[g.offset + (va - g.vaddr)] else 0
  }

  // ----- whole programs

  predicate Proper(g: Segment) {
    g.memsz >= 1 && g.filesz <= g.memsz
  }

  /** The segments share no page. */
  ghost predicate Disjoint(d: Segment, g: Segment) {
    forall q :: !(Owns(d, q) && Owns(g, q))
  }

  /** The segments that are loaded. */
  function Loads(gs: seq<Segment>): seq<Segment> {
    if gs == [] then [] else (if gs[0].load then [gs[0]] else []) + Loads(gs[1..])
  }

  /** The loadable segments are proper, page-disjoint and below a page. */
  ghost predicate Separate(gs: seq<Segment>, low: nat) {
    && (forall i :: 0 <= i < |gs| && gs[i].load ==> Proper(gs[i]) && Last(gs[i]) <= low)
    && (forall i, j :: 0 <= i < j < |gs| && gs[i].load && gs[j].load ==> Disjoint(gs[i], gs[j]))
  }
}
