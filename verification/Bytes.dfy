/** Byte buffers: little-endian numbers, and writes at offsets. */
module Bytes {

  function Pow256(n: nat): (r: nat)
    ensures r > 0
  {
    if n == 0 then 1 else 256 * Pow256(n - 1)
  }

  /** The byte with a given value. */
  function ByteOf(a: nat): (r: bv8)
    requires a < 256
    ensures r as nat == a
  {
    if a == 0 then 0 else ByteOf(a - 1) + 1
  }

  /** A number in n bytes, the lowest first. */
  function Le(v: nat, n: nat): (s: seq<bv8>)
    ensures |s| == n
    decreases n
  {
    if n == 0 then [] else [ByteOf(v % 256)] + Le(v / 256, n - 1)
  }

  function FromLe(s: seq<bv8>): nat {
    if s == [] then 0 else s[0] as nat + 256 * FromLe(s[1..])
  }

  lemma {:induction false} LeRoundTrip(v: nat, n: nat)
    requires v < Pow256(n)
    ensures FromLe(Le(v, n)) == v
    decreases n
  {
    if n > 0 {
      LeRoundTrip(v / 256, n - 1);
      assert Le(v, n)[1..] == Le(v / 256, n - 1);
    }
  }

  lemma Powers()
    ensures Pow256(4) == 0x1_0000_0000 && Pow256(8) == 0x1_0000_0000_0000_0000
  {
    assert Pow256(2) == 0x1_0000;
    assert Pow256(6) == 0x1_0000_0000 * Pow256(2);
  }

  function Zeros(n: nat): (s: seq<bv8>)
    ensures |s| == n
  {
    seq(n, _ => 0)
  }

  /** The bytes at an offset. */
  function Get(buf: seq<bv8>, off: nat, n: nat): (r: seq<bv8>)
    requires off + n <= |buf|
    ensures |r| == n
  {
    buf[off..off + n]
  }

  function Put(buf: seq<bv8>, off: nat, s: seq<bv8>): (r: seq<bv8>)
    requires off + |s| <= |buf|
    ensures |r| == |buf|
  {
    buf[..off] + s + buf[off + |s|..]
  }

  lemma PutSame(buf: seq<bv8>, off: nat, s: seq<bv8>)
    requires off + |s| <= |buf|
    ensures Get(Put(buf, off, s), off, |s|) == s
  {
  }

  lemma PutElsewhere(buf: seq<bv8>, off: nat, s: seq<bv8>, o: nat, n: nat)
    requires off + |s| <= |buf| && o + n <= |buf| && (o + n <= off || off + |s| <= o)
    ensures Get(Put(buf, off, s), o, n) == Get(buf, o, n)
  {
  }

  /** Writing back what was there undoes a write. */
  lemma PutBack(buf: seq<bv8>, off: nat, s: seq<bv8>, t: seq<bv8>)
    requires off + |s| <= |buf| && |s| == |t| && Get(buf, off, |t|) == t
    ensures Put(Put(buf, off, s), off, t) == buf
  {
    var r := Put(Put(buf, off, s), off, t);
    assert buf == buf[..off] + Get(buf, off, |t|) + buf[off + |t|..];
    assert r == buf[..off] + t + buf[off + |t|..];
  }

  // ----- several writes

  datatype Write = Write(off: nat, bytes: seq<bv8>)

  predicate Inside(n: nat, ws: seq<Write>) {
    forall i :: 0 <= i < |ws| ==> ws[i].off + |ws[i].bytes| <= n
  }

  predicate Disjoint(w: Write, o: nat, n: nat) {
    o + n <= w.off || w.off + |w.bytes| <= o
  }

  predicate Spares(ws: seq<Write>, o: nat, n: nat) {
    forall i :: 0 <= i < |ws| ==> Disjoint(ws[i], o, n)
  }

  predicate Separate(ws: seq<Write>) {
    forall i, j :: 0 <= i < j < |ws| ==> Disjoint(ws[i], ws[j].off, |ws[j].bytes|)
  }

  function PutAll(buf: seq<bv8>, ws: seq<Write>): (r: seq<bv8>)
    requires Inside(|buf|, ws)
    ensures |r| == |buf|
  {
    if ws == [] then buf
    else Put(PutAll(buf, ws[..|ws| - 1]), ws[|ws| - 1].off, ws[|ws| - 1].bytes)
  }

  /** Separate writes are all read back, in whatever order they were made. */
  lemma {:induction false} PutAllSame(buf: seq<bv8>, ws: seq<Write>, i: nat)
    requires Inside(|buf|, ws) && Separate(ws) && i < |ws|
    ensures Get(PutAll(buf, ws), ws[i].off, |ws[i].bytes|) == ws[i].bytes
  {
    var n := |ws| - 1;
    var b := PutAll(buf, ws[..n]);
    if i == n {
      PutSame(b, ws[n].off, ws[n].bytes);
    } else {
      PutAllSame(buf, ws[..n], i);
      assert Disjoint(ws[i], ws[n].off, |ws[n].bytes|);
      PutElsewhere(b, ws[n].off, ws[n].bytes, ws[i].off, |ws[i].bytes|);
    }
  }

  lemma {:induction false} PutAllElsewhere(buf: seq<bv8>, ws: seq<Write>, o: nat, n: nat)
    requires Inside(|buf|, ws) && o + n <= |buf| && Spares(ws, o, n)
    ensures Get(PutAll(buf, ws), o, n) == Get(buf, o, n)
  {
    if ws != [] {
      var k := |ws| - 1;
      PutAllElsewhere(buf, ws[..k], o, n);
      PutElsewhere(PutAll(buf, ws[..k]), ws[k].off, ws[k].bytes, o, n);
    }
  }

  /** One more write. */
  lemma PutAllMore(buf: seq<bv8>, ws: seq<Write>, w: Write)
    requires Inside(|buf|, ws) && w.off + |w.bytes| <= |buf|
    ensures Inside(|buf|, ws + [w]) && PutAll(buf, ws + [w]) == Put(PutAll(buf, ws), w.off, w.bytes)
  {
    assert (ws + [w])[..|ws|] == ws;
  }

  lemma PutAppend(buf: seq<bv8>, off: nat, s: seq<bv8>, t: seq<bv8>)
    requires off + |s| + |t| <= |buf|
    ensures Put(Put(buf, off, s), off + |s|, t) == Put(buf, off, s + t)
  {
  }

  lemma PutTwice(buf: seq<bv8>, off: nat, s: seq<bv8>, t: seq<bv8>)
    requires off + |s| <= |buf| && |s| == |t|
    ensures Put(Put(buf, off, s), off, t) == Put(buf, off, t)
  {
  }

  lemma PutCommutes(buf: seq<bv8>, a: Write, b: Write)
    requires a.off + |a.bytes| <= |buf| && b.off + |b.bytes| <= |buf| && Disjoint(a, b.off, |b.bytes|)
    ensures Put(Put(buf, a.off, a.bytes), b.off, b.bytes) == Put(Put(buf, b.off, b.bytes), a.off, a.bytes)
  {
  }

  /** A write elsewhere may as well come first. */
  lemma {:induction false} PutFirst(buf: seq<bv8>, ws: seq<Write>, w: Write)
    requires Inside(|buf|, ws) && w.off + |w.bytes| <= |buf| && Spares(ws, w.off, |w.bytes|)
    ensures Put(PutAll(buf, ws), w.off, w.bytes) == PutAll(Put(buf, w.off, w.bytes), ws)
  {
    if ws != [] {
      var n := |ws| - 1;
      PutFirst(buf, ws[..n], w);
      PutCommutes(PutAll(buf, ws[..n]), ws[n], w);
    }
  }

  /** Overwriting one of several separate writes replaces it. */
  lemma {:induction false} Overwrite(buf: seq<bv8>, ws: seq<Write>, i: nat, t: seq<bv8>)
    requires Inside(|buf|, ws) && Separate(ws) && i < |ws| && |t| == |ws[i].bytes|
    ensures var vs := ws[i := Write(ws[i].off, t)];
            Inside(|buf|, vs) && Put(PutAll(buf, ws), ws[i].off, t) == PutAll(buf, vs)
  {
    var n := |ws| - 1;
    var vs := ws[i := Write(ws[i].off, t)];
    if i == n {
      PutTwice(PutAll(buf, ws[..n]), ws[n].off, ws[n].bytes, t);
      assert vs[..n] == ws[..n];
    } else {
      Overwrite(buf, ws[..n], i, t);
      assert vs[..n] == ws[..n][i := Write(ws[i].off, t)];
      assert Disjoint(ws[i], ws[n].off, |ws[n].bytes|);
      PutCommutes(PutAll(buf, ws[..n]), ws[n], Write(ws[i].off, t));
    }
  }
}
