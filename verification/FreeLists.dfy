/** The allocator's index over its free blocks: one doubly linked list per bin,
    ending in the sentinel, under a two-level bitmap of non-empty bins.

    Block headers live in the free pages themselves, so memory is a sequence of
    headers indexed by page frame number. Frame 0 is never handed out (the null
    page trap), and entry 0 stands for the zone's `block_null`. A bitmap word is
    the set of positions of its one bits. */
module FreeLists {
  import opened TlsfMapping

  datatype Option<T> = None | Some(value: T)

  datatype Header = Header(prev: nat, next: nat, size: nat, free: bool)

  const BLOCK_NULL: nat := 0

  // ----- words and bit scans

  function FfsFrom(w: set<nat>, i: nat): (r: int)
    requires i <= 64
    ensures r == -1 ==> forall j :: i <= j < 64 ==> j !in w
    ensures r != -1 ==> i <= r < 64 && r in w && forall j :: i <= j < r ==> j !in w
    decreases 64 - i
  {
    if i == 64 then -1 else if i in w then i else FfsFrom(w, i + 1)
  }

  /** Position of the lowest one bit, or -1. */
  function Ffs(w: set<nat>): (r: int)
    requires forall j :: j in w ==> j < 64
    ensures r == -1 <==> w == {}
    ensures r != -1 ==> r >= 0 && r in w && forall j :: j in w ==> r <= j
  {
    FfsFrom(w, 0)
  }

  /** `w & (~0 << i)` */
  function MaskFrom(w: set<nat>, i: nat): (r: set<nat>)
    ensures forall j :: j in r <==> j in w && j >= i
  {
    set j | j in w && j >= i
  }

  // ----- one linked list

  function At(l: seq<nat>, i: int): nat {
    if 0 <= i < |l| then l[i] else BLOCK_NULL
  }

  /** `l` is the list that starts at `head`, in both directions. */
  ghost predicate Linked(hdr: seq<Header>, l: seq<nat>, head: nat)
  {
    && (forall i :: 0 <= i < |l| ==> 0 < l[i] < |hdr|)
    && (forall i, j :: 0 <= i < j < |l| ==> l[i] != l[j])
    && head == At(l, 0)
    && (forall i {:trigger hdr[l[i]]} :: 0 <= i < |l| ==>
          hdr[l[i]].next == At(l, i + 1) && hdr[l[i]].prev == At(l, i - 1))
  }

  function Unlink(hdr: seq<Header>, b: nat): (r: seq<Header>)
    requires b < |hdr| && hdr[b].next < |hdr| && hdr[b].prev < |hdr|
    ensures |r| == |hdr|
  {
    var prev, next := hdr[b].prev, hdr[b].next;
    var h := hdr[next := hdr[next].(prev := prev)];
    h[prev := h[prev].(next := next)]
  }

  function PushFront(hdr: seq<Header>, b: nat, head: nat): (r: seq<Header>)
    requires b < |hdr| && head < |hdr|
    ensures |r| == |hdr|
  {
    var h := hdr[b := hdr[b].(next := head, prev := BLOCK_NULL)];
    h[head := h[head].(prev := b)]
  }

  function Without(l: seq<nat>, k: nat): seq<nat>
    requires k < |l|
  {
    l[..k] + l[k + 1..]
  }

  lemma UnlinkKeeps(hdr: seq<Header>, l: seq<nat>, head: nat, k: nat)
    requires |hdr| > 0 && Linked(hdr, l, head) && k < |l|
    ensures hdr[l[k]].next < |hdr| && hdr[l[k]].prev < |hdr|
    ensures head == l[k] <==> k == 0
    ensures Linked(Unlink(hdr, l[k]), Without(l, k), if k == 0 then hdr[l[k]].next else head)
    ensures hdr[l[k]].next == BLOCK_NULL && k == 0 <==> Without(l, k) == []
  {
    var l', hdr' := Without(l, k), Unlink(hdr, l[k]);
    forall i | 0 <= i < |l'|
      ensures 0 < l'[i] < |hdr'|
      ensures hdr'[l'[i]].next == At(l', i + 1) && hdr'[l'[i]].prev == At(l', i - 1)
    {
      UnlinkedEntry(hdr, l, head, k, i);
    }
  }

  lemma UnlinkedEntry(hdr: seq<Header>, l: seq<nat>, head: nat, k: nat, i: nat)
    requires |hdr| > 0 && Linked(hdr, l, head) && k < |l| && i < |l| - 1
    ensures hdr[l[k]].next < |hdr| && hdr[l[k]].prev < |hdr|
    ensures var l', hdr' := Without(l, k), Unlink(hdr, l[k]);
            && 0 < l'[i] < |hdr'|
            && hdr'[l'[i]].next == At(l', i + 1) && hdr'[l'[i]].prev == At(l', i - 1)
  {
    var j := if i < k then i else i + 1;
    assert Without(l, k)[i] == l[j];
  }

  lemma PushKeeps(hdr: seq<Header>, l: seq<nat>, head: nat, b: nat)
    requires |hdr| > 0 && Linked(hdr, l, head) && 0 < b < |hdr| && b !in l
    ensures head < |hdr|
    ensures Linked(PushFront(hdr, b, head), [b] + l, b)
  {
    var l', hdr' := [b] + l, PushFront(hdr, b, head);
    forall i | 0 <= i < |l'|
      ensures hdr'[l'[i]].next == At(l', i + 1) && hdr'[l'[i]].prev == At(l', i - 1)
    {
      assert i > 0 ==> l'[i] == l[i - 1];
    }
  }

  lemma LinkedFrame(hdr: seq<Header>, hdr': seq<Header>, l: seq<nat>, head: nat)
    requires Linked(hdr, l, head) && |hdr| == |hdr'|
    requires forall b :: b in l ==> hdr'[b].next == hdr[b].next && hdr'[b].prev == hdr[b].prev
    ensures Linked(hdr', l, head)
  {
    forall i | 0 <= i < |l|
      ensures hdr'[l[i]].next == At(l, i + 1) && hdr'[l[i]].prev == At(l, i - 1)
    {
      assert l[i] in l;
    }
  }

  // ----- all the lists

  type Lists = map<Bin, seq<nat>>

  ghost predicate AllLinked(heads: map<Bin, nat>, hdr: seq<Header>, lists: Lists)
  {
    forall b :: InTable(b) ==> b in heads && b in lists && Linked(hdr, lists[b], heads[b])
  }

  /** The lists hold the given blocks and nothing else, each block in the list
      of its own bin; `home` says which bin that is. */
  ghost predicate Members(lists: Lists, home: map<nat, Bin>)
  {
    && (forall b :: InTable(b) ==> b in lists)
    && (forall b, p :: InTable(b) && p in lists[b] ==> p in home && home[p] == b)
    && (forall p :: p in home ==> InTable(home[p]) && p in lists[home[p]])
  }

  ghost predicate ListsOk(heads: map<Bin, nat>, hdr: seq<Header>, lists: Lists, home: map<nat, Bin>)
  {
    && |hdr| > 0
    && AllLinked(heads, hdr, lists)
    && Members(lists, home)
    && (forall p :: p in home ==> 0 < p < |hdr|)
  }

  /** A second-level bit is set exactly when its list is non-empty, and a
      first-level bit exactly when its row has a second-level bit. */
  ghost predicate BitsOk(fl: set<nat>, sl: seq<set<nat>>, lists: Lists)
  {
    && |sl| == FL_COUNT
    && (forall b :: InTable(b) ==> b in lists && (b.sl in sl[b.fl] <==> lists[b] != []))
    && (forall f, s :: 0 <= f < FL_COUNT && s in sl[f] ==> s < SL_COUNT)
    && (forall f: nat :: f in fl <==> f < FL_COUNT && sl[f] != {})
  }

  lemma BitsCleared(fl: set<nat>, sl: seq<set<nat>>, lists: Lists, bin: Bin)
    requires BitsOk(fl, sl, lists) && InTable(bin)
    ensures var row := sl[bin.fl] - {bin.sl};
            BitsOk(if row == {} then fl - {bin.fl} else fl, sl[bin.fl := row], lists[bin := []])
  {
  }

  lemma BitsSet(fl: set<nat>, sl: seq<set<nat>>, lists: Lists, bin: Bin, l: seq<nat>)
    requires BitsOk(fl, sl, lists) && InTable(bin) && l != []
    ensures BitsOk(fl + {bin.fl}, sl[bin.fl := sl[bin.fl] + {bin.sl}], lists[bin := l])
    ensures lists[bin] != [] ==> BitsOk(fl, sl, lists[bin := l])
  {
  }

  ghost function IndexOf(l: seq<nat>, b: nat): (k: nat)
    requires b in l
    ensures k < |l| && l[k] == b
  {
    var k: nat :| k < |l| && l[k] == b;
    k
  }

  ghost function Drop(lists: Lists, bin: Bin, b: nat): Lists
    requires bin in lists && b in lists[bin]
  {
    lists[bin := Without(lists[bin], IndexOf(lists[bin], b))]
  }

  ghost predicate SameLinks(hdr: seq<Header>, hdr': seq<Header>, p: nat)
    requires |hdr| == |hdr'|
  {
    p < |hdr| ==> hdr'[p].next == hdr[p].next && hdr'[p].prev == hdr[p].prev
  }

  /** Relinking inside one bin leaves the other lists as they were. */
  lemma OneListChanged(heads: map<Bin, nat>, hdr: seq<Header>, hdr': seq<Header>, lists: Lists,
                       home: map<nat, Bin>, bin: Bin, l': seq<nat>, head': nat)
    requires |hdr| == |hdr'| && AllLinked(heads, hdr, lists) && Members(lists, home)
    requires forall p :: p in home && home[p] != bin ==> SameLinks(hdr, hdr', p)
    requires Linked(hdr', l', head')
    ensures AllLinked(heads[bin := head'], hdr', lists[bin := l'])
  {
    forall c | InTable(c) && c != bin
      ensures c in heads && Linked(hdr', lists[c], heads[c])
    {
      assert forall p :: p in lists[c] ==> SameLinks(hdr, hdr', p);
      LinkedFrame(hdr, hdr', lists[c], heads[c]);
    }
  }

  /** Taking block b off its list. */
  lemma RemoveKeeps(heads: map<Bin, nat>, hdr: seq<Header>, lists: Lists, home: map<nat, Bin>, b: nat)
    requires ListsOk(heads, hdr, lists, home) && b in home
    ensures hdr[b].next < |hdr| && hdr[b].prev < |hdr| && home[b] in heads
    ensures var bin := home[b];
            && ListsOk(heads[bin := if heads[bin] == b then hdr[b].next else heads[bin]],
                       Unlink(hdr, b), Drop(lists, bin, b), home - {b})
            && (Drop(lists, bin, b)[bin] == [] <==> heads[bin] == b && hdr[b].next == BLOCK_NULL)
  {
    var bin := home[b];
    var l, k := lists[bin], IndexOf(lists[bin], b);
    assert Linked(hdr, l, heads[bin]);
    UnlinkKeeps(hdr, l, heads[bin], k);
    UnlinkTouches(hdr, l, heads[bin], k);
    assert forall p :: p in home && home[p] != bin ==> p !in l;
    OneListChanged(heads, hdr, Unlink(hdr, b), lists, home, bin, Without(l, k),
                   if heads[bin] == b then hdr[b].next else heads[bin]);
    WithoutElements(l, k);
    MembersAfterRemove(lists, home, b);
  }

  lemma MembersAfterRemove(lists: Lists, home: map<nat, Bin>, b: nat)
    requires Members(lists, home) && b in home
    requires forall p :: p in Drop(lists, home[b], b)[home[b]] <==> p in lists[home[b]] && p != b
    ensures Members(Drop(lists, home[b], b), home - {b})
  {
  }

  lemma MembersAfterInsert(lists: Lists, home: map<nat, Bin>, b: nat, bin: Bin)
    requires Members(lists, home) && b !in home && InTable(bin)
    ensures Members(lists[bin := [b] + lists[bin]], home[b := bin])
  {
  }

  lemma UnlinkTouches(hdr: seq<Header>, l: seq<nat>, head: nat, k: nat)
    requires |hdr| > 0 && Linked(hdr, l, head) && k < |l|
    ensures hdr[l[k]].next < |hdr| && hdr[l[k]].prev < |hdr|
    ensures forall p :: p != BLOCK_NULL && p !in l ==> SameLinks(hdr, Unlink(hdr, l[k]), p)
  {
    assert hdr[l[k]].next != BLOCK_NULL ==> hdr[l[k]].next in l;
    assert hdr[l[k]].prev != BLOCK_NULL ==> hdr[l[k]].prev in l;
  }

  lemma WithoutElements(l: seq<nat>, k: nat)
    requires k < |l| && forall i, j :: 0 <= i < j < |l| ==> l[i] != l[j]
    ensures forall p :: p in Without(l, k) <==> p in l && p != l[k]
  {
    forall p | p in Without(l, k)
      ensures p in l && p != l[k]
    {
      var i := IndexOf(Without(l, k), p);
      assert p == l[if i < k then i else i + 1];
    }
    forall p | p in l && p != l[k]
      ensures p in Without(l, k)
    {
      var j := IndexOf(l, p);
      assert p == Without(l, k)[if j < k then j else j - 1];
    }
  }

  /** Putting a new block b in front of the list of its bin. */
  lemma InsertKeeps(heads: map<Bin, nat>, hdr: seq<Header>, lists: Lists, home: map<nat, Bin>, b: nat, bin: Bin)
    requires ListsOk(heads, hdr, lists, home) && b !in home
    requires 0 < b < |hdr| && InTable(bin)
    ensures bin in heads && heads[bin] < |hdr|
    ensures ListsOk(heads[bin := b], PushFront(hdr, b, heads[bin]), lists[bin := [b] + lists[bin]], home[b := bin])
  {
    var head := heads[bin];
    assert Linked(hdr, lists[bin], head);
    PushKeeps(hdr, lists[bin], head, b);
    assert head != BLOCK_NULL ==> head in lists[bin];
    assert forall p :: p in home && home[p] != bin ==> p !in lists[bin];
    assert forall p :: p in home && home[p] != bin ==> SameLinks(hdr, PushFront(hdr, b, head), p);
    OneListChanged(heads, hdr, PushFront(hdr, b, head), lists, home, bin, [b] + lists[bin], b);
    MembersAfterInsert(lists, home, b, bin);
  }

  /** Only the links of listed blocks matter. */
  lemma ListsFrame(heads: map<Bin, nat>, hdr: seq<Header>, hdr': seq<Header>, lists: Lists, home: map<nat, Bin>)
    requires ListsOk(heads, hdr, lists, home) && |hdr| == |hdr'|
    requires forall p :: p in home ==> hdr'[p].next == hdr[p].next && hdr'[p].prev == hdr[p].prev
    ensures ListsOk(heads, hdr', lists, home)
  {
    forall b | InTable(b)
      ensures b in heads && Linked(hdr', lists[b], heads[b])
    {
      assert forall p :: p in lists[b] ==> p in home;
      LinkedFrame(hdr, hdr', lists[b], heads[b]);
    }
  }

  // ----- the search

  /** The first non-empty bin at or after the wanted one, by two bit scans. */
  function SearchSuitable(fl: set<nat>, sl: seq<set<nat>>, want: Bin): Option<Bin>
    requires |sl| == FL_COUNT && want.fl < FL_COUNT
    requires forall f, s :: 0 <= f < FL_COUNT && s in sl[f] ==> s < SL_COUNT
    requires forall f: nat :: f in fl <==> f < FL_COUNT && sl[f] != {}
  {
    var slMap := MaskFrom(sl[want.fl], want.sl);
    if slMap == {} then
      var flMap := MaskFrom(fl, want.fl + 1);
      if flMap == {} then None
      else
        var f := Ffs(flMap);
        Some(Bin(f, Ffs(sl[f])))
    else
      Some(Bin(want.fl, Ffs(slMap)))
  }

  /** The head of the bin the search stops at, or the sentinel. */
  function Candidate(fl: set<nat>, sl: seq<set<nat>>, heads: map<Bin, nat>, want: Bin): nat
    requires |sl| == FL_COUNT
    requires forall f, s :: 0 <= f < FL_COUNT && s in sl[f] ==> s < SL_COUNT
    requires forall f: nat :: f in fl <==> f < FL_COUNT && sl[f] != {}
  {
    if want.fl < FL_COUNT then
      match SearchSuitable(fl, sl, want)
      case None => BLOCK_NULL
      case Some(b) => if b in heads then heads[b] else BLOCK_NULL
    else BLOCK_NULL
  }

  lemma HeadIsFirst(hdr: seq<Header>, l: seq<nat>, head: nat)
    requires Linked(hdr, l, head) && l != []
    ensures head == l[0] && head != BLOCK_NULL
  {
  }

  /** The bit scans agree with a search of the block set: the candidate is a
      block whose bin is the first one at or after the wanted bin that any
      block has, and there is no candidate exactly when every block is in an
      earlier bin. */
  lemma CandidateIsFirstFit(fl: set<nat>, sl: seq<set<nat>>, heads: map<Bin, nat>, hdr: seq<Header>,
                            lists: Lists, home: map<nat, Bin>, want: Bin)
    requires BitsOk(fl, sl, lists) && ListsOk(heads, hdr, lists, home)
    ensures var c := Candidate(fl, sl, heads, want);
            if c == BLOCK_NULL then
              forall p :: p in home ==> !BinLe(want, home[p])
            else
              && c in home && BinLe(want, home[c])
              && (forall p :: p in home && BinLe(want, home[p]) ==> BinLe(home[c], home[p]))
  {
    hide Linked;
    forall p | p in home
      ensures home[p].sl in sl[home[p].fl] && home[p].fl in fl
    {
      assert InTable(home[p]);
    }
    if want.fl < FL_COUNT {
      match SearchSuitable(fl, sl, want)
      case None =>
        assert forall p :: p in home && home[p].fl == want.fl ==> home[p].sl !in MaskFrom(sl[want.fl], want.sl);
        assert forall p :: p in home ==> home[p].fl !in MaskFrom(fl, want.fl + 1);
      case Some(b) =>
        assert InTable(b) && lists[b] != [];
        HeadIsFirst(hdr, lists[b], heads[b]);
    }
  }
}
