/** The AVL tree of reserved intervals as a value: what each in-place operation
    of the tree does to its shape, and why the shape stays a balanced search
    tree over the same intervals. */
module AvlTree {
  import opened Intervals

  /** An intrusive tree node; `iv` is fixed once the node is in the tree. */
  class Node {
    const iv: Interval
    var left: Node?
    var right: Node?
    var height: nat
    var maxGap: nat
    var subStart: nat
    var subEnd: nat

    constructor (iv: Interval)
      ensures this.iv == iv && left == null && right == null
    {
      this.iv := iv;
      left, right := null, null;
      height, maxGap, subStart, subEnd := 0, 0, 0, 0;
    }
  }

  datatype Tree = Leaf | Bin(l: Tree, n: Node, r: Tree)

  ghost function Nodes(t: Tree): set<Node> {
    match t
    case Leaf => {}
    case Bin(l, n, r) => Nodes(l) + {n} + Nodes(r)
  }

  /** The intervals in key order. */
  ghost function Ivs(t: Tree): seq<Interval> {
    match t
    case Leaf => []
    case Bin(l, n, r) => Ivs(l) + [n.iv] + Ivs(r)
  }

  ghost function Height(t: Tree): nat {
    match t
    case Leaf => 0
    case Bin(l, _, r) => 1 + Max(Height(l), Height(r))
  }

  ghost function Balance(t: Tree): int {
    match t
    case Leaf => 0
    case Bin(l, _, r) => Height(l) - Height(r)
  }

  ghost predicate Balanced(t: Tree) {
    match t
    case Leaf => true
    case Bin(l, _, r) => Balanced(l) && Balanced(r) && -1 <= Balance(t) <= 1
  }

  /** No node occurs twice. */
  ghost predicate Distinct(t: Tree) {
    match t
    case Leaf => true
    case Bin(l, n, r) =>
      Distinct(l) && Distinct(r) && n !in Nodes(l) && n !in Nodes(r) && Nodes(l) !! Nodes(r)
  }

  // ----- the operations

  ghost function RotateRight(t: Tree): Tree
    requires t.Bin? && t.l.Bin?
  {
    Bin(t.l.l, t.l.n, Bin(t.l.r, t.n, t.r))
  }

  ghost function RotateLeft(t: Tree): Tree
    requires t.Bin? && t.r.Bin?
  {
    Bin(Bin(t.l, t.n, t.r.l), t.r.n, t.r.r)
  }

  ghost function Rebalance(t: Tree): Tree
    requires t.Bin?
  {
    if Balance(t) > 1 then
      RotateRight(if Balance(t.l) < 0 then Bin(RotateLeft(t.l), t.n, t.r) else t)
    else if Balance(t) < -1 then
      RotateLeft(if Balance(t.r) > 0 then Bin(t.l, t.n, RotateRight(t.r)) else t)
    else t
  }

  ghost function Insert(t: Tree, x: Node): Tree {
    match t
    case Leaf => Bin(Leaf, x, Leaf)
    case Bin(l, n, r) =>
      if x.iv.start < n.iv.start then Rebalance(Bin(Insert(l, x), n, r))
      else if x.iv.start > n.iv.start then Rebalance(Bin(l, n, Insert(r, x)))
      else t
  }

  ghost function Leftmost(t: Tree): Node
    requires t.Bin?
  {
    if t.l.Leaf? then t.n else Leftmost(t.l)
  }

  ghost function UnlinkLeftmost(t: Tree): Tree
    requires t.Bin?
  {
    if t.l.Leaf? then t.r else Rebalance(Bin(UnlinkLeftmost(t.l), t.n, t.r))
  }

  ghost function DeleteRoot(t: Tree): Tree
    requires t.Bin?
  {
    if t.l.Leaf? then t.r
    else if t.r.Leaf? then t.l
    else Rebalance(Bin(t.l, Leftmost(t.r), UnlinkLeftmost(t.r)))
  }

  ghost function Delete(t: Tree, key: nat): Tree {
    match t
    case Leaf => Leaf
    case Bin(l, n, r) =>
      if key < n.iv.start then Rebalance(Bin(Delete(l, key), n, r))
      else if key > n.iv.start then Rebalance(Bin(l, n, Delete(r, key)))
      else DeleteRoot(t)
  }

  // ----- rebalancing

  /** A rotation keeps the order, the nodes and their distinctness. */
  lemma RebalanceKeeps(t: Tree)
    requires t.Bin?
    ensures Rebalance(t).Bin?
    ensures Ivs(Rebalance(t)) == Ivs(t)
    ensures Nodes(Rebalance(t)) == Nodes(t)
    ensures Distinct(t) ==> Distinct(Rebalance(t))
  {
    if Balance(t) > 1 {
      if Balance(t.l) < 0 {
        RotateLeftKeeps(t.l);
        var u := Bin(RotateLeft(t.l), t.n, t.r);
        RotateRightKeeps(u);
      } else {
        RotateRightKeeps(t);
      }
    } else if Balance(t) < -1 {
      if Balance(t.r) > 0 {
        RotateRightKeeps(t.r);
        var u := Bin(t.l, t.n, RotateRight(t.r));
        RotateLeftKeeps(u);
      } else {
        RotateLeftKeeps(t);
      }
    }
  }

  lemma RotateRightKeeps(t: Tree)
    requires t.Bin? && t.l.Bin?
    ensures Ivs(RotateRight(t)) == Ivs(t)
    ensures Nodes(RotateRight(t)) == Nodes(t)
    ensures Distinct(t) ==> Distinct(RotateRight(t))
  {
    RotationKeeps(t.l.l, t.l.n, t.l.r, t.n, t.r);
  }

  lemma RotateLeftKeeps(t: Tree)
    requires t.Bin? && t.r.Bin?
    ensures Ivs(RotateLeft(t)) == Ivs(t)
    ensures Nodes(RotateLeft(t)) == Nodes(t)
    ensures Distinct(t) ==> Distinct(RotateLeft(t))
  {
    RotationKeeps(t.l, t.n, t.r.l, t.r.n, t.r.r);
  }

  /** Both sides of a rotation read the same. */
  lemma RotationKeeps(a: Tree, x: Node, b: Tree, y: Node, c: Tree)
    ensures Ivs(Bin(Bin(a, x, b), y, c)) == Ivs(Bin(a, x, Bin(b, y, c)))
    ensures Nodes(Bin(Bin(a, x, b), y, c)) == Nodes(Bin(a, x, Bin(b, y, c)))
    ensures Distinct(Bin(Bin(a, x, b), y, c)) <==> Distinct(Bin(a, x, Bin(b, y, c)))
  {
    RotationOrder(a, x, b, y, c);
    hide Ivs;
    var A, B, C := Nodes(a), Nodes(b), Nodes(c);
    assert Nodes(Bin(a, x, b)) == A + {x} + B && Nodes(Bin(b, y, c)) == B + {y} + C;
    assert Distinct(Bin(a, x, b)) <==> Distinct(a) && Distinct(b) && x !in A && x !in B && A !! B;
    assert Distinct(Bin(b, y, c)) <==> Distinct(b) && Distinct(c) && y !in B && y !in C && B !! C;
  }

  lemma RotationOrder(a: Tree, x: Node, b: Tree, y: Node, c: Tree)
    ensures Ivs(Bin(Bin(a, x, b), y, c)) == Ivs(Bin(a, x, Bin(b, y, c)))
  {
    assert Ivs(Bin(a, x, b)) == Ivs(a) + [x.iv] + Ivs(b);
    assert Ivs(Bin(b, y, c)) == Ivs(b) + [y.iv] + Ivs(c);
  }

  /** One rebalancing step repairs an imbalance of two. */
  lemma RebalanceBalances(t: Tree)
    requires t.Bin? && Balanced(t.l) && Balanced(t.r) && -2 <= Balance(t) <= 2
    ensures Balanced(Rebalance(t))
    ensures Height(t) - 1 <= Height(Rebalance(t)) <= Height(t)
    ensures -1 <= Balance(t) <= 1 ==> Rebalance(t) == t
  {
    if Balance(t) > 1 {
      LeftHeavy(t.l, t.n, t.r);
    } else if Balance(t) < -1 {
      RightHeavy(t.l, t.n, t.r);
    }
  }

  lemma LeftHeavy(l: Tree, n: Node, r: Tree)
    requires Balanced(l) && Balanced(r) && Height(l) == Height(r) + 2
    ensures var t := Bin(l, n, r);
            Balanced(Rebalance(t)) && Height(t) - 1 <= Height(Rebalance(t)) <= Height(t)
  {
    hide Nodes, Ivs;
    var t, a, b := Bin(l, n, r), l.l, l.r;
    var h := Height(r);
    assert Balanced(a) && Balanced(b);
    if Balance(l) < 0 {
      assert Height(a) == h && Height(b) == h + 1;
      assert Balanced(b.l) && Balanced(b.r);
      var u, v := Bin(a, l.n, b.l), Bin(b.r, n, r);
      assert Rebalance(t) == Bin(u, b.n, v);
      assert Height(u) == h + 1 && Height(v) == h + 1 && Balanced(u) && Balanced(v);
    } else {
      var v := Bin(b, n, r);
      assert Rebalance(t) == Bin(a, l.n, v);
      assert Balanced(v);
    }
  }

  lemma RightHeavy(l: Tree, n: Node, r: Tree)
    requires Balanced(l) && Balanced(r) && Height(r) == Height(l) + 2
    ensures var t := Bin(l, n, r);
            Balanced(Rebalance(t)) && Height(t) - 1 <= Height(Rebalance(t)) <= Height(t)
  {
    hide Nodes, Ivs;
    var t, a, b := Bin(l, n, r), r.l, r.r;
    var h := Height(l);
    assert Balanced(a) && Balanced(b);
    if Balance(r) > 0 {
      assert Height(b) == h && Height(a) == h + 1;
      assert Balanced(a.l) && Balanced(a.r);
      var u, v := Bin(l, n, a.l), Bin(a.r, r.n, b);
      assert Rebalance(t) == Bin(u, a.n, v);
      assert Height(u) == h + 1 && Height(v) == h + 1 && Balanced(u) && Balanced(v);
    } else {
      var u := Bin(l, n, a);
      assert Rebalance(t) == Bin(u, r.n, b);
      assert Balanced(u);
    }
  }

  // ----- insertion and deletion

  lemma StartsBelow(l: Tree, n: Node, r: Tree)
    requires Ordered(Ivs(Bin(l, n, r)))
    ensures Ordered(Ivs(l)) && Ordered(Ivs(r))
    ensures forall i :: 0 <= i < |Ivs(l)| ==> End(Ivs(l)[i]) <= n.iv.start && Ivs(l)[i].start < n.iv.start
    ensures forall i :: 0 <= i < |Ivs(r)| ==> End(n.iv) <= Ivs(r)[i].start
    ensures n.iv.pages >= 1
  {
    OrderedParts(Ivs(l), n.iv, Ivs(r));
  }

  lemma OrderedParts(a: seq<Interval>, m: Interval, b: seq<Interval>)
    requires Ordered(a + [m] + b)
    ensures Ordered(a) && Ordered(b) && m.pages >= 1
    ensures forall i :: 0 <= i < |a| ==> End(a[i]) <= m.start && a[i].start < m.start
    ensures forall i :: 0 <= i < |b| ==> End(m) <= b[i].start
  {
    var s := a + [m] + b;
    assert s[|a|] == m;
    assert forall i :: 0 <= i < |a| ==> a[i] == s[i];
    assert forall i :: 0 <= i < |b| ==> b[i] == s[|a| + 1 + i];
  }

  lemma KeyParts(a: seq<Interval>, m: Interval, b: seq<Interval>, key: nat)
    requires !HasKey(a + [m] + b, key)
    ensures !HasKey(a, key) && !HasKey(b, key) && m.start != key
  {
    var s := a + [m] + b;
    assert forall i :: 0 <= i < |a| ==> a[i] == s[i];
    assert forall i :: 0 <= i < |b| ==> b[i] == s[|a| + 1 + i];
    assert s[|a|] == m;
  }

  lemma {:induction false} InsertOrder(t: Tree, x: Node)
    requires Ordered(Ivs(t)) && !HasKey(Ivs(t), x.iv.start)
    ensures Ivs(Insert(t, x)) == SeqInsert(Ivs(t), x.iv)
    decreases t
  {
    hide Nodes, Distinct;
    match t
    case Leaf =>
      assert SeqInsert([], x.iv) == [x.iv];
    case Bin(l, n, r) =>
      StartsBelow(l, n, r);
      KeyParts(Ivs(l), n.iv, Ivs(r), x.iv.start);
      hide Ordered, Rebalance, HasKey, SeqInsert;
      if x.iv.start < n.iv.start {
        InsertOrder(l, x);
        InsertLeft(Ivs(l), n.iv, Ivs(r), x.iv);
        RebalanceKeeps(Bin(Insert(l, x), n, r));
      } else {
        InsertOrder(r, x);
        InsertRight(Ivs(l), n.iv, Ivs(r), x.iv);
        RebalanceKeeps(Bin(l, n, Insert(r, x)));
      }
  }

  /** An insertion adds the new node, or nothing when its key is taken. */
  lemma {:induction false} InsertNodes(t: Tree, x: Node)
    requires Distinct(t) && x !in Nodes(t)
    ensures Nodes(Insert(t, x)) == Nodes(t) + {x} || Nodes(Insert(t, x)) == Nodes(t)
    ensures Distinct(Insert(t, x))
    decreases t
  {
    hide Rebalance, Ivs;
    match t
    case Leaf =>
    case Bin(l, n, r) =>
      if x.iv.start < n.iv.start {
        InsertNodes(l, x);
        RebalanceKeeps(Bin(Insert(l, x), n, r));
      } else if x.iv.start > n.iv.start {
        InsertNodes(r, x);
        RebalanceKeeps(Bin(l, n, Insert(r, x)));
      }
  }

  lemma {:induction false} InsertBalanced(t: Tree, x: Node)
    requires Balanced(t)
    ensures Balanced(Insert(t, x))
    ensures Height(t) <= Height(Insert(t, x)) <= Height(t) + 1
    decreases t
  {
    hide Nodes, Ivs, Rebalance;
    match t
    case Leaf =>
    case Bin(l, n, r) =>
      if x.iv.start < n.iv.start {
        InsertBalanced(l, x);
        RebalanceBalances(Bin(Insert(l, x), n, r));
      } else if x.iv.start > n.iv.start {
        InsertBalanced(r, x);
        RebalanceBalances(Bin(l, n, Insert(r, x)));
      }
  }

  lemma {:induction false} UnlinkOrder(t: Tree)
    requires t.Bin?
    ensures Ivs(t) == [Leftmost(t).iv] + Ivs(UnlinkLeftmost(t))
    ensures Leftmost(t) in Nodes(t)
    ensures Nodes(t) == {Leftmost(t)} + Nodes(UnlinkLeftmost(t))
    ensures Distinct(t) ==> Distinct(UnlinkLeftmost(t)) && Leftmost(t) !in Nodes(UnlinkLeftmost(t))
    decreases t
  {
    hide Rebalance;
    if t.l.Bin? {
      UnlinkOrder(t.l);
      RebalanceKeeps(Bin(UnlinkLeftmost(t.l), t.n, t.r));
    }
  }

  lemma {:induction false} UnlinkBalanced(t: Tree)
    requires t.Bin? && Balanced(t)
    ensures Balanced(UnlinkLeftmost(t))
    ensures Height(t) - 1 <= Height(UnlinkLeftmost(t)) <= Height(t)
    decreases t
  {
    hide Nodes, Ivs, Rebalance;
    if t.l.Bin? {
      UnlinkBalanced(t.l);
      RebalanceBalances(Bin(UnlinkLeftmost(t.l), t.n, t.r));
    }
  }

  lemma DeleteRootOrder(t: Tree)
    requires t.Bin?
    ensures Ivs(DeleteRoot(t)) == Ivs(t.l) + Ivs(t.r)
  {
    hide Rebalance, Leftmost, UnlinkLeftmost, Nodes, Distinct;
    if t.l.Bin? && t.r.Bin? {
      UnlinkOrder(t.r);
      var u := Bin(t.l, Leftmost(t.r), UnlinkLeftmost(t.r));
      RebalanceKeeps(u);
      var a, m, b := Ivs(t.l), Leftmost(t.r).iv, Ivs(UnlinkLeftmost(t.r));
      assert Ivs(u) == a + [m] + b;
      assert a + [m] + b == a + ([m] + b);
    }
  }

  lemma DeleteRootNodes(t: Tree)
    requires t.Bin?
    ensures Nodes(DeleteRoot(t)) == Nodes(t.l) + Nodes(t.r)
    ensures Distinct(t) ==> Distinct(DeleteRoot(t))
  {
    hide Rebalance, Leftmost, UnlinkLeftmost, Ivs;
    if t.l.Bin? && t.r.Bin? {
      UnlinkOrder(t.r);
      var m, v := Leftmost(t.r), UnlinkLeftmost(t.r);
      var u := Bin(t.l, m, v);
      RebalanceKeeps(u);
      assert Nodes(u) == Nodes(t.l) + {m} + Nodes(v);
      assert Distinct(u) <==>
          Distinct(t.l) && Distinct(v) && m !in Nodes(t.l) && m !in Nodes(v) && Nodes(t.l) !! Nodes(v);
      hide Nodes;
    }
  }

  lemma {:induction false} DeleteOrder(t: Tree, key: nat)
    requires Ordered(Ivs(t))
    ensures Ivs(Delete(t, key)) == SeqRemove(Ivs(t), key)
    decreases t
  {
    hide Nodes, Distinct;
    match t
    case Leaf =>
    case Bin(l, n, r) =>
      StartsBelow(l, n, r);
      hide Ordered, Rebalance, SeqRemove, DeleteRoot;
      if key < n.iv.start {
        DeleteOrder(l, key);
        RemoveLeft(Ivs(l), n.iv, Ivs(r), key);
        RebalanceKeeps(Bin(Delete(l, key), n, r));
      } else if key > n.iv.start {
        DeleteOrder(r, key);
        RemoveRight(Ivs(l), n.iv, Ivs(r), key);
        RebalanceKeeps(Bin(l, n, Delete(r, key)));
      } else {
        DeleteRootOrder(t);
        RemoveMiddle(Ivs(l), n.iv, Ivs(r));
      }
  }

  /** The node a deletion takes out, or null. */
  ghost function Find(t: Tree, key: nat): Node? {
    match t
    case Leaf => null
    case Bin(l, n, r) =>
      if key < n.iv.start then Find(l, key) else if key > n.iv.start then Find(r, key) else n
  }

  lemma {:induction false} DeleteNodes(t: Tree, key: nat)
    requires Distinct(t)
    ensures Distinct(Delete(t, key))
    ensures Find(t, key) == null ==> Nodes(Delete(t, key)) == Nodes(t)
    ensures var f := Find(t, key);
            f != null ==> f in Nodes(t) && Nodes(Delete(t, key)) == Nodes(t) - {f}
    decreases t
  {
    hide Rebalance, Ivs, DeleteRoot;
    match t
    case Leaf =>
    case Bin(l, n, r) =>
      if key < n.iv.start {
        DeleteNodes(l, key);
        RebalanceKeeps(Bin(Delete(l, key), n, r));
      } else if key > n.iv.start {
        DeleteNodes(r, key);
        RebalanceKeeps(Bin(l, n, Delete(r, key)));
      } else {
        DeleteRootNodes(t);
      }
  }

  /** The search finds the interval with the key, if there is one. */
  lemma {:induction false} FindMeaning(t: Tree, key: nat)
    requires Ordered(Ivs(t))
    ensures var s, k, f := Ivs(t), Rank(Ivs(t), key), Find(t, key);
            if f == null then !HasKey(s, key)
            else k < |s| && s[k] == f.iv && f.iv.start == key
    decreases t
  {
    match t
    case Leaf =>
    case Bin(l, n, r) =>
      StartsBelow(l, n, r);
      var a, b, s := Ivs(l), Ivs(r), Ivs(t);
      if key < n.iv.start {
        FindMeaning(l, key);
        RankLeft(a, n.iv, b, key);
      } else if key > n.iv.start {
        FindMeaning(r, key);
        RankRight(a, n.iv, b, key);
      } else {
        RankLeft(a, n.iv, b, key);
        RankAll(a, key);
      }
      if Find(t, key) == null {
        NoKeyJoin(a, n.iv, b, key);
      }
  }

  lemma NoKeyJoin(a: seq<Interval>, m: Interval, b: seq<Interval>, key: nat)
    requires m.start != key
    requires m.start < key ==> !HasKey(b, key) && forall i :: 0 <= i < |a| ==> a[i].start < key
    requires key < m.start ==> !HasKey(a, key) && forall i :: 0 <= i < |b| ==> key < b[i].start
    ensures !HasKey(a + [m] + b, key)
  {
  }

  lemma {:induction false} DeleteBalanced(t: Tree, key: nat)
    requires Balanced(t)
    ensures Balanced(Delete(t, key))
    ensures Height(t) - 1 <= Height(Delete(t, key)) <= Height(t)
    decreases t
  {
    hide Nodes, Ivs, Rebalance;
    match t
    case Leaf =>
    case Bin(l, n, r) =>
      if key < n.iv.start {
        DeleteBalanced(l, key);
        RebalanceBalances(Bin(Delete(l, key), n, r));
      } else if key > n.iv.start {
        DeleteBalanced(r, key);
        RebalanceBalances(Bin(l, n, Delete(r, key)));
      } else if l.Bin? && r.Bin? {
        UnlinkBalanced(r);
        RebalanceBalances(Bin(l, Leftmost(r), UnlinkLeftmost(r)));
      }
  }

  // ----- the augmented fields

  ghost function SubStart(t: Tree): nat
    requires t.Bin?
  {
    if t.l.Bin? then SubStart(t.l) else t.n.iv.start
  }

  ghost function SubEnd(t: Tree): nat
    requires t.Bin?
  {
    if t.r.Bin? then Max(SubEnd(t.r), End(t.n.iv)) else End(t.n.iv)
  }

  /** The holes next to the root, in pages. */
  ghost function GapBefore(t: Tree): nat
    requires t.Bin?
  {
    if t.l.Bin? && t.n.iv.start >= SubEnd(t.l) then (t.n.iv.start - SubEnd(t.l)) / PAGE_SIZE else 0
  }

  ghost function GapAfter(t: Tree): nat
    requires t.Bin?
  {
    if t.r.Bin? && SubStart(t.r) >= End(t.n.iv) then (SubStart(t.r) - End(t.n.iv)) / PAGE_SIZE else 0
  }

  ghost function MaxGap(t: Tree): nat {
    match t
    case Leaf => 0
    case Bin(l, _, r) => Max(Max(MaxGap(l), MaxGap(r)), Max(GapBefore(t), GapAfter(t)))
  }

  lemma {:induction false} BoundsMeaning(t: Tree)
    requires t.Bin? && Ordered(Ivs(t))
    ensures var s := Ivs(t);
            s != [] && SubStart(t) == s[0].start && SubEnd(t) == End(s[|s| - 1])
    decreases t
  {
    StartsBelow(t.l, t.n, t.r);
    hide Ordered;
    if t.l.Bin? { BoundsMeaning(t.l); }
    if t.r.Bin? { BoundsMeaning(t.r); }
  }

  /** The fields mean what they say about the subtree's intervals. */
  lemma {:induction false} FieldsMeaning(t: Tree)
    requires t.Bin? && Ordered(Ivs(t))
    ensures var s := Ivs(t);
            && s != []
            && SubStart(t) == s[0].start
            && SubEnd(t) == End(s[|s| - 1])
            && MaxGap(t) == LargestGap(s)
    decreases t
  {
    var l, n, r := t.l, t.n, t.r;
    BoundsMeaning(t);
    StartsBelow(l, n, r);
    if l.Bin? { FieldsMeaning(l); }
    if r.Bin? { FieldsMeaning(r); }
    NoGaps();
    GapParts(Ivs(l), n.iv, Ivs(r));
    RootGaps(t);
    hide Ordered, LargestGap, SubStart, SubEnd, End, GapBefore, GapAfter;
  }

  /** The holes next to the root are gaps between neighbouring intervals. */
  lemma RootGaps(t: Tree)
    requires t.Bin? && Ordered(Ivs(t))
    ensures var a, b := Ivs(t.l), Ivs(t.r);
            && GapBefore(t) == (if a == [] then 0 else Gap(a[|a| - 1], t.n.iv))
            && GapAfter(t) == (if b == [] then 0 else Gap(t.n.iv, b[0]))
  {
    StartsBelow(t.l, t.n, t.r);
    hide Ordered, SubStart, SubEnd;
    if t.l.Bin? { BoundsMeaning(t.l); }
    if t.r.Bin? { BoundsMeaning(t.r); }
  }

  lemma NoGaps()
    ensures LargestGap([]) == 0
  {
  }

  lemma GapParts(a: seq<Interval>, m: Interval, b: seq<Interval>)
    ensures LargestGap(a + [m] + b) ==
              Max(Max(LargestGap(a), LargestGap(b)),
                  Max(if a == [] then 0 else Gap(a[|a| - 1], m), if b == [] then 0 else Gap(m, b[0])))
  {
    if b == [] {
      assert a + [m] + b == a + [m];
    } else {
      LargestGapConcat(a + [m], b);
      assert (a + [m])[|a + [m]| - 1] == m;
    }
    if a == [] {
      assert a + [m] == [m];
    } else {
      LargestGapConcat(a, [m]);
    }
  }
}
