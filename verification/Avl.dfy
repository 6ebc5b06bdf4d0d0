/** The in-place AVL operations: relinking and rewriting node fields realises
    exactly the tree operations of module AvlTree. */
module Avl {
  import opened Intervals
  import opened AvlTree
  import T = AvlTree

  ghost predicate FieldsOk(n: Node, t: Tree)
    reads n
    requires t.Bin?
  {
    && n.height == Height(t) && n.maxGap == MaxGap(t)
    && n.subStart == SubStart(t) && n.subEnd == SubEnd(t)
  }

  /** The nodes reachable from n form the tree t, with every field up to date. */
  ghost predicate Rep(n: Node?, t: Tree)
    reads Nodes(t)
    decreases t
  {
    match t
    case Leaf => n == null
    case Bin(l, m, r) => n == m && Rep(m.left, l) && Rep(m.right, r) && FieldsOk(m, t)
  }

  /** The same, except that the root's own fields may be out of date. */
  ghost predicate Stale(n: Node, t: Tree)
    reads Nodes(t)
  {
    t.Bin? && n == t.n && Rep(n.left, t.l) && Rep(n.right, t.r)
  }

  function HeightOf(n: Node?): nat
    reads n
  {
    if n == null then 0 else n.height
  }

  function BalanceOf(n: Node?): int
    reads n, if n == null then {} else {n.left, n.right}
  {
    if n == null then 0 else HeightOf(n.left) - HeightOf(n.right)
  }

  method UpdateNode(n: Node, ghost t: Tree)
    requires Stale(n, t) && Distinct(t)
    modifies n`height, n`maxGap, n`subStart, n`subEnd
    ensures Rep(n, t)
  {
    var lh, rh := HeightOf(n.left), HeightOf(n.right);
    n.height := 1 + if lh > rh then lh else rh;
    VmmUpdate(n, t);
  }

  /** The update callback of the virtual allocator. */
  method VmmUpdate(n: Node, ghost t: Tree)
    requires Stale(n, t) && Distinct(t)
    modifies n`maxGap, n`subStart, n`subEnd
    ensures Stale(n, t)
    ensures n.maxGap == MaxGap(t) && n.subStart == SubStart(t) && n.subEnd == SubEnd(t)
  {
    var l, r, nend := n.left, n.right, End(n.iv);
    Parts(t.l, n, t.r);
    assert l != null ==> l != n && l in Nodes(t.l) && FieldsOk(l, t.l);
    assert r != null ==> r != n && r in Nodes(t.r) && FieldsOk(r, t.r);
    assert MaxGap(t) == Max(Max(MaxGap(t.l), MaxGap(t.r)), Max(GapBefore(t), GapAfter(t)));
    hide Height, MaxGap, End, Max;
    if l != null {
      n.subStart := l.subStart;
    } else {
      n.subStart := n.iv.start;
    }
    if r != null {
      n.subEnd := Max(r.subEnd, nend);
    } else {
      n.subEnd := nend;
    }
    var gapL, gapR := 0, 0;
    if l != null && n.iv.start >= l.subEnd {
      gapL := (n.iv.start - l.subEnd) / PAGE_SIZE;
    }
    if r != null && r.subStart >= nend {
      gapR := (r.subStart - nend) / PAGE_SIZE;
    }
    assert gapL == GapBefore(t) && gapR == GapAfter(t);
    n.maxGap := Max(Max(GapOf(l), GapOf(r)), Max(gapL, gapR));
  }

  function GapOf(n: Node?): nat
    reads n
  {
    if n == null then 0 else n.maxGap
  }

  method LinkLeft(n: Node, c: Node?, ghost l: Tree, ghost r: Tree)
    requires Rep(c, l) && Rep(n.right, r) && Distinct(Bin(l, n, r))
    modifies n
    ensures Rep(n, Bin(l, n, r))
  {
    Parts(l, n, r);
    hide Rep;
    n.left := c;
    UpdateNode(n, Bin(l, n, r));
  }

  method LinkRight(n: Node, c: Node?, ghost l: Tree, ghost r: Tree)
    requires Rep(n.left, l) && Rep(c, r) && Distinct(Bin(l, n, r))
    modifies n
    ensures Rep(n, Bin(l, n, r))
  {
    Parts(l, n, r);
    hide Rep;
    n.right := c;
    UpdateNode(n, Bin(l, n, r));
  }

  method RotateRight(y: Node, ghost t: Tree) returns (x: Node)
    requires Stale(y, t) && Distinct(t) && t.l.Bin?
    modifies y, t.l.n
    ensures Rep(x, T.RotateRight(t))
  {
    hide Height, MaxGap, SubStart, SubEnd, Ivs, FieldsOk;
    x := y.left;
    ghost var a, b, c := t.l.l, t.l.r, t.r;
    ghost var lower := Bin(b, y, c);
    RotateRightKeeps(t);
    Parts(a, x, lower);
    Parts(b, y, c);
    var mid := x.right;
    assert Rep(x.left, a) && Rep(mid, b) && Rep(y.right, c);
    assert allocated(Nodes(a));
    hide Rep, Distinct;
    x.right := y;
    LinkLeft(y, mid, b, c);
    UpdateNode(x, Bin(a, x, lower));
  }

  method RotateLeft(x: Node, ghost t: Tree) returns (y: Node)
    requires Stale(x, t) && Distinct(t) && t.r.Bin?
    modifies x, t.r.n
    ensures Rep(y, T.RotateLeft(t))
  {
    hide Height, MaxGap, SubStart, SubEnd, Ivs, FieldsOk;
    y := x.right;
    ghost var a, b, c := t.l, t.r.l, t.r.r;
    ghost var lower := Bin(a, x, b);
    RotateLeftKeeps(t);
    Parts(lower, y, c);
    Parts(a, x, b);
    var mid := y.left;
    assert Rep(x.left, a) && Rep(mid, b) && Rep(y.right, c);
    assert allocated(Nodes(c));
    hide Rep, Distinct;
    y.left := x;
    LinkRight(x, mid, a, b);
    UpdateNode(y, Bin(lower, y, c));
  }

  method Rebalance(n: Node, ghost t: Tree) returns (m: Node)
    requires Stale(n, t) && Distinct(t)
    modifies Nodes(t)
    ensures Rep(m, T.Rebalance(t))
  {
    UpdateNode(n, t);
    HeightsMatch(n, t);
    hide MaxGap, SubStart, SubEnd, Height, Balance, Ivs;
    var bal := BalanceOf(n);
    if bal > 1 {
      m := LeftHeavy(n, t);
    } else if bal < -1 {
      m := RightHeavy(n, t);
    } else {
      m := n;
    }
  }

  method LeftHeavy(n: Node, ghost t: Tree) returns (m: Node)
    requires Rep(n, t) && t.Bin? && Distinct(t) && Balance(t) > 1
    modifies Nodes(t)
    ensures Rep(m, T.Rebalance(t))
  {
    hide MaxGap, SubStart, SubEnd, Height, Balance, Ivs, FieldsOk;
    HeightsMatch(n, t);
    Parts(t.l, n, t.r);
    assert Rep(n.left, t.l) && Rep(n.right, t.r);
    if BalanceOf(n.left) < 0 {
      RotateLeftKeeps(t.l);
      ghost var u := Bin(T.RotateLeft(t.l), n, t.r);
      assert Distinct(u) && Stale(n.left, t.l);
      assert allocated(Nodes(t.r));
      hide Rep;
      var l := RotateLeft(n.left, t.l);
      n.left := l;
      m := RotateRight(n, u);
    } else {
      m := RotateRight(n, t);
    }
  }

  method RightHeavy(n: Node, ghost t: Tree) returns (m: Node)
    requires Rep(n, t) && t.Bin? && Distinct(t) && Balance(t) < -1
    modifies Nodes(t)
    ensures Rep(m, T.Rebalance(t))
  {
    hide MaxGap, SubStart, SubEnd, Height, Balance, Ivs, FieldsOk;
    HeightsMatch(n, t);
    Parts(t.l, n, t.r);
    assert Rep(n.left, t.l) && Rep(n.right, t.r);
    if BalanceOf(n.right) > 0 {
      RotateRightKeeps(t.r);
      ghost var u := Bin(t.l, n, T.RotateRight(t.r));
      assert Distinct(u) && Stale(n.right, t.r);
      assert allocated(Nodes(t.l));
      hide Rep;
      var r := RotateRight(n.right, t.r);
      n.right := r;
      m := RotateLeft(n, u);
    } else {
      m := RotateLeft(n, t);
    }
  }

  /** Heights read from the fields are the heights of the tree. */
  lemma HeightsMatch(n: Node, t: Tree)
    requires Rep(n, t)
    ensures t.Bin?
    ensures BalanceOf(n) == Balance(t)
    ensures BalanceOf(n.left) == Balance(t.l) && BalanceOf(n.right) == Balance(t.r)
    ensures Balance(t) > 1 ==> t.l.Bin? && (Balance(t.l) < 0 ==> t.l.r.Bin?)
    ensures Balance(t) < -1 ==> t.r.Bin? && (Balance(t.r) > 0 ==> t.r.l.Bin?)
  {
    hide MaxGap, SubStart, SubEnd;
    assert Rep(n.left, t.l) && Rep(n.right, t.r);
  }

  /** Hang a new subtree under a node and rebalance there. */
  method SetLeft(root: Node, c: Node?, ghost l: Tree, ghost r: Tree) returns (m: Node)
    requires Rep(c, l) && Rep(root.right, r) && Distinct(Bin(l, root, r))
    modifies Nodes(l), root, Nodes(r)
    ensures Rep(m, T.Rebalance(Bin(l, root, r)))
  {
    Parts(l, root, r);
    hide Rep, T.Rebalance;
    root.left := c;
    m := Rebalance(root, Bin(l, root, r));
  }

  method SetRight(root: Node, c: Node?, ghost l: Tree, ghost r: Tree) returns (m: Node)
    requires Rep(root.left, l) && Rep(c, r) && Distinct(Bin(l, root, r))
    modifies Nodes(l), root, Nodes(r)
    ensures Rep(m, T.Rebalance(Bin(l, root, r)))
  {
    Parts(l, root, r);
    hide Rep, T.Rebalance;
    root.right := c;
    m := Rebalance(root, Bin(l, root, r));
  }

  method Insert(root: Node?, n: Node, ghost t: Tree) returns (r: Node)
    requires Rep(root, t) && Distinct(t) && n !in Nodes(t) && n.left == null && n.right == null
    modifies Nodes(t), n
    ensures Rep(r, T.Insert(t, n))
    decreases t
  {
    if root == null {
      UpdateNode(n, Bin(Leaf, n, Leaf));
      return n;
    }
    hide FieldsOk, T.Rebalance, Ivs;
    ghost var l, rt := t.l, t.r;
    Parts(l, root, rt);
    InsertUnfold(t, n);
    assert Rep(root.left, l) && Rep(root.right, rt);
    assert allocated(Nodes(l)) && allocated(Nodes(rt));
    hide T.Insert, Rep, Distinct;
    if n.iv.start < root.iv.start {
      var c := Insert(root.left, n, l);
      r := SetLeft(root, c, T.Insert(l, n), rt);
    } else if n.iv.start > root.iv.start {
      var c := Insert(root.right, n, rt);
      r := SetRight(root, c, l, T.Insert(rt, n));
    } else {
      r := root;
    }
  }

  lemma InsertUnfold(t: Tree, n: Node)
    requires t.Bin? && Distinct(t) && n !in Nodes(t)
    ensures if n.iv.start < t.n.iv.start then
              var l := T.Insert(t.l, n);
              && T.Insert(t, n) == T.Rebalance(Bin(l, t.n, t.r))
              && Nodes(l) <= Nodes(t.l) + {n} && Distinct(Bin(l, t.n, t.r))
            else if n.iv.start > t.n.iv.start then
              var r := T.Insert(t.r, n);
              && T.Insert(t, n) == T.Rebalance(Bin(t.l, t.n, r))
              && Nodes(r) <= Nodes(t.r) + {n} && Distinct(Bin(t.l, t.n, r))
            else
              T.Insert(t, n) == t
  {
    hide T.Rebalance, Ivs;
    InsertNodes(t.l, n);
    InsertNodes(t.r, n);
  }

  method UnlinkLeftmost(n: Node, ghost t: Tree) returns (r: Node?, out: Node)
    requires Rep(n, t) && Distinct(t)
    modifies Nodes(t)
    ensures t.Bin? && out == Leftmost(t)
    ensures Rep(r, T.UnlinkLeftmost(t))
    decreases t
  {
    if n.left == null {
      return n.right, n;
    }
    hide FieldsOk, T.Rebalance, Ivs;
    Parts(t.l, n, t.r);
    assert Rep(n.left, t.l) && Rep(n.right, t.r);
    assert allocated(Nodes(t.r));
    UnlinkOrder(t.l);
    ghost var l := T.UnlinkLeftmost(t.l);
    assert Distinct(Bin(l, n, t.r)) && Nodes(l) <= Nodes(t.l);
    hide Rep, Distinct;
    var c;
    c, out := UnlinkLeftmost(n.left, t.l);
    r := SetLeft(n, c, l, t.r);
  }

  /** Take out the root: its in-order successor is relinked in its place. */
  method DeleteRoot(root: Node, ghost t: Tree) returns (r: Node?)
    requires Rep(root, t) && Distinct(t) && t.Bin?
    modifies Nodes(t)
    ensures Rep(r, T.DeleteRoot(t))
  {
    if root.left == null {
      return root.right;
    }
    if root.right == null {
      return root.left;
    }
    hide FieldsOk, T.Rebalance, Ivs;
    Parts(t.l, root, t.r);
    assert Rep(root.left, t.l) && Rep(root.right, t.r);
    assert allocated(Nodes(t.l));
    UnlinkOrder(t.r);
    ghost var v := T.UnlinkLeftmost(t.r);
    assert Distinct(Bin(t.l, Leftmost(t.r), v)) && Nodes(v) <= Nodes(t.r);
    hide Rep, Distinct, Leftmost;
    var right, succ := UnlinkLeftmost(root.right, t.r);
    r := Graft(succ, root.left, right, t.l, v);
  }

  method Graft(n: Node, left: Node?, right: Node?, ghost l: Tree, ghost r: Tree) returns (m: Node)
    requires Rep(left, l) && Rep(right, r) && Distinct(Bin(l, n, r))
    modifies Nodes(l), n, Nodes(r)
    ensures Rep(m, T.Rebalance(Bin(l, n, r)))
  {
    Parts(l, n, r);
    hide Rep, T.Rebalance;
    n.left := left;
    n.right := right;
    m := Rebalance(n, Bin(l, n, r));
  }

  method Delete(root: Node?, key: nat, ghost t: Tree) returns (r: Node?, out: Node?)
    requires Rep(root, t) && Distinct(t)
    modifies Nodes(t)
    ensures Rep(r, T.Delete(t, key)) && out == T.Find(t, key)
    decreases t
  {
    if root == null {
      return null, null;
    }
    hide FieldsOk, T.Rebalance, Ivs, T.DeleteRoot;
    ghost var l, rt := t.l, t.r;
    Parts(l, root, rt);
    DeleteUnfold(t, key);
    assert Rep(root.left, l) && Rep(root.right, rt);
    assert allocated(Nodes(l)) && allocated(Nodes(rt));
    hide T.Delete, Rep, Distinct;
    if key < root.iv.start {
      var c;
      c, out := Delete(root.left, key, l);
      r := SetLeft(root, c, T.Delete(l, key), rt);
    } else if key > root.iv.start {
      var c;
      c, out := Delete(root.right, key, rt);
      r := SetRight(root, c, l, T.Delete(rt, key));
    } else {
      out := root;
      r := DeleteRoot(root, t);
    }
  }

  lemma DeleteUnfold(t: Tree, key: nat)
    requires t.Bin? && Distinct(t)
    ensures if key < t.n.iv.start then
              var l := T.Delete(t.l, key);
              && T.Delete(t, key) == T.Rebalance(Bin(l, t.n, t.r))
              && Nodes(l) <= Nodes(t.l) && Distinct(Bin(l, t.n, t.r))
            else if key > t.n.iv.start then
              var r := T.Delete(t.r, key);
              && T.Delete(t, key) == T.Rebalance(Bin(t.l, t.n, r))
              && Nodes(r) <= Nodes(t.r) && Distinct(Bin(t.l, t.n, r))
            else
              T.Delete(t, key) == T.DeleteRoot(t)
  {
    hide T.Rebalance, Ivs, T.DeleteRoot;
    DeleteNodes(t.l, key);
    DeleteNodes(t.r, key);
  }

  method Find(root: Node?, key: nat, ghost t: Tree) returns (n: Node?)
    requires Rep(root, t)
    ensures n == T.Find(t, key)
  {
    n := root;
    ghost var u := t;
    while n != null
      invariant Rep(n, u) && T.Find(u, key) == T.Find(t, key)
      decreases u
    {
      if key < n.iv.start {
        n, u := n.left, u.l;
      } else if key > n.iv.start {
        n, u := n.right, u.r;
      } else {
        return;
      }
    }
  }

  lemma Parts(l: Tree, n: Node, r: Tree)
    requires Distinct(Bin(l, n, r))
    ensures Distinct(l) && Distinct(r) && n !in Nodes(l) && n !in Nodes(r) && Nodes(l) !! Nodes(r)
    ensures Nodes(Bin(l, n, r)) == Nodes(l) + {n} + Nodes(r)
  {
  }
}
