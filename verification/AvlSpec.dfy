/** The AVL algorithms of libds on trees as values: what they do to order, balance and membership. */
module AvlSpec {
  import opened Common

  /** An entry of the tree: the node, and the key cmp_fn reads from the record around it. */
  datatype Item<N> = Item(node: N, key: int)

  /** `h` is the height stored in the node. */
  datatype Tree<N> = Leaf | Node(left: Tree<N>, item: Item<N>, h: int, right: Tree<N>)

  type Cmp = (int, int) -> int

  // ---- The algorithms ----

  /** node_height. */
  function H<N>(t: Tree<N>): int { if t.Leaf? then 0 else t.h }

  /** A node whose height was just updated. */
  function Mk<N>(l: Tree<N>, x: Item<N>, r: Tree<N>): Tree<N> { Node(l, x, 1 + Max(H(l), H(r)), r) }

  function RotateLeft<N>(t: Tree<N>): Tree<N>
    requires t.Node? && t.right.Node?
  {
    Mk(Mk(t.left, t.item, t.right.left), t.right.item, t.right.right)
  }

  function RotateRight<N>(t: Tree<N>): Tree<N>
    requires t.Node? && t.left.Node?
  {
    Mk(t.left.left, t.left.item, Mk(t.left.right, t.item, t.right))
  }

  function Bf<N>(t: Tree<N>): int { if t.Leaf? then 0 else H(t.left) - H(t.right) }

  /** rebalance: the source dereferences the taller child and, for a double rotation, its inner child. */
  predicate CanRebalance<N>(t: Tree<N>) {
    t.Node? ==>
      && (H(t.left) - H(t.right) > 1 ==> t.left.Node? && (Bf(t.left) < 0 ==> t.left.right.Node?))
      && (H(t.left) - H(t.right) < -1 ==> t.right.Node? && (Bf(t.right) > 0 ==> t.right.left.Node?))
  }

  function Rebalance<N>(t: Tree<N>): Tree<N>
    requires CanRebalance(t)
  {
    if t.Leaf? then Leaf else
    var u := Mk(t.left, t.item, t.right);
    if Bf(u) > 1 then
      RotateRight(if Bf(u.left) < 0 then u.(left := RotateLeft(u.left)) else u)
    else if Bf(u) < -1 then
      RotateLeft(if Bf(u.right) > 0 then u.(right := RotateRight(u.right)) else u)
    else u
  }

  // ---- Balance ----

  /** Stored heights are exact and sibling heights differ by at most one. */
  ghost predicate Avl<N>(t: Tree<N>) {
    t.Node? ==>
      && Avl(t.left) && Avl(t.right)
      && t.h == 1 + Max(H(t.left), H(t.right))
      && -1 <= H(t.left) - H(t.right) <= 1
  }

  lemma {:induction false} AvlHeight<N>(t: Tree<N>)
    requires Avl(t)
    ensures H(t) >= 0 && (H(t) == 0 <==> t.Leaf?)
  {
    if t.Node? {
      AvlHeight(t.left);
      AvlHeight(t.right);
    }
  }

  /** One step out of balance is repaired, and the height is the old one or one less than it would have been. */
  lemma {:induction false} RebalanceAvl<N>(t: Tree<N>)
    requires t.Node? && Avl(t.left) && Avl(t.right) && -2 <= H(t.left) - H(t.right) <= 2
    ensures CanRebalance(t) && Avl(Rebalance(t))
    ensures Max(H(t.left), H(t.right)) <= H(Rebalance(t)) <= 1 + Max(H(t.left), H(t.right))
    ensures -1 <= H(t.left) - H(t.right) <= 1 ==> H(Rebalance(t)) == 1 + Max(H(t.left), H(t.right))
  {
    AvlHeight(t.left);
    AvlHeight(t.right);
    if H(t.left) - H(t.right) == 2 {
      AvlHeight(t.left.left);
      AvlHeight(t.left.right);
    }
    if H(t.left) - H(t.right) == -2 {
      AvlHeight(t.right.left);
      AvlHeight(t.right.right);
    }
  }

  // ---- Order ----

  function InOrder<N>(t: Tree<N>): seq<Item<N>> {
    if t.Leaf? then [] else InOrder(t.left) + [t.item] + InOrder(t.right)
  }

  /** Rotations move no item: the whole of rebalance keeps the in-order sequence. */
  lemma {:induction false} RebalanceInOrder<N>(t: Tree<N>)
    requires CanRebalance(t)
    ensures InOrder(Rebalance(t)) == InOrder(t)
  {
    if t.Node? {
      var u := Mk(t.left, t.item, t.right);
      if Bf(u) > 1 && Bf(u.left) < 0 { RotateLeftInOrder(u.left); }
      if Bf(u) > 1 { RotateRightInOrder(if Bf(u.left) < 0 then u.(left := RotateLeft(u.left)) else u); }
      if Bf(u) < -1 && Bf(u.right) > 0 { RotateRightInOrder(u.right); }
      if Bf(u) < -1 { RotateLeftInOrder(if Bf(u.right) > 0 then u.(right := RotateRight(u.right)) else u); }
    }
  }

  lemma {:induction false} Regroup<X>(a: seq<X>, x: X, b: seq<X>, y: X, c: seq<X>)
    ensures (a + [x] + b) + [y] + c == a + [x] + (b + [y] + c)
  {
  }

  lemma {:induction false} RotateLeftInOrder<N>(t: Tree<N>)
    requires t.Node? && t.right.Node?
    ensures InOrder(RotateLeft(t)) == InOrder(t)
  {
    Regroup(InOrder(t.left), t.item, InOrder(t.right.left), t.right.item, InOrder(t.right.right));
  }

  lemma {:induction false} RotateRightInOrder<N>(t: Tree<N>)
    requires t.Node? && t.left.Node?
    ensures InOrder(RotateRight(t)) == InOrder(t)
  {
    Regroup(InOrder(t.left.left), t.left.item, InOrder(t.left.right), t.item, InOrder(t.right));
  }

  ghost predicate Flips(cmp: Cmp, a: int, b: int) { cmp(a, b) < 0 <==> cmp(b, a) > 0 }

  ghost predicate Transits(cmp: Cmp, a: int, b: int, c: int) {
    cmp(a, b) <= 0 && cmp(b, c) <= 0 ==> cmp(a, c) <= 0
  }

  /** cmp is the comparison of a total preorder. */
  ghost predicate Total(cmp: Cmp) {
    && (forall a, b :: Flips(cmp, a, b))
    && (forall a, b, c :: Transits(cmp, a, b, c))
  }

  /** In-order keys never decrease. */
  ghost predicate Sorted<N>(cmp: Cmp, s: seq<Item<N>>) {
    forall i, j | 0 <= i < j < |s| :: cmp(s[i].key, s[j].key) <= 0
  }

  /** In-order keys increase: no two compare equal. */
  ghost predicate Strict<N>(cmp: Cmp, s: seq<Item<N>>) {
    forall i, j | 0 <= i < j < |s| :: cmp(s[i].key, s[j].key) < 0
  }

  // ---- Insert ----

  /** avltree_insert, as long as every rebalance on the way finds the nodes it dereferences. */
  function Insert<N>(cmp: Cmp, t: Tree<N>, x: Item<N>): Tree<N>
    requires Avl(t)
    ensures Avl(Insert(cmp, t, x)) && H(t) <= H(Insert(cmp, t, x)) <= H(t) + 1
  {
    if t.Leaf? then Node(Leaf, x, 1, Leaf)
    else
      var u := if cmp(x.key, t.item.key) < 0 then t.(left := Insert(cmp, t.left, x))
        else t.(right := Insert(cmp, t.right, x));
      RebalanceAvl(u);
      Rebalance(u)
  }

  /** How many leading items of a sorted sequence do not exceed key. */
  function Rank<N>(cmp: Cmp, s: seq<Item<N>>, key: int): (i: nat)
    ensures i <= |s|
    ensures forall j | 0 <= j < i :: cmp(key, s[j].key) >= 0
    ensures i < |s| ==> cmp(key, s[i].key) < 0
  {
    if s == [] || cmp(key, s[0].key) < 0 then 0 else 1 + Rank(cmp, s[1..], key)
  }

  lemma {:induction false} RankIs<N>(cmp: Cmp, s: seq<Item<N>>, key: int, i: nat)
    requires i <= |s| && forall j | 0 <= j < i :: cmp(key, s[j].key) >= 0
    requires i < |s| ==> cmp(key, s[i].key) < 0
    ensures Rank(cmp, s, key) == i
  {
    if i > 0 { RankIs(cmp, s[1..], key, i - 1); }
  }

  /** x goes in after every item that does not exceed it and before every other. */
  function Inserted<N>(cmp: Cmp, s: seq<Item<N>>, x: Item<N>): seq<Item<N>> {
    s[..Rank(cmp, s, x.key)] + [x] + s[Rank(cmp, s, x.key)..]
  }

  /** Insertion adds the item at its place and moves nothing else, equal keys or not. */
  lemma {:induction false} InsertInOrder<N>(cmp: Cmp, t: Tree<N>, x: Item<N>)
    requires Total(cmp) && Avl(t) && Sorted(cmp, InOrder(t))
    ensures InOrder(Insert(cmp, t, x)) == Inserted(cmp, InOrder(t), x)
  {
    if t.Node? {
      var (a, b) := (InOrder(t.left), InOrder(t.right));
      SortedParts(cmp, a, t.item, b);
      if cmp(x.key, t.item.key) < 0 {
        InsertInOrder(cmp, t.left, x);
        RebalanceAvl(t.(left := Insert(cmp, t.left, x)));
        RebalanceInOrder(t.(left := Insert(cmp, t.left, x)));
        InsertedLeft(cmp, a, t.item, b, x);
      } else {
        InsertInOrder(cmp, t.right, x);
        RebalanceAvl(t.(right := Insert(cmp, t.right, x)));
        RebalanceInOrder(t.(right := Insert(cmp, t.right, x)));
        BelowAll(cmp, a, t.item.key, x.key);
        InsertedRight(cmp, a, t.item, b, x);
      }
    }
  }

  lemma {:induction false} SortedParts<N>(cmp: Cmp, a: seq<Item<N>>, x: Item<N>, b: seq<Item<N>>)
    requires Sorted(cmp, a + [x] + b)
    ensures Sorted(cmp, a) && Sorted(cmp, b)
    ensures forall i | 0 <= i < |a| :: cmp(a[i].key, x.key) <= 0
    ensures forall i | 0 <= i < |b| :: cmp(x.key, b[i].key) <= 0
  {
    Parts(a, x, b);
  }

  lemma {:induction false} StrictParts<N>(cmp: Cmp, a: seq<Item<N>>, x: Item<N>, b: seq<Item<N>>)
    requires Strict(cmp, a + [x] + b)
    ensures Strict(cmp, a) && Strict(cmp, b)
    ensures forall i | 0 <= i < |a| :: cmp(a[i].key, x.key) < 0
    ensures forall i | 0 <= i < |b| :: cmp(x.key, b[i].key) < 0
  {
    Parts(a, x, b);
  }

  /** Where the items of the parts are in the whole. */
  lemma {:induction false} Parts<X>(a: seq<X>, x: X, b: seq<X>)
    ensures forall i {:trigger a[i]} | 0 <= i < |a| :: (a + [x] + b)[i] == a[i]
    ensures (a + [x] + b)[|a|] == x
    ensures forall i {:trigger b[i]} | 0 <= i < |b| :: (a + [x] + b)[|a| + 1 + i] == b[i]
  {
  }

  lemma {:induction false} InsertedLeft<N>(cmp: Cmp, a: seq<Item<N>>, y: Item<N>, b: seq<Item<N>>, x: Item<N>)
    requires cmp(x.key, y.key) < 0
    ensures Inserted(cmp, a + [y] + b, x) == Inserted(cmp, a, x) + [y] + b
  {
    var i := Rank(cmp, a, x.key);
    RankIs(cmp, a + [y] + b, x.key, i);
    PlaceLeft(a, y, b, i, x);
  }

  lemma {:induction false} PlaceLeft<X>(a: seq<X>, y: X, b: seq<X>, i: nat, x: X)
    requires i <= |a|
    ensures (a + [y] + b)[..i] + [x] + (a + [y] + b)[i..] == (a[..i] + [x] + a[i..]) + [y] + b
  {
  }

  lemma {:induction false} InsertedRight<N>(cmp: Cmp, a: seq<Item<N>>, y: Item<N>, b: seq<Item<N>>, x: Item<N>)
    requires cmp(x.key, y.key) >= 0 && forall i | 0 <= i < |a| :: cmp(x.key, a[i].key) >= 0
    ensures Inserted(cmp, a + [y] + b, x) == a + [y] + Inserted(cmp, b, x)
  {
    var i := Rank(cmp, b, x.key);
    var s := a + [y] + b;
    forall j | 0 <= j < |a| + 1 + i ensures cmp(x.key, s[j].key) >= 0 {
      if j > |a| { assert s[j] == b[j - |a| - 1]; }
    }
    RankIs(cmp, s, x.key, |a| + 1 + i);
    PlaceRight(a, y, b, i, x);
  }

  lemma {:induction false} PlaceRight<X>(a: seq<X>, y: X, b: seq<X>, i: nat, x: X)
    requires i <= |b|
    ensures (a + [y] + b)[..|a| + 1 + i] + [x] + (a + [y] + b)[|a| + 1 + i..] == a + [y] + (b[..i] + [x] + b[i..])
  {
  }

  /** What does not exceed y does not exceed an x that is at least y. */
  lemma {:induction false} BelowAll<N>(cmp: Cmp, a: seq<Item<N>>, y: int, x: int)
    requires Total(cmp) && cmp(x, y) >= 0 && forall i | 0 <= i < |a| :: cmp(a[i].key, y) <= 0
    ensures forall i | 0 <= i < |a| :: cmp(x, a[i].key) >= 0
  {
    forall i | 0 <= i < |a| ensures cmp(x, a[i].key) >= 0 {
      Chain(cmp, a[i].key, y, x);
    }
  }

  lemma {:induction false} Chain(cmp: Cmp, a: int, b: int, c: int)
    requires Total(cmp)
    ensures Flips(cmp, a, b) && Flips(cmp, b, a)
    ensures Flips(cmp, b, c) && Flips(cmp, c, b)
    ensures Flips(cmp, a, c) && Flips(cmp, c, a)
    ensures cmp(a, b) <= 0 && cmp(b, c) <= 0 ==> cmp(a, c) <= 0
    ensures cmp(a, b) < 0 && cmp(b, c) <= 0 ==> cmp(a, c) < 0
    ensures cmp(a, b) <= 0 && cmp(b, c) < 0 ==> cmp(a, c) < 0
  {
    assert Flips(cmp, a, b) && Flips(cmp, b, a) && Flips(cmp, b, c) && Flips(cmp, c, b) && Flips(cmp, a, c)
      && Flips(cmp, c, a);
    assert Transits(cmp, a, b, c) && Transits(cmp, b, c, a) && Transits(cmp, c, a, b);
  }

  /** Insertion keeps the order; with a key that equals no other it keeps it strict. */
  lemma {:induction false} InsertedSorted<N>(cmp: Cmp, s: seq<Item<N>>, x: Item<N>)
    requires Total(cmp) && Sorted(cmp, s)
    ensures Sorted(cmp, Inserted(cmp, s, x))
    ensures Strict(cmp, s) && (forall i | 0 <= i < |s| :: cmp(x.key, s[i].key) != 0) ==>
              Strict(cmp, Inserted(cmp, s, x))
  {
    var i := Rank(cmp, s, x.key);
    forall j | 0 <= j < |s|
      ensures j < i ==> cmp(s[j].key, x.key) <= 0
      ensures j >= i ==> cmp(x.key, s[j].key) < 0
      ensures cmp(x.key, s[j].key) != 0 && j < i ==> cmp(s[j].key, x.key) < 0
    {
      Chain(cmp, s[j].key, x.key, x.key);
      if j > i { Chain(cmp, x.key, s[i].key, s[j].key); }
    }
    PlacedSorted(cmp, s, i, x);
  }

  lemma {:induction false} PlacedSorted<N>(cmp: Cmp, s: seq<Item<N>>, i: nat, x: Item<N>)
    requires i <= |s| && Sorted(cmp, s)
    requires forall j | 0 <= j < i :: cmp(s[j].key, x.key) <= 0
    requires forall j | i <= j < |s| :: cmp(x.key, s[j].key) < 0
    ensures Sorted(cmp, s[..i] + [x] + s[i..])
    ensures Strict(cmp, s) && (forall j | 0 <= j < i :: cmp(s[j].key, x.key) < 0) ==> Strict(cmp, s[..i] + [x] + s[i..])
  {
    var s' := s[..i] + [x] + s[i..];
    assert forall j | 0 <= j < |s'| :: s'[j] == if j < i then s[j] else if j == i then x else s[j - 1];
  }

  // ---- Delete ----

  /** find_min. */
  function Min<N>(t: Tree<N>): Item<N>
    requires t.Node?
  {
    if t.left.Leaf? then t.item else Min(t.left)
  }

  /** avltree_delete: the node is found by comparison, and so is its successor in the right subtree. */
  function Delete<N>(cmp: Cmp, t: Tree<N>, key: int): Tree<N>
    requires Avl(t)
    ensures Avl(Delete(cmp, t, key)) && H(t) - 1 <= H(Delete(cmp, t, key)) <= H(t)
  {
    if t.Leaf? then Leaf
    else
      AvlHeight(t.left);
      AvlHeight(t.right);
      if cmp(key, t.item.key) < 0 then
        var u := t.(left := Delete(cmp, t.left, key));
        RebalanceAvl(u);
        Rebalance(u)
      else if cmp(key, t.item.key) > 0 then
        var u := t.(right := Delete(cmp, t.right, key));
        RebalanceAvl(u);
        Rebalance(u)
      else if t.left.Leaf? then t.right
      else if t.right.Leaf? then t.left
      else
        var u := t.(item := Min(t.right), right := Delete(cmp, t.right, Min(t.right).key));
        RebalanceAvl(u);
        Rebalance(u)
  }

  /** s without its first item that compares equal to key. */
  function Removed<N>(cmp: Cmp, s: seq<Item<N>>, key: int): seq<Item<N>> {
    if s == [] then [] else if cmp(key, s[0].key) == 0 then s[1..] else [s[0]] + Removed(cmp, s[1..], key)
  }

  lemma {:induction false} RemovedAt<N>(cmp: Cmp, a: seq<Item<N>>, b: seq<Item<N>>, key: int)
    requires forall i | 0 <= i < |a| :: cmp(key, a[i].key) != 0
    ensures Removed(cmp, a + b, key) == a + Removed(cmp, b, key)
  {
    if a == [] {
      assert a + b == b;
    } else {
      RemovedAt(cmp, a[1..], b, key);
      assert (a + b)[1..] == a[1..] + b;
    }
  }

  lemma {:induction false} RemovedBefore<N>(cmp: Cmp, a: seq<Item<N>>, b: seq<Item<N>>, key: int)
    requires forall i | 0 <= i < |b| :: cmp(key, b[i].key) != 0
    ensures Removed(cmp, a + b, key) == Removed(cmp, a, key) + b
    decreases |a|, 1
  {
    if a == [] {
      RemovedNone(cmp, b, key);
      assert a + b == b;
    } else {
      assert (a + b)[0] == a[0] && (a + b)[1..] == a[1..] + b;
      if cmp(key, a[0].key) != 0 { RemovedLater(cmp, a, b, key); }
    }
  }

  lemma {:induction false} RemovedLater<N>(cmp: Cmp, a: seq<Item<N>>, b: seq<Item<N>>, key: int)
    requires a != [] && cmp(key, a[0].key) != 0 && (a + b)[0] == a[0] && (a + b)[1..] == a[1..] + b
    requires forall i | 0 <= i < |b| :: cmp(key, b[i].key) != 0
    ensures Removed(cmp, a + b, key) == Removed(cmp, a, key) + b
    decreases |a|, 0
  {
    RemovedBefore(cmp, a[1..], b, key);
    PrefixAssoc([a[0]], Removed(cmp, a[1..], key), b);
  }

  lemma {:induction false} PrefixAssoc<X>(a: seq<X>, b: seq<X>, c: seq<X>)
    ensures a + (b + c) == (a + b) + c
  {
  }

  lemma {:induction false} RemovedNone<N>(cmp: Cmp, s: seq<Item<N>>, key: int)
    requires forall i | 0 <= i < |s| :: cmp(key, s[i].key) != 0
    ensures Removed(cmp, s, key) == s
  {
    if s != [] { RemovedNone(cmp, s[1..], key); }
  }

  lemma {:induction false} MinIsFirst<N>(t: Tree<N>)
    requires t.Node?
    ensures InOrder(t) != [] && InOrder(t)[0] == Min(t)
  {
    if t.left.Node? { MinIsFirst(t.left); }
  }

  /** Where the removed item can be, from the comparison with the item in the middle. */
  lemma {:induction false} RemovedParts<N>(cmp: Cmp, a: seq<Item<N>>, y: Item<N>, b: seq<Item<N>>, key: int)
    requires Total(cmp) && Strict(cmp, a + [y] + b)
    ensures cmp(key, y.key) < 0 ==> Removed(cmp, a + [y] + b, key) == Removed(cmp, a, key) + [y] + b
    ensures cmp(key, y.key) > 0 ==> Removed(cmp, a + [y] + b, key) == a + [y] + Removed(cmp, b, key)
    ensures cmp(key, y.key) == 0 ==> Removed(cmp, a + [y] + b, key) == a + b
  {
    StrictParts(cmp, a, y, b);
    forall i | 0 <= i < |a|
      ensures cmp(key, y.key) >= 0 ==> cmp(key, a[i].key) != 0
    {
      Chain(cmp, a[i].key, y.key, key);
    }
    forall i | 0 <= i < |b|
      ensures cmp(key, y.key) < 0 ==> cmp(key, b[i].key) != 0
    {
      Chain(cmp, key, y.key, b[i].key);
    }
    assert a + [y] + b == a + ([y] + b);
    if cmp(key, y.key) < 0 {
      RemovedBefore(cmp, a, [y] + b, key);
    } else if cmp(key, y.key) > 0 {
      RemovedAt(cmp, a + [y], b, key);
    } else {
      RemovedAt(cmp, a, [y] + b, key);
      assert ([y] + b)[1..] == b;
    }
  }

  /** What one level of avltree_delete makes of the in-order sequence. */
  lemma {:induction false} DeleteLevel<N>(cmp: Cmp, t: Tree<N>, key: int)
    requires Avl(t) && t.Node?
    ensures cmp(key, t.item.key) < 0 ==>
              InOrder(Delete(cmp, t, key)) == InOrder(Delete(cmp, t.left, key)) + [t.item] + InOrder(t.right)
    ensures cmp(key, t.item.key) > 0 ==>
              InOrder(Delete(cmp, t, key)) == InOrder(t.left) + [t.item] + InOrder(Delete(cmp, t.right, key))
    ensures cmp(key, t.item.key) == 0 && (t.left.Leaf? || t.right.Leaf?) ==>
              InOrder(Delete(cmp, t, key)) == InOrder(t.left) + InOrder(t.right)
    ensures cmp(key, t.item.key) == 0 && t.left.Node? && t.right.Node? ==>
              InOrder(Delete(cmp, t, key)) ==
              InOrder(t.left) + [Min(t.right)] + InOrder(Delete(cmp, t.right, Min(t.right).key))
  {
    if cmp(key, t.item.key) < 0 {
      RebalanceDeleted(t.(left := Delete(cmp, t.left, key)), t);
    } else if cmp(key, t.item.key) > 0 {
      RebalanceDeleted(t.(right := Delete(cmp, t.right, key)), t);
    } else if t.left.Node? && t.right.Node? {
      RebalanceDeleted(t.(item := Min(t.right), right := Delete(cmp, t.right, Min(t.right).key)), t);
    }
  }

  /** With distinct keys, deletion removes exactly the item with that key and moves nothing else. */
  lemma {:induction false} DeleteInOrder<N>(cmp: Cmp, t: Tree<N>, key: int)
    requires Total(cmp) && Avl(t) && Strict(cmp, InOrder(t))
    ensures InOrder(Delete(cmp, t, key)) == Removed(cmp, InOrder(t), key)
  {
    if t.Node? {
      var (a, y, b) := (InOrder(t.left), t.item, InOrder(t.right));
      StrictParts(cmp, a, y, b);
      DeleteLevel(cmp, t, key);
      RemovedParts(cmp, a, y, b, key);
      if cmp(key, y.key) < 0 {
        DeleteInOrder(cmp, t.left, key);
      } else if cmp(key, y.key) > 0 {
        DeleteInOrder(cmp, t.right, key);
      } else if t.left.Node? && t.right.Node? {
        MinRemoved(cmp, t.right);
        DeleteInOrder(cmp, t.right, Min(t.right).key);
        HeadBack(a, b);
      }
    }
  }

  lemma {:induction false} HeadBack<X>(a: seq<X>, b: seq<X>)
    requires b != []
    ensures a + [b[0]] + b[1..] == a + b
  {
  }

  /** Removing by the key of the first item removes the first item. */
  lemma {:induction false} MinRemoved<N>(cmp: Cmp, t: Tree<N>)
    requires Total(cmp) && t.Node?
    ensures InOrder(t) != [] && InOrder(t)[0] == Min(t)
    ensures Removed(cmp, InOrder(t), Min(t).key) == InOrder(t)[1..]
  {
    MinIsFirst(t);
    Chain(cmp, Min(t).key, Min(t).key, Min(t).key);
  }

  lemma {:induction false} RebalanceDeleted<N>(u: Tree<N>, t: Tree<N>)
    requires t.Node? && u.Node? && Avl(t) && Avl(u.left) && Avl(u.right)
    requires H(t.left) - 1 <= H(u.left) <= H(t.left) && H(t.right) - 1 <= H(u.right) <= H(t.right)
    requires H(u.left) == H(t.left) || H(u.right) == H(t.right)
    ensures CanRebalance(u) && InOrder(Rebalance(u)) == InOrder(u.left) + [u.item] + InOrder(u.right)
  {
    RebalanceAvl(u);
    RebalanceInOrder(u);
  }

  lemma {:induction false} RemovedStrict<N>(cmp: Cmp, s: seq<Item<N>>, key: int)
    requires Strict(cmp, s)
    ensures Strict(cmp, Removed(cmp, s, key))
    ensures forall x | x in Removed(cmp, s, key) :: x in s
  {
    if s != [] && cmp(key, s[0].key) != 0 {
      RemovedStrict(cmp, s[1..], key);
      var r := Removed(cmp, s[1..], key);
      forall j | 0 <= j < |r| ensures cmp(s[0].key, r[j].key) < 0 {
        assert r[j] in s[1..];
      }
    }
  }

  function One<N>(x: Item<N>): (t: Tree<N>)
    ensures Avl(t) && H(t) == 1
  {
    assert Avl<N>(Leaf) && H<N>(Leaf) == 0;
    Node(Leaf, x, 1, Leaf)
  }

  /** d above an equal item c: what inserting c, d and a larger e, and deleting e again, leaves. */
  function EqualPair<N>(c: Item<N>, d: Item<N>): Tree<N> { Node(One(c), d, 2, Leaf) }

  lemma {:induction false} EqualPairBuilt<N>(cmp: Cmp, c: Item<N>, d: Item<N>, e: Item<N>)
    requires cmp(d.key, c.key) == 0 && cmp(e.key, c.key) > 0 && cmp(e.key, d.key) > 0 && cmp(e.key, e.key) == 0
    ensures Delete(cmp, Insert(cmp, Insert(cmp, One(c), d), e), e.key) == EqualPair(c, d)
  {
    assert Insert(cmp, Leaf, d) == One(d) && Insert(cmp, Leaf, e) == One(e);
    assert Insert(cmp, One(c), d) == Node(Leaf, c, 2, One(d));
    assert Insert(cmp, One(d), e) == Node(Leaf, d, 2, One(e));
    assert Insert(cmp, Node(Leaf, c, 2, One(d)), e) == Node(One(c), d, 2, One(e));
    assert Delete(cmp, One(e), e.key) == Leaf;
  }

  // ---- Delete with equal keys ----

  ghost predicate DistinctNodes<N>(s: seq<Item<N>>) {
    forall i, j | 0 <= i < j < |s| :: s[i].node != s[j].node
  }

  /** The subtree whose root the comparisons find, Leaf when they find none. */
  function Hit<N>(cmp: Cmp, t: Tree<N>, key: int): Tree<N> {
    if t.Leaf? then Leaf
    else if cmp(key, t.item.key) < 0 then Hit(cmp, t.left, key)
    else if cmp(key, t.item.key) > 0 then Hit(cmp, t.right, key)
    else t
  }

  /** No node above the least one, on the way to it, compares equal to it. */
  predicate MinAlone<N>(cmp: Cmp, t: Tree<N>) {
    t.Node? && t.left.Node? ==> cmp(Min(t).key, t.item.key) != 0 && MinAlone(cmp, t.left)
  }

  /** What a caller of avltree_delete can check: the node found lacks a child, or its successor is alone. */
  predicate Deletable<N>(cmp: Cmp, t: Tree<N>, key: int) {
    var u := Hit(cmp, t, key);
    u.Node? && u.left.Node? && u.right.Node? ==> MinAlone(cmp, u.right)
  }

  lemma {:induction false} WithoutIn<X>(a: seq<X>, b: seq<X>, x: X)
    requires x in a
    ensures Without(a + b, x) == Without(a, x) + b
  {
    assert (a + b)[1..] == a[1..] + b;
    if a[0] != x { WithoutIn(a[1..], b, x); }
  }

  lemma {:induction false} WithoutAfter<X>(a: seq<X>, b: seq<X>, x: X)
    requires x !in a
    ensures Without(a + b, x) == a + Without(b, x)
  {
    if a == [] {
      assert a + b == b;
    } else {
      assert (a + b)[1..] == a[1..] + b;
      WithoutAfter(a[1..], b, x);
    }
  }

  lemma {:induction false} WithoutLength<X>(s: seq<X>, x: X)
    requires x in s
    ensures |Without(s, x)| == |s| - 1
  {
    if s[0] != x { WithoutLength(s[1..], x); }
  }

  lemma {:induction false} HitIn<N>(cmp: Cmp, t: Tree<N>, key: int)
    requires Hit(cmp, t, key).Node?
    ensures Hit(cmp, t, key).item in InOrder(t) && cmp(key, Hit(cmp, t, key).item.key) == 0
  {
    if cmp(key, t.item.key) < 0 { HitIn(cmp, t.left, key); }
    if cmp(key, t.item.key) > 0 { HitIn(cmp, t.right, key); }
  }

  lemma {:induction false} DistinctParts<N>(a: seq<Item<N>>, x: Item<N>, b: seq<Item<N>>)
    requires DistinctNodes(a + [x] + b)
    ensures DistinctNodes(a) && DistinctNodes(b) && x !in a && x !in b
    ensures forall y | y in a :: y !in b
  {
    Parts(a, x, b);
    var s := a + [x] + b;
    forall i | 0 <= i < |a| ensures a[i] != x && a[i] !in b {
      assert s[i] == a[i];
    }
    assert forall i | 0 <= i < |b| :: s[|a| + 1 + i] == b[i] && b[i] != s[|a|];
  }

  /** Equal contexts cancel. */
  lemma {:induction false} SameMiddle<X>(a: seq<X>, m: seq<X>, n: seq<X>, b: seq<X>)
    ensures a + m + b == a + n + b <==> m == n
  {
    if a + m + b == a + n + b {
      assert |m| == |n|;
      assert m == (a + m + b)[|a|..|a| + |m|];
      assert n == (a + n + b)[|a|..|a| + |n|];
    }
  }

  /** The least item compares at most as high as every other. */
  lemma {:induction false} MinLeast<N>(cmp: Cmp, t: Tree<N>)
    requires Total(cmp) && t.Node? && Sorted(cmp, InOrder(t))
    ensures cmp(Min(t).key, t.item.key) <= 0 && cmp(Min(t).key, Min(t).key) == 0
    ensures t.left.Node? ==> Min(t) == Min(t.left) && Min(t) in InOrder(t.left)
  {
    MinIsFirst(t);
    Chain(cmp, Min(t).key, Min(t).key, Min(t).key);
    SortedParts(cmp, InOrder(t.left), t.item, InOrder(t.right));
    if t.left.Node? { MinIsFirst(t.left); }
  }

  /** Deleting the least item by its key removes it exactly when it is alone; otherwise it stays in the tree. */
  lemma {:induction false} MinDeletedIff<N>(cmp: Cmp, t: Tree<N>)
    requires Total(cmp) && Avl(t) && t.Node? && Sorted(cmp, InOrder(t)) && DistinctNodes(InOrder(t))
    ensures MinAlone(cmp, t) ==> InOrder(Delete(cmp, t, Min(t).key)) == InOrder(t)[1..]
    ensures Min(t) in InOrder(Delete(cmp, t, Min(t).key)) <==> !MinAlone(cmp, t)
    decreases t
  {
    var (a, y, b, m) := (InOrder(t.left), t.item, InOrder(t.right), Min(t));
    SortedParts(cmp, a, y, b);
    DistinctParts(a, y, b);
    DeleteLevel(cmp, t, m.key);
    MinLeast(cmp, t);
    MinIsFirst(t);
    TailOfParts(a, y, b);
    if t.left.Leaf? {
      assert a + b == b;
    } else if cmp(m.key, y.key) < 0 {
      MinDeletedIff(cmp, t.left);
      MemberOf(InOrder(Delete(cmp, t.left, m.key)), y, b, m);
    } else if t.right.Leaf? {
      assert m in a + b;
    } else {
      MemberOf(a, Min(t.right), InOrder(Delete(cmp, t.right, Min(t.right).key)), m);
    }
  }

  lemma {:induction false} TailOfParts<X>(a: seq<X>, y: X, b: seq<X>)
    ensures (a + [y] + b)[1..] == if a == [] then b else a[1..] + [y] + b
  {
  }

  lemma {:induction false} MemberOf<X>(a: seq<X>, y: X, b: seq<X>, x: X)
    ensures x in a + [y] + b <==> x in a || x == y || x in b
  {
  }

  /**
   With equal keys allowed: deletion removes exactly the node it finds, and moves nothing else, if
   and only if that node lacks a child or its successor is alone among its equals.
   */
  lemma {:induction false} DeleteExactIff<N>(cmp: Cmp, t: Tree<N>, key: int)
    requires Total(cmp) && Avl(t) && Sorted(cmp, InOrder(t)) && DistinctNodes(InOrder(t)) && Hit(cmp, t, key).Node?
    ensures InOrder(Delete(cmp, t, key)) == Without(InOrder(t), Hit(cmp, t, key).item) <==> Deletable(cmp, t, key)
    decreases t
  {
    var (a, y, b, x) := (InOrder(t.left), t.item, InOrder(t.right), Hit(cmp, t, key).item);
    SortedParts(cmp, a, y, b);
    DistinctParts(a, y, b);
    DeleteLevel(cmp, t, key);
    if cmp(key, y.key) < 0 {
      HitIn(cmp, t.left, key);
      DeleteExactIff(cmp, t.left, key);
      WithoutLeft(a, y, b, x, InOrder(Delete(cmp, t.left, key)));
    } else if cmp(key, y.key) > 0 {
      HitIn(cmp, t.right, key);
      DeleteExactIff(cmp, t.right, key);
      WithoutRight(a, y, b, x, InOrder(Delete(cmp, t.right, key)));
    } else {
      WithoutMiddle(a, y, b);
      if t.left.Node? && t.right.Node? {
        MinIsFirst(t.right);
        MinDeletedIff(cmp, t.right);
        HeadBack(a, b);
        SameMiddle(a + [b[0]], InOrder(Delete(cmp, t.right, b[0].key)), b[1..], []);
      }
    }
  }

  lemma {:induction false} WithoutLeft<X>(a: seq<X>, y: X, b: seq<X>, x: X, d: seq<X>)
    requires x in a
    ensures d + [y] + b == Without(a + [y] + b, x) <==> d == Without(a, x)
  {
    WithoutIn(a, [y] + b, x);
    Reassociate(a, y, b);
    Reassociate(d, y, b);
    SameMiddle([], d, Without(a, x), [y] + b);
    assert [] + Without(a, x) == Without(a, x);
  }

  lemma {:induction false} WithoutRight<X>(a: seq<X>, y: X, b: seq<X>, x: X, d: seq<X>)
    requires x !in a && x != y
    ensures a + [y] + d == Without(a + [y] + b, x) <==> d == Without(b, x)
  {
    WithoutAfter(a + [y], b, x);
    SameMiddle(a + [y], d, Without(b, x), []);
    assert a + [y] + d + [] == a + [y] + d;
  }

  lemma {:induction false} WithoutMiddle<X>(a: seq<X>, y: X, b: seq<X>)
    requires y !in a
    ensures Without(a + [y] + b, y) == a + b
  {
    WithoutAfter(a, [y] + b, y);
    Reassociate(a, y, b);
    assert ([y] + b)[1..] == b;
  }

  lemma {:induction false} Reassociate<X>(a: seq<X>, y: X, b: seq<X>)
    ensures a + [y] + b == a + ([y] + b) == [] + a + ([y] + b)
  {
  }

  /** A key that is not found changes nothing. */
  lemma {:induction false} DeleteMissing<N>(cmp: Cmp, t: Tree<N>, key: int)
    requires Avl(t) && Hit(cmp, t, key).Leaf?
    ensures InOrder(Delete(cmp, t, key)) == InOrder(t)
  {
    if t.Node? {
      DeleteLevel(cmp, t, key);
      DeleteMissing(cmp, if cmp(key, t.item.key) < 0 then t.left else t.right, key);
    }
  }

  /** Distinct keys meet the condition. */
  lemma {:induction false} DistinctKeysDeletable<N>(cmp: Cmp, t: Tree<N>, key: int)
    requires Total(cmp) && Strict(cmp, InOrder(t))
    ensures Deletable(cmp, t, key) && MinAlone(cmp, t)
  {
    if t.Node? {
      var (a, b) := (InOrder(t.left), InOrder(t.right));
      StrictParts(cmp, a, t.item, b);
      DistinctKeysDeletable(cmp, t.left, key);
      DistinctKeysDeletable(cmp, t.right, key);
      if t.left.Node? { MinIsFirst(t.left); }
    }
  }

  /** The successor's own deletion meets the condition when it is alone. */
  lemma {:induction false} MinAloneDeletable<N>(cmp: Cmp, t: Tree<N>)
    requires Total(cmp) && t.Node? && Sorted(cmp, InOrder(t)) && MinAlone(cmp, t)
    ensures Deletable(cmp, t, Min(t).key) && Hit(cmp, t, Min(t).key).Node? && Hit(cmp, t, Min(t).key).item == Min(t)
  {
    MinLeast(cmp, t);
    if t.left.Node? {
      SortedParts(cmp, InOrder(t.left), t.item, InOrder(t.right));
      MinAloneDeletable(cmp, t.left);
    }
  }

  /** When the condition fails, some deletion on the way fails by itself: the one for its own successor meets it. */
  lemma {:induction false} InnermostFailure<N>(cmp: Cmp, t: Tree<N>, key: int) returns (u: Tree<N>)
    requires !Deletable(cmp, t, key)
    ensures u.Node? && u.left.Node? && u.right.Node? && !MinAlone(cmp, u.right)
              && Deletable(cmp, u.right, Min(u.right).key)
    decreases t
  {
    u := Hit(cmp, t, key);
    HitSmaller(cmp, t, key);
    if !Deletable(cmp, u.right, Min(u.right).key) { u := InnermostFailure(cmp, u.right, Min(u.right).key); }
  }

  lemma {:induction false} HitSmaller<N>(cmp: Cmp, t: Tree<N>, key: int)
    ensures t.Node? ==> Hit(cmp, t, key) == t || Hit(cmp, t, key) < t
  {
    if t.Node? && cmp(key, t.item.key) < 0 { HitSmaller(cmp, t.left, key); }
    if t.Node? && cmp(key, t.item.key) > 0 { HitSmaller(cmp, t.right, key); }
  }

  /** With distinct keys exactly the item that compares equal is gone. */
  lemma {:induction false} RemovedExact<N>(cmp: Cmp, s: seq<Item<N>>, key: int, x: Item<N>)
    requires Total(cmp) && Strict(cmp, s)
    ensures x in Removed(cmp, s, key) <==> x in s && cmp(key, x.key) != 0
  {
    if s != [] {
      if cmp(key, s[0].key) == 0 {
        forall i | 0 < i < |s| ensures cmp(key, s[i].key) != 0 { Chain(cmp, key, s[0].key, s[i].key); }
      } else {
        RemovedExact(cmp, s[1..], key, x);
      }
    }
  }

  // ---- Runs ----

  datatype Op<N> = Ins(x: Item<N>) | Del(key: int)

  function Step<N>(cmp: Cmp, t: Tree<N>, op: Op<N>): Tree<N>
    requires Avl(t)
    ensures Avl(Step(cmp, t, op))
  {
    match op
    case Ins(x) => Insert(cmp, t, x)
    case Del(key) => Delete(cmp, t, key)
  }

  function Exec<N>(cmp: Cmp, t: Tree<N>, ops: seq<Op<N>>): Tree<N>
    requires Avl(t)
    ensures Avl(Exec(cmp, t, ops))
    decreases |ops|
  {
    if ops == [] then t else Exec(cmp, Step(cmp, t, ops[0]), ops[1..])
  }

  /** The same run on a plain sorted sequence. */
  function ExecSeq<N>(cmp: Cmp, s: seq<Item<N>>, ops: seq<Op<N>>): seq<Item<N>>
    decreases |ops|
  {
    if ops == [] then s else
    ExecSeq(cmp, match ops[0] case Ins(x) => Inserted(cmp, s, x) case Del(key) => Removed(cmp, s, key), ops[1..])
  }

  /** Only keys that equal no key in the tree are inserted. */
  ghost predicate LegalRun<N>(cmp: Cmp, s: seq<Item<N>>, ops: seq<Op<N>>)
    decreases |ops|
  {
    ops != [] ==>
      match ops[0]
      case Ins(x) => (forall i | 0 <= i < |s| :: cmp(x.key, s[i].key) != 0)
        && LegalRun(cmp, Inserted(cmp, s, x), ops[1..])
      case Del(key) => LegalRun(cmp, Removed(cmp, s, key), ops[1..])
  }

  /** Every run on the tree is the run on a strictly sorted sequence, in-order. */
  lemma {:induction false} RunRefines<N>(cmp: Cmp, t: Tree<N>, ops: seq<Op<N>>)
    requires Total(cmp) && Avl(t) && Strict(cmp, InOrder(t)) && LegalRun(cmp, InOrder(t), ops)
    ensures InOrder(Exec(cmp, t, ops)) == ExecSeq(cmp, InOrder(t), ops)
    ensures Strict(cmp, InOrder(Exec(cmp, t, ops)))
    decreases |ops|
  {
    if ops != [] {
      match ops[0] {
        case Ins(x) =>
          InsertInOrder(cmp, t, x);
          InsertedSorted(cmp, InOrder(t), x);
        case Del(key) =>
          DeleteInOrder(cmp, t, key);
          RemovedStrict(cmp, InOrder(t), key);
      }
      RunRefines(cmp, Step(cmp, t, ops[0]), ops[1..]);
    }
  }

  // ---- Height ----

  function Size<N>(t: Tree<N>): nat { if t.Leaf? then 0 else Size(t.left) + 1 + Size(t.right) }

  function Fib(n: nat): nat { if n < 2 then n else Fib(n - 2) + Fib(n - 1) }

  lemma {:induction false} FibMonotone(m: nat, n: nat)
    requires m <= n
    ensures Fib(m) <= Fib(n)
    decreases n
  {
    if m < n {
      FibMonotone(m, n - 1);
      if n == 1 {} else { assert Fib(n) >= Fib(n - 1); }
    }
  }

  /** A tree of stored height h has at least Fib(h + 2) - 1 nodes. */
  lemma {:induction false} SizeAtLeastFib<N>(t: Tree<N>)
    requires Avl(t)
    ensures H(t) >= 0 && Size(t) + 1 >= Fib(H(t) + 2)
  {
    AvlHeight(t);
    if t.Node? {
      SizeAtLeastFib(t.left);
      SizeAtLeastFib(t.right);
      FibMonotone(t.h, H(t.left) + 2);
      FibMonotone(t.h, H(t.right) + 2);
    }
  }

  function Pow2(n: nat): nat { if n == 0 then 1 else 2 * Pow2(n - 1) }

  lemma {:induction false} FibDoubles(h: nat)
    ensures Fib(h + 2) >= Pow2(h / 2)
    decreases h
  {
    if h >= 2 {
      FibDoubles(h - 2);
      FibMonotone(h, h + 1);
      assert h / 2 - 1 == (h - 2) / 2;
    }
  }

  /** The height, which bounds the recursion of insert and delete, is at most twice log2 of the size. */
  lemma {:induction false} HeightLogarithmic<N>(t: Tree<N>)
    requires Avl(t)
    ensures H(t) >= 0 && Pow2(H(t) / 2) <= Size(t) + 1
  {
    SizeAtLeastFib(t);
    FibDoubles(H(t));
  }

  /** The stored height is the longest path, so no recursion goes deeper. */
  function Depth<N>(t: Tree<N>): nat { if t.Leaf? then 0 else 1 + Max(Depth(t.left), Depth(t.right)) }

  lemma {:induction false} HeightIsDepth<N>(t: Tree<N>)
    requires Avl(t)
    ensures H(t) == Depth(t)
  {
    if t.Node? {
      HeightIsDepth(t.left);
      HeightIsDepth(t.right);
    }
  }
}
