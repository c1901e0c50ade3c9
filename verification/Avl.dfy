/** The intrusive AVL tree of libds: nodes re-linked in place, against AvlSpec. */
module AvlTrees {
  import opened AvlSpec
  import Common

  class AvlNode {
    var left: AvlNode?
    var right: AvlNode?
    var height: int
    const key: int  // what cmp_fn reads from the record that embeds the node

    constructor (key: int)
      ensures this.key == key
    {
      this.key := key;
      this.left, this.right, this.height := null, null, 0;
    }
  }

  type Shape = Tree<AvlNode>

  ghost function Nodes(t: Shape): set<AvlNode> {
    if t.Leaf? then {} else Nodes(t.left) + {t.item.node} + Nodes(t.right)
  }

  /** The links from root spell out t, and no node occurs twice in it. */
  ghost predicate Rep(root: AvlNode?, t: Shape)
    reads Nodes(t)
  {
    match t
    case Leaf => root == null
    case Node(l, x, h, r) =>
      && root == x.node && x.key == x.node.key && x.node.height == h
      && x.node !in Nodes(l) && x.node !in Nodes(r) && Nodes(l) !! Nodes(r)
      && Rep(x.node.left, l) && Rep(x.node.right, r)
  }

  /** node_height. */
  function NodeHeight(node: AvlNode?): int
    reads node
  {
    if node == null then 0 else node.height
  }

  /** balance_factor. */
  function BalanceFactor(node: AvlNode?): int
    reads if node == null then {} else {node, node.left, node.right}
  {
    if node == null then 0 else NodeHeight(node.left) - NodeHeight(node.right)
  }

  lemma {:induction false} BalanceFactorIs(node: AvlNode?, t: Shape)
    requires Rep(node, t)
    ensures BalanceFactor(node) == Bf(t)
  {
    if node != null { assert Rep(node.left, t.left) && Rep(node.right, t.right); }
  }

  /** update_height. */
  method UpdateHeight(node: AvlNode, ghost t: Shape)
    requires Rep(node, t)
    modifies node`height
    ensures t.Node? && Rep(node, Mk(t.left, t.item, t.right))
  {
    assert Rep(node.left, t.left) && Rep(node.right, t.right);
    node.height := 1 + Common.Max(NodeHeight(node.left), NodeHeight(node.right));
    assert Rep(node.left, t.left) && Rep(node.right, t.right);
  }

  /** rotate_left. */
  method RotateLeftAt(node: AvlNode, ghost t: Shape) returns (nr: AvlNode)
    requires Rep(node, t) && t.Node? && t.right.Node?
    modifies t.item.node, t.right.item.node
    ensures Rep(nr, RotateLeft(t)) && Nodes(RotateLeft(t)) == Nodes(t)
  {
    ghost var (a, b, c) := (t.left, t.right.left, t.right.right);
    assert Rep(node.left, a) && Rep(node.right, t.right);
    nr := node.right;
    assert Rep(nr.left, b) && Rep(nr.right, c) && node !in Nodes(c);
    node.right := nr.left;
    nr.left := node;
    assert Rep(node.left, a) && Rep(node.right, b) && Rep(nr.right, c);
    assert allocated(c) && allocated(Nodes(c));
    UpdateHeight(node, Node(a, t.item, t.h, b));
    UpdateHeight(nr, Node(Mk(a, t.item, b), t.right.item, t.right.h, c));
  }

  /** rotate_right. */
  method RotateRightAt(node: AvlNode, ghost t: Shape) returns (nl: AvlNode)
    requires Rep(node, t) && t.Node? && t.left.Node?
    modifies t.item.node, t.left.item.node
    ensures Rep(nl, RotateRight(t)) && Nodes(RotateRight(t)) == Nodes(t)
  {
    ghost var (a, b, c) := (t.left.left, t.left.right, t.right);
    assert Rep(node.left, t.left) && Rep(node.right, c);
    nl := node.left;
    assert Rep(nl.left, a) && Rep(nl.right, b) && node !in Nodes(a);
    node.left := nl.right;
    nl.right := node;
    assert Rep(nl.left, a) && Rep(node.left, b) && Rep(node.right, c);
    assert allocated(a) && allocated(Nodes(a));
    UpdateHeight(node, Node(b, t.item, t.h, c));
    UpdateHeight(nl, Node(a, t.left.item, t.left.h, Mk(b, t.item, c)));
  }

  /** Putting another representation of the left child in place. */
  method SetLeft(node: AvlNode, l: AvlNode?, ghost t: Shape, ghost tl: Shape)
    requires t.Node? && node == t.item.node && t.item.key == node.key && node.height == t.h
    requires Rep(l, tl) && Rep(node.right, t.right)
    requires node !in Nodes(tl) && node !in Nodes(t.right) && Nodes(tl) !! Nodes(t.right)
    modifies node`left
    ensures Rep(node, t.(left := tl))
  {
    node.left := l;
    assert Rep(node.left, tl) && Rep(node.right, t.right);
  }

  /** Putting another representation of the right child in place. */
  method SetRight(node: AvlNode, r: AvlNode?, ghost t: Shape, ghost tr: Shape)
    requires t.Node? && node == t.item.node && t.item.key == node.key && node.height == t.h
    requires Rep(r, tr) && Rep(node.left, t.left)
    requires node !in Nodes(t.left) && node !in Nodes(tr) && Nodes(t.left) !! Nodes(tr)
    modifies node`right
    ensures Rep(node, t.(right := tr))
  {
    node.right := r;
    assert Rep(node.left, t.left) && Rep(node.right, tr);
  }

  /** The left-heavy branch of rebalance. */
  method RotateFromLeft(node: AvlNode, ghost u: Shape) returns (r: AvlNode)
    requires Rep(node, u) && u.left.Node? && (Bf(u.left) < 0 ==> u.left.right.Node?)
    modifies Nodes(u)
    ensures Rep(r, RotateRight(if Bf(u.left) < 0 then u.(left := RotateLeft(u.left)) else u))
  {
    assert Rep(node.left, u.left) && Rep(node.right, u.right);
    BalanceFactorIs(node.left, u.left);
    ghost var v := u;
    if BalanceFactor(node.left) < 0 {
      assert allocated(u.right) && allocated(Nodes(u.right));
      var l := RotateLeftAt(node.left, u.left);
      SetLeft(node, l, u, RotateLeft(u.left));
      v := u.(left := RotateLeft(u.left));
    }
    r := RotateRightAt(node, v);
  }

  /** The right-heavy branch of rebalance. */
  method RotateFromRight(node: AvlNode, ghost u: Shape) returns (r: AvlNode)
    requires Rep(node, u) && u.right.Node? && (Bf(u.right) > 0 ==> u.right.left.Node?)
    modifies Nodes(u)
    ensures Rep(r, RotateLeft(if Bf(u.right) > 0 then u.(right := RotateRight(u.right)) else u))
  {
    assert Rep(node.left, u.left) && Rep(node.right, u.right);
    BalanceFactorIs(node.right, u.right);
    ghost var v := u;
    if BalanceFactor(node.right) > 0 {
      assert allocated(u.left) && allocated(Nodes(u.left));
      var rr := RotateRightAt(node.right, u.right);
      SetRight(node, rr, u, RotateRight(u.right));
      v := u.(right := RotateRight(u.right));
    }
    r := RotateLeftAt(node, v);
  }

  /** rebalance. */
  method RebalanceAt(node: AvlNode?, ghost t: Shape) returns (r: AvlNode?)
    requires Rep(node, t) && CanRebalance(t)
    modifies Nodes(t)
    ensures Rep(r, Rebalance(t))
  {
    if node == null { return null; }
    UpdateHeight(node, t);
    ghost var u := Mk(t.left, t.item, t.right);
    BalanceFactorIs(node, u);
    var bf := BalanceFactor(node);
    r := node;
    if bf > 1 {
      r := RotateFromLeft(node, u);
    } else if bf < -1 {
      r := RotateFromRight(node, u);
    }
  }

  lemma {:induction false} NodesRotateLeft(t: Shape)
    requires t.Node? && t.right.Node?
    ensures Nodes(RotateLeft(t)) == Nodes(t)
  {
    var (a, b, c) := (Nodes(t.left), Nodes(t.right.left), Nodes(t.right.right));
    assert Nodes(RotateLeft(t)) == (a + {t.item.node} + b) + {t.right.item.node} + c;
  }

  lemma {:induction false} NodesRotateRight(t: Shape)
    requires t.Node? && t.left.Node?
    ensures Nodes(RotateRight(t)) == Nodes(t)
  {
    var (a, b, c) := (Nodes(t.left.left), Nodes(t.left.right), Nodes(t.right));
    assert Nodes(RotateRight(t)) == a + {t.left.item.node} + (b + {t.item.node} + c);
  }

  lemma {:induction false} NodesRebalance(t: Shape)
    requires CanRebalance(t)
    ensures Nodes(Rebalance(t)) == Nodes(t)
  {
    if t.Node? {
      var u := Mk(t.left, t.item, t.right);
      if Bf(u) > 1 && Bf(u.left) < 0 { NodesRotateLeft(u.left); }
      if Bf(u) > 1 { NodesRotateRight(if Bf(u.left) < 0 then u.(left := RotateLeft(u.left)) else u); }
      if Bf(u) < -1 && Bf(u.right) > 0 { NodesRotateRight(u.right); }
      if Bf(u) < -1 { NodesRotateLeft(if Bf(u.right) > 0 then u.(right := RotateRight(u.right)) else u); }
    }
  }

  lemma {:induction false} NodesInsert(cmp: Cmp, t: Shape, x: Item<AvlNode>)
    requires Avl(t)
    ensures Nodes(Insert(cmp, t, x)) == Nodes(t) + {x.node}
  {
    if t.Node? {
      var u := if cmp(x.key, t.item.key) < 0 then t.(left := Insert(cmp, t.left, x))
        else t.(right := Insert(cmp, t.right, x));
      if cmp(x.key, t.item.key) < 0 { NodesInsert(cmp, t.left, x); } else { NodesInsert(cmp, t.right, x); }
      RebalanceAvl(u);
      NodesRebalance(u);
    }
  }

  /** avltree_insert. */
  method InsertAt(at: AvlNode?, node: AvlNode?, cmp: Cmp, ghost t: Shape) returns (r: AvlNode?)
    requires Rep(at, t) && Avl(t) && (node != null ==> node !in Nodes(t))
    modifies Nodes(t), node
    ensures node == null ==> r == at && Rep(at, t)
    ensures node != null ==> Rep(r, Insert(cmp, t, Item(node, node.key)))
    decreases t
  {
    if node == null { return at; }
    ghost var x := Item(node, node.key);
    if at == null {
      node.left := null;
      node.right := null;
      node.height := 1;
      return node;
    }
    assert Rep(at.left, t.left) && Rep(at.right, t.right);
    assert allocated(t.left) && allocated(Nodes(t.left)) && allocated(t.right) && allocated(Nodes(t.right));
    if cmp(node.key, at.key) < 0 {
      NodesInsert(cmp, t.left, x);
      var l := InsertAt(at.left, node, cmp, t.left);
      SetLeft(at, l, t, Insert(cmp, t.left, x));
      RebalanceAvl(t.(left := Insert(cmp, t.left, x)));
      r := RebalanceAt(at, t.(left := Insert(cmp, t.left, x)));
    } else {
      NodesInsert(cmp, t.right, x);
      var rr := InsertAt(at.right, node, cmp, t.right);
      SetRight(at, rr, t, Insert(cmp, t.right, x));
      RebalanceAvl(t.(right := Insert(cmp, t.right, x)));
      r := RebalanceAt(at, t.(right := Insert(cmp, t.right, x)));
    }
  }

  // ---- Delete ----

  lemma {:induction false} NodesDelete(cmp: Cmp, t: Shape, key: int)
    requires Avl(t)
    ensures Nodes(Delete(cmp, t, key)) <= Nodes(t)
  {
    if t.Node? {
      AvlHeight(t.left);
      AvlHeight(t.right);
      if cmp(key, t.item.key) < 0 {
        NodesDelete(cmp, t.left, key);
        RebalanceAvl(t.(left := Delete(cmp, t.left, key)));
        NodesRebalance(t.(left := Delete(cmp, t.left, key)));
      } else if cmp(key, t.item.key) > 0 {
        NodesDelete(cmp, t.right, key);
        RebalanceAvl(t.(right := Delete(cmp, t.right, key)));
        NodesRebalance(t.(right := Delete(cmp, t.right, key)));
      } else if t.left.Node? && t.right.Node? {
        MinInTree(t.right);
        NodesDelete(cmp, t.right, Min(t.right).key);
        RebalanceAvl(t.(item := Min(t.right), right := Delete(cmp, t.right, Min(t.right).key)));
        NodesRebalance(t.(item := Min(t.right), right := Delete(cmp, t.right, Min(t.right).key)));
      }
    }
  }

  lemma {:induction false} MinInTree(t: Shape)
    requires t.Node?
    ensures Min(t).node in Nodes(t)
  {
    if t.left.Node? { MinInTree(t.left); }
  }

  /** The nodes of an in-order sequence. */
  ghost function NodeSet(s: seq<Item<AvlNode>>): set<AvlNode> { set i | 0 <= i < |s| :: s[i].node }

  lemma {:induction false} NodeSetConcat(a: seq<Item<AvlNode>>, x: Item<AvlNode>, b: seq<Item<AvlNode>>)
    ensures NodeSet(a + [x] + b) == NodeSet(a) + {x.node} + NodeSet(b)
  {
    Parts(a, x, b);
    var s := a + [x] + b;
    forall n ensures n in NodeSet(s) <==> n in NodeSet(a) || n == x.node || n in NodeSet(b) {
      if n in NodeSet(a) {
        var i :| 0 <= i < |a| && a[i].node == n;
        assert s[i].node == n;
      }
      if n in NodeSet(b) {
        var i :| 0 <= i < |b| && b[i].node == n;
        assert s[|a| + 1 + i].node == n;
      }
      assert s[|a|] == x;
    }
  }

  /** A represented tree lists each of its nodes once. */
  lemma {:induction false} RepInOrder(root: AvlNode?, t: Shape)
    requires Rep(root, t)
    ensures NodeSet(InOrder(t)) == Nodes(t) && DistinctNodes(InOrder(t))
  {
    if t.Node? {
      var (a, x, b) := (InOrder(t.left), t.item, InOrder(t.right));
      RepInOrder(root.left, t.left);
      RepInOrder(root.right, t.right);
      NodeSetConcat(a, x, b);
      Parts(a, x, b);
      var s := a + [x] + b;
      forall i, j | 0 <= i < j < |s| ensures s[i].node != s[j].node {
        assert i < |a| ==> s[i] == a[i] && a[i].node in NodeSet(a);
        assert j > |a| ==> s[j] == b[j - |a| - 1] && b[j - |a| - 1].node in NodeSet(b);
        assert i > |a| ==> s[i] == b[i - |a| - 1];
        assert j < |a| ==> s[j] == a[j];
      }
    }
  }

  /** The successor leaves the right subtree, before it takes the deleted node's place, exactly when it is alone. */
  lemma {:induction false} SuccessorUnlinkedIff(cmp: Cmp, root: AvlNode, t: Shape)
    requires Rep(root, t) && Total(cmp) && Avl(t) && Sorted(cmp, InOrder(t))
    ensures Min(t).node in Nodes(t)
    ensures Min(t).node in Nodes(Delete(cmp, t, Min(t).key)) <==> !MinAlone(cmp, t)
  {
    MinInTree(t);
    RepInOrder(root, t);
    MinDeletedIff(cmp, t);
    var (s, d, m) := (InOrder(t), InOrder(Delete(cmp, t, Min(t).key)), Min(t));
    NodesAreInOrder(Delete(cmp, t, m.key));
    MinIsFirst(t);
    if MinAlone(cmp, t) { HeadGone(s); } else { NodeListed(d, m); }
  }

  lemma {:induction false} HeadGone(s: seq<Item<AvlNode>>)
    requires DistinctNodes(s) && s != []
    ensures s[0].node !in NodeSet(s[1..])
  {
    assert forall i | 0 <= i < |s[1..]| :: s[1..][i] == s[i + 1];
  }

  lemma {:induction false} NodeListed(s: seq<Item<AvlNode>>, m: Item<AvlNode>)
    requires m in s
    ensures m.node in NodeSet(s)
  {
    var i :| 0 <= i < |s| && s[i] == m;
    assert s[i].node in NodeSet(s);
  }

  lemma {:induction false} NodesAreInOrder(t: Shape)
    ensures NodeSet(InOrder(t)) == Nodes(t)
  {
    if t.Node? {
      NodesAreInOrder(t.left);
      NodesAreInOrder(t.right);
      NodeSetConcat(InOrder(t.left), t.item, InOrder(t.right));
    }
  }

  /** find_min. */
  method FindMin(root: AvlNode, ghost t: Shape) returns (node: AvlNode)
    requires Rep(root, t)
    ensures t.Node? && node == Min(t).node && node.key == Min(t).key
  {
    node := root;
    ghost var u := t;
    while node.left != null
      invariant Rep(node, u) && u.Node? && Min(u) == Min(t)
      decreases u
    {
      assert Rep(node.left, u.left);
      node, u := node.left, u.left;
    }
    assert Rep(node.left, u.left);
  }

  /** avltree_delete, when the node found lacks a child or its successor is alone among its equals. */
  method DeleteAt(at: AvlNode?, node: AvlNode?, cmp: Cmp, ghost t: Shape) returns (r: AvlNode?)
    requires Rep(at, t) && Avl(t) && Total(cmp) && Sorted(cmp, InOrder(t))
    requires node != null ==> Deletable(cmp, t, node.key)
    modifies Nodes(t)
    ensures node == null ==> r == at && Rep(at, t)
    ensures node != null ==> Rep(r, Delete(cmp, t, node.key))
    decreases t
  {
    if at == null || node == null { return at; }
    assert Rep(at.left, t.left) && Rep(at.right, t.right);
    assert allocated(t.left) && allocated(Nodes(t.left)) && allocated(t.right) && allocated(Nodes(t.right));
    SortedParts(cmp, InOrder(t.left), t.item, InOrder(t.right));
    if cmp(node.key, at.key) < 0 {
      NodesDelete(cmp, t.left, node.key);
      var l := DeleteAt(at.left, node, cmp, t.left);
      SetLeft(at, l, t, Delete(cmp, t.left, node.key));
      RebalanceAvl(t.(left := Delete(cmp, t.left, node.key)));
      r := RebalanceAt(at, t.(left := Delete(cmp, t.left, node.key)));
    } else if cmp(node.key, at.key) > 0 {
      NodesDelete(cmp, t.right, node.key);
      var rr := DeleteAt(at.right, node, cmp, t.right);
      SetRight(at, rr, t, Delete(cmp, t.right, node.key));
      RebalanceAvl(t.(right := Delete(cmp, t.right, node.key)));
      r := RebalanceAt(at, t.(right := Delete(cmp, t.right, node.key)));
    } else if at.left == null {
      return at.right;
    } else if at.right == null {
      return at.left;
    } else {
      r := ReplaceBySuccessor(at, cmp, t);
    }
  }

  /** The two-child case: the successor node itself is re-linked in place of the deleted one. */
  method ReplaceBySuccessor(at: AvlNode, cmp: Cmp, ghost t: Shape) returns (r: AvlNode?)
    requires Rep(at, t) && Avl(t) && Total(cmp) && Sorted(cmp, InOrder(t))
    requires t.left.Node? && t.right.Node? && MinAlone(cmp, t.right)
    modifies Nodes(t)
    ensures CanRebalance(t.(item := Min(t.right), right := Delete(cmp, t.right, Min(t.right).key)))
    ensures Rep(r, Rebalance(t.(item := Min(t.right), right := Delete(cmp, t.right, Min(t.right).key))))
    decreases t, 0
  {
    SortedParts(cmp, InOrder(t.left), t.item, InOrder(t.right));
    assert Rep(at.left, t.left) && Rep(at.right, t.right);
    assert allocated(t.left) && allocated(Nodes(t.left)) && allocated(t.right) && allocated(Nodes(t.right));
    var left, right := at.left, at.right;
    var succ := FindMin(right, t.right);
    ghost var d := Delete(cmp, t.right, Min(t.right).key);
    NodesDelete(cmp, t.right, Min(t.right).key);
    SuccessorUnlinkedIff(cmp, right, t.right);
    MinAloneDeletable(cmp, t.right);
    right := DeleteAt(right, succ, cmp, t.right);
    Relink(succ, left, right, t.left, d);
    RebalanceAvl(t.(item := Min(t.right), right := d));
    r := RebalanceAt(succ, Node(t.left, Min(t.right), succ.height, d));
  }

  /** succ->left = left; succ->right = right. */
  method Relink(succ: AvlNode, left: AvlNode?, right: AvlNode?, ghost tl: Shape, ghost tr: Shape)
    requires Rep(left, tl) && Rep(right, tr)
    requires succ !in Nodes(tl) && succ !in Nodes(tr) && Nodes(tl) !! Nodes(tr)
    modifies succ`left, succ`right
    ensures Rep(succ, Node(tl, Item(succ, succ.key), succ.height, tr))
  {
    succ.left := left;
    succ.right := right;
    assert Rep(succ.left, tl) && Rep(succ.right, tr);
  }

  // ---- When the condition fails ----

  type Links = map<AvlNode, (AvlNode?, AvlNode?)>

  /** The recorded links from root spell out d. */
  ghost predicate Spelled(links: Links, root: AvlNode?, d: Shape) {
    match d
    case Leaf => root == null
    case Node(l, x, _, r) =>
      root == x.node && x.node in links && Spelled(links, links[x.node].0, l) && Spelled(links, links[x.node].1, r)
  }

  lemma {:induction false} RepSpelled(links: Links, root: AvlNode?, d: Shape)
    requires Rep(root, d) && forall n | n in Nodes(d) :: n in links && links[n] == (n.left, n.right)
    ensures Spelled(links, root, d)
  {
    if d.Node? {
      RepSpelled(links, root.left, d.left);
      RepSpelled(links, root.right, d.right);
    }
  }

  /** A node that recorded links lead to is still reached when no links but its own have changed. */
  lemma {:induction false} StillReached(links: Links, root: AvlNode?, d: Shape, u: Shape, succ: AvlNode)
    requires Spelled(links, root, d) && succ in Nodes(d) && Rep(root, u)
    requires forall n | n in Nodes(d) && n != succ :: n in links && links[n] == (n.left, n.right)
    ensures succ in Nodes(u)
    decreases d
  {
    if root != succ {
      if succ in Nodes(d.left) {
        StillReached(links, root.left, d.left, u.left, succ);
      } else {
        StillReached(links, root.right, d.right, u.right, succ);
      }
    }
  }

  lemma {:induction false} CircleNoTree(links: Links, n: AvlNode, d: Shape, t: Shape)
    requires Spelled(links, n.right, d) && n in Nodes(d)
    requires forall m | m in Nodes(d) && m != n :: m in links && links[m] == (m.left, m.right)
    ensures !Rep(n, t)
  {
    if Rep(n, t) {
      assert Rep(n.right, t.right);
      StillReached(links, n.right, d, t.right, n);
    }
  }

  /** The left-heavy branch of rebalance, whatever hangs on the right: the node ends up below its left child. */
  method RotateCircle(node: AvlNode, ghost tl: Shape) returns (r: AvlNode)
    requires Rep(node.left, tl) && Avl(tl) && tl.Node? && node !in Nodes(tl)
    modifies node, Nodes(tl)
    ensures r in Nodes(tl) && r.right == node && node.right == old(node.right)
  {
    BalanceFactorIs(node.left, tl);
    ghost var u := tl;
    if BalanceFactor(node.left) < 0 {
      AvlHeight(tl.left);
      assert tl.right.Node? && tl.right.item.node in Nodes(tl);
      var l := RotateLeftAt(node.left, tl);
      node.left := l;
      u := RotateLeft(tl);
    }
    // rotate_right(node)
    r := node.left;
    assert r == u.item.node && r in Nodes(u);
    node.left := r.right;
    r.right := node;
    node.height := 1 + Common.Max(NodeHeight(node.left), NodeHeight(node.right));
    r.height := 1 + Common.Max(NodeHeight(r.left), NodeHeight(r.right));
  }

  /** rebalance of a node that its own right links lead back to: the result is no tree either. */
  method RebalanceCircle(node: AvlNode, ghost tl: Shape, ghost d: Shape, ghost links: Links) returns (r: AvlNode)
    requires Rep(node.left, tl) && Avl(tl) && tl.Node? && node !in Nodes(tl)
    requires Spelled(links, node.right, d) && node in Nodes(d) && Nodes(d) !! Nodes(tl)
    requires forall n | n in Nodes(d) && n != node :: n in links && links[n] == (n.left, n.right)
    requires NodeHeight(node.right) == H(d) <= H(tl) + 1
    modifies node, Nodes(tl)
    ensures forall t': Shape :: !Rep(r, t')
  {
    node.height := 1 + Common.Max(NodeHeight(node.left), NodeHeight(node.right));
    assert NodeHeight(node.left) == H(tl);
    var bf := BalanceFactor(node);
    r := node;
    if bf > 1 {
      r := RotateCircle(node, tl);
      forall t': Shape ensures !Rep(r, t') { CircleNoTree(links, node, d, if t'.Node? then t'.right else t'); }
    } else if bf < -1 {
      // Only a node that is its own right child looks right-heavy; rotate_left(node) makes it its own left child.
      assert node.right == node && BalanceFactor(node.right) == bf;
      node.right := node.left;
      node.left := node;
      node.height := 1 + Common.Max(NodeHeight(node.left), NodeHeight(node.right));
      node.height := 1 + Common.Max(NodeHeight(node.left), NodeHeight(node.right));
      forall t': Shape ensures !Rep(r, t') { SelfLinkNoTree(node, t'); }
    } else {
      forall t': Shape ensures !Rep(r, t') { CircleNoTree(links, node, d, t'); }
    }
  }

  /** The inner deletion: not the successor but an equal node leaves the tree. */
  method UnlinkEqual(right: AvlNode, cmp: Cmp, ghost tr: Shape) returns (succ: AvlNode, rest: AvlNode?)
    requires Rep(right, tr) && Avl(tr) && Total(cmp) && Sorted(cmp, InOrder(tr))
    requires !MinAlone(cmp, tr) && Deletable(cmp, tr, Min(tr).key)
    modifies Nodes(tr)
    ensures var d := Delete(cmp, tr, Min(tr).key);
      Rep(rest, d) && Nodes(d) <= Nodes(tr) && succ in Nodes(d)
  {
    assert allocated(tr) && allocated(Nodes(tr));
    succ := FindMin(right, tr);
    NodesDelete(cmp, tr, Min(tr).key);
    SuccessorUnlinkedIff(cmp, right, tr);
    rest := DeleteAt(right, succ, cmp, tr);
  }

  /** Up to `at = succ`: d is what the inner deletion leaves on the right, and succ is in it. */
  method LinkCircle(at: AvlNode, cmp: Cmp, ghost t: Shape, ghost d: Shape) returns (succ: AvlNode, ghost links: Links)
    requires Rep(at, t) && Avl(t) && Total(cmp) && Sorted(cmp, InOrder(t)) && t.left.Node? && t.right.Node?
    requires !MinAlone(cmp, t.right) && Deletable(cmp, t.right, Min(t.right).key)
    requires d == Delete(cmp, t.right, Min(t.right).key)
    modifies Nodes(t)
    ensures Nodes(d) <= Nodes(t.right) && succ in Nodes(d)
    ensures Rep(succ.left, t.left) && Spelled(links, succ.right, d) && NodeHeight(succ.right) == H(d)
    ensures forall n | n in Nodes(d) && n != succ :: n in links && links[n] == (n.left, n.right)
  {
    SortedParts(cmp, InOrder(t.left), t.item, InOrder(t.right));
    assert Rep(at.left, t.left) && Rep(at.right, t.right);
    assert allocated(t.left) && allocated(Nodes(t.left)) && allocated(t.right) && allocated(Nodes(t.right));
    var left, right := at.left, at.right;
    succ, right := UnlinkEqual(right, cmp, t.right);
    links := map n | n in Nodes(d) :: (n.left, n.right);
    RepSpelled(links, right, d);
    assert NodeHeight(right) == H(d);
    succ.left := left;
    succ.right := right;
  }

  /**
   avltree_delete of a node with two children whose successor is not alone: the inner deletion
   unlinks an equal node, succ stays below `right`, the links run in a circle, and rebalancing
   leaves them so. By InnermostFailure some call does this whenever Deletable fails.
   */
  method CloseCircle(at: AvlNode, cmp: Cmp, ghost t: Shape) returns (r: AvlNode)
    requires Rep(at, t) && Avl(t) && Total(cmp) && Sorted(cmp, InOrder(t)) && t.left.Node? && t.right.Node?
    requires !MinAlone(cmp, t.right) && Deletable(cmp, t.right, Min(t.right).key)
    modifies Nodes(t)
    ensures forall t': Shape :: !Rep(r, t')
  {
    ghost var d := Delete(cmp, t.right, Min(t.right).key);
    var succ, links := LinkCircle(at, cmp, t, d);
    assert succ in Nodes(t.right);
    r := RebalanceCircle(succ, t.left, d, links);
  }

  /**
   The whole call on the smallest such tree: deleting a, with b on its left and d above an equal c
   on its right, links c to itself. d is lost, and every later descent to the right of c is endless.
   */
  method EqualKeysSelfLink(a: AvlNode, b: AvlNode, c: AvlNode, d: AvlNode, cmp: Cmp, ghost t: Shape)
    returns (r: AvlNode)
    requires t == Node(One(Item(b, b.key)), Item(a, a.key), 3, EqualPair(Item(c, c.key), Item(d, d.key)))
    requires Rep(a, t) && Total(cmp) && Sorted(cmp, InOrder(t)) && cmp(c.key, d.key) == 0
    modifies a, b, c, d
    ensures r == c && c.right == c && c.left == b
    ensures forall t': Shape :: !Rep(r, t')
  {
    assert Rep(a.left, t.left) && Rep(a.right, t.right) && Rep(d.left, t.right.left) && Rep(d.right, t.right.right);
    assert Rep(c.left, t.right.left.left) && Rep(c.right, t.right.left.right);
    SortedParts(cmp, InOrder(t.left), t.item, InOrder(t.right));
    var left, right := a.left, a.right;
    var succ := FindMin(right, t.right);
    assert allocated(t.right) && allocated(Nodes(t.right));
    right := DeleteAt(right, succ, cmp, t.right);
    succ.left := left;
    succ.right := right;
    // rebalance(succ)
    succ.height := 1 + Common.Max(NodeHeight(succ.left), NodeHeight(succ.right));
    var bf := BalanceFactor(succ);
    assert -1 <= bf <= 1;
    r := succ;
    forall t': Shape ensures !Rep(r, t') { SelfLinkNoTree(r, t'); }
  }

  lemma {:induction false} SelfLinkNoTree(n: AvlNode, t: Shape)
    requires n.right == n || n.left == n
    ensures !Rep(n, t)
  {
  }

  // ---- Which nodes are linked afterwards ----

  lemma {:induction false} RepKeys(root: AvlNode?, t: Shape)
    requires Rep(root, t)
    ensures forall i | 0 <= i < |InOrder(t)| :: InOrder(t)[i].key == InOrder(t)[i].node.key
  {
    if t.Node? {
      RepKeys(root.left, t.left);
      RepKeys(root.right, t.right);
      var (a, b) := (InOrder(t.left), InOrder(t.right));
      forall i | 0 <= i < |InOrder(t)| ensures InOrder(t)[i].key == InOrder(t)[i].node.key {
        assert InOrder(t)[i] == if i < |a| then a[i] else if i == |a| then t.item else b[i - |a| - 1];
      }
    }
  }

  /** Deletion unlinks exactly the node whose key compares equal; every other node stays linked. */
  lemma {:induction false} DeleteConserves(cmp: Cmp, root: AvlNode?, t: Shape, key: int, n: AvlNode)
    requires Rep(root, t) && Total(cmp) && Avl(t) && Strict(cmp, InOrder(t))
    ensures n in Nodes(Delete(cmp, t, key)) <==> n in Nodes(t) && cmp(key, n.key) != 0
  {
    var s, s' := InOrder(t), Removed(cmp, InOrder(t), key);
    DeleteInOrder(cmp, t, key);
    NodesAreInOrder(t);
    NodesAreInOrder(Delete(cmp, t, key));
    RepKeys(root, t);
    RemovedExact(cmp, s, key, Item(n, n.key));
    assert n in NodeSet(s) <==> Item(n, n.key) in s;
    if n in NodeSet(s') {
      var i :| 0 <= i < |s'| && s'[i].node == n;
      RemovedExact(cmp, s, key, s'[i]);
    }
  }

  /** With equal keys allowed: under the condition, deletion unlinks the node found, if any, and no other. */
  lemma {:induction false} DeleteUnlinks(cmp: Cmp, root: AvlNode?, t: Shape, key: int, n: AvlNode)
    requires Rep(root, t) && Total(cmp) && Avl(t) && Sorted(cmp, InOrder(t)) && Deletable(cmp, t, key)
    ensures var u := Hit(cmp, t, key);
      n in Nodes(Delete(cmp, t, key)) <==> n in Nodes(t) && (u.Node? ==> n != u.item.node)
  {
    var u := Hit(cmp, t, key);
    RepInOrder(root, t);
    NodesAreInOrder(Delete(cmp, t, key));
    if u.Leaf? {
      DeleteMissing(cmp, t, key);
    } else {
      DeleteExactIff(cmp, t, key);
      HitIn(cmp, t, key);
      WithoutNodes(InOrder(t), u.item, n);
    }
  }

  lemma {:induction false} WithoutNodes(s: seq<Item<AvlNode>>, x: Item<AvlNode>, n: AvlNode)
    requires DistinctNodes(s) && x in s
    ensures n in NodeSet(Common.Without(s, x)) <==> n in NodeSet(s) && n != x.node
  {
    var rest, w := s[1..], Common.Without(s[1..], x);
    assert s == [] + [s[0]] + rest;
    NodeSetConcat([], s[0], rest);
    assert forall i | 0 <= i < |rest| :: rest[i] == s[i + 1];
    assert NodeSet([]) == {};
    if s[0] != x {
      WithoutNodes(rest, x, n);
      NodeSetConcat([], s[0], w);
      assert [] + [s[0]] + w == [s[0]] + w;
    }
  }
}
