/** The circular doubly linked list that kernel records embed, refining a sequence of nodes. */
module IntrusiveList {

  class ListNode {
    var next: ListNode
    var prev: ListNode

    /** list_init. */
    constructor ()
      ensures next == this && prev == this
    {
      next := this;
      prev := this;
    }
  }

  /** Once around the ring: the head, the nodes, the head again. */
  ghost function Round(head: ListNode, s: seq<ListNode>): (e: seq<ListNode>)
    ensures |e| == |s| + 2
  {
    [head] + s + [head]
  }

  /** Consecutive nodes are linked both ways. */
  ghost predicate Linked(e: seq<ListNode>)
    reads e
  {
    forall i {:trigger e[i].next} {:trigger e[i + 1].prev} | 0 <= i < |e| - 1 ::
      e[i].next == e[i + 1] && e[i + 1].prev == e[i]
  }

  /** The nodes after the head, and none of them twice. */
  ghost predicate Distinct(head: ListNode, s: seq<ListNode>) {
    head !in s && forall i, j | 0 <= i < j < |s| :: s[i] != s[j]
  }

  /** Following `next` from head visits s in order and comes back; following `prev` does so backwards. */
  ghost predicate Ring(head: ListNode, s: seq<ListNode>)
    reads head, s
  {
    Distinct(head, s) && Linked(Round(head, s))
  }

  /** A node that is in no list. */
  ghost predicate Alone(n: ListNode)
    reads n
  {
    n.next == n && n.prev == n
  }

  /** Apart from the two ends, which are the head, a round has no repetition. */
  lemma {:induction false} RoundDistinct(head: ListNode, s: seq<ListNode>, i: nat, j: nat)
    requires Distinct(head, s) && i < j < |s| + 2
    ensures Round(head, s)[i] == Round(head, s)[j] ==> i == 0 && j == |s| + 1
  {
  }

  /** Every node of a ring has both its neighbours in the ring. */
  lemma {:induction false} Neighbours(head: ListNode, s: seq<ListNode>, n: ListNode)
    requires Ring(head, s) && (n == head || n in s)
    ensures n.next == head || n.next in s
    ensures n.prev == head || n.prev in s
  {
    var e := Round(head, s);
    if n == head {
      assert e[0].next == e[1] && e[|s| + 1].prev == e[|s|];
    } else {
      var k :| 0 <= k < |s| && s[k] == n;
      assert e[k + 1].next == e[k + 2] && e[k + 1].prev == e[k];
    }
  }

  /** list_insert: n goes in front of `at`, the node after the first k of the list. */
  method Insert(at: ListNode, n: ListNode, ghost head: ListNode, ghost s: seq<ListNode>, ghost k: nat)
    requires Ring(head, s) && k <= |s| && at == Round(head, s)[k + 1] && n != head && n !in s
    modifies n, at`prev, at.prev`next
    ensures Ring(head, s[..k] + [n] + s[k..])
  {
    ghost var e, s' := Round(head, s), s[..k] + [n] + s[k..];
    assert e[k].next == at && at.prev == e[k];
    n.next := at;
    n.prev := at.prev;
    n.prev.next := n;
    n.next.prev := n;
    ghost var e' := Round(head, s');
    assert e' == e[..k + 1] + [n] + e[k + 1..];
    forall i | 0 <= i < |e'| - 1 ensures e'[i].next == e'[i + 1] && e'[i + 1].prev == e'[i] {
      if i < k {
        RoundDistinct(head, s, i, k);
        RoundDistinct(head, s, i + 1, k + 1);
        assert e[i].next == e[i + 1] && e[i + 1].prev == e[i];
      } else if i > k + 1 {
        RoundDistinct(head, s, k, i - 1);
        RoundDistinct(head, s, k + 1, i);
        assert e[i - 1].next == e[i] && e[i].prev == e[i - 1];
      }
    }
  }

  /** list_remove of the node after the first k of the list, or of a node in no list: it is alone afterwards. */
  method Remove(n: ListNode, ghost head: ListNode, ghost s: seq<ListNode>, ghost k: nat)
    requires Alone(n) || (Ring(head, s) && k < |s| && n == s[k])
    modifies n, n.prev`next, n.next`prev
    ensures Alone(n)
    ensures old(Ring(head, s)) && k < |s| && n == s[k] ==> Ring(head, s[..k] + s[k + 1..])
  {
    ghost var e := Round(head, s);
    ghost var listed := Ring(head, s) && k < |s| && n == s[k];
    assert listed ==> e[k + 1] == n && e[k].next == n && n.prev == e[k] && n.next == e[k + 2] && e[k + 2].prev == n;
    n.prev.next := n.next;
    n.next.prev := n.prev;
    n.next := n;
    n.prev := n;
    if listed {
      ghost var s' := s[..k] + s[k + 1..];
      ghost var e' := Round(head, s');
      assert e' == e[..k + 1] + e[k + 2..];
      forall i | 0 <= i < |e'| - 1 ensures e'[i].next == e'[i + 1] && e'[i + 1].prev == e'[i] {
        if i < k {
          RoundDistinct(head, s, i, k);
          RoundDistinct(head, s, i, k + 1);
          RoundDistinct(head, s, i + 1, k + 1);
          RoundDistinct(head, s, i + 1, k + 2);
          assert e[i].next == e[i + 1] && e[i + 1].prev == e[i];
        } else if i > k {
          RoundDistinct(head, s, k, i + 1);
          RoundDistinct(head, s, k + 1, i + 1);
          RoundDistinct(head, s, k + 1, i + 2);
          RoundDistinct(head, s, k + 2, i + 2);
          assert e[i + 1].next == e[i + 2] && e[i + 2].prev == e[i + 1];
        }
      }
    }
  }

  /** list_append. */
  method Append(head: ListNode, n: ListNode, ghost s: seq<ListNode>)
    requires Ring(head, s) && n != head && n !in s
    modifies n, head`prev, head.prev`next
    ensures Ring(head, s + [n])
  {
    Insert(head, n, head, s, |s|);
    assert s[..|s|] + [n] + s[|s|..] == s + [n];
  }

  /** list_empty. */
  method Empty(head: ListNode, ghost s: seq<ListNode>) returns (b: bool)
    requires Ring(head, s)
    ensures b <==> s == []
  {
    assert Round(head, s)[0].next == Round(head, s)[1];
    b := head == head.next;
  }

  /** foreach: it visits the nodes in order and comes back to the head. */
  method ForEach(head: ListNode, ghost s: seq<ListNode>) returns (visited: seq<ListNode>)
    requires Ring(head, s)
    ensures visited == s
  {
    ghost var e := Round(head, s);
    visited := [];
    assert e[0].next == e[1];
    var node := head.next;
    while node != head
      invariant |visited| <= |s| && visited == s[..|visited|] && node == e[|visited| + 1]
      decreases |s| - |visited|
    {
      assert node == s[|visited|] && e[|visited| + 1].next == e[|visited| + 2];
      visited := visited + [node];
      node := node.next;
    }
    assert |visited| == |s|;
  }

  /** Two lists cannot share the head and differ: the links determine the sequence. */
  lemma {:induction false} RingDetermines(head: ListNode, s: seq<ListNode>, t: seq<ListNode>, k: nat)
    requires Ring(head, s) && Ring(head, t) && k <= |s|
    ensures k <= |t| && s[..k] == t[..k]
  {
    if k > 0 {
      RingDetermines(head, s, t, k - 1);
      var e, f := Round(head, s), Round(head, t);
      assert e[k - 1].next == e[k] && f[k - 1].next == f[k];
      assert e[k - 1] == if k == 1 then head else s[..k - 1][k - 2];
      assert f[k - 1] == if k == 1 then head else t[..k - 1][k - 2];
      assert e[k] == s[k - 1];
      assert s[..k] == s[..k - 1] + [s[k - 1]];
    }
  }
}
