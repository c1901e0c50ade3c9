/** The round-robin scheduler over two intrusive lists, refining the queues of SchedSpec. */
module Scheduling {
  import opened Common
  import opened IntrusiveList
  import opened SchedSpec

  /** A task_t is its first field, the list node it is queued by. */
  type Task = ListNode

  class Scheduler {
    const running: ListNode
    const waiting: ListNode
    const idle: Task
    var curr: Task
    var ready: bool
    ghost var q: Queues<Task>

    /** The two rings hold the two queues, and share nothing. */
    ghost predicate Valid()
      reads this, running, waiting, q.run, q.wait
    {
      && Ring(running, q.run) && Ring(waiting, q.wait) && Inv(q)
      && running != waiting && running !in q.wait && waiting !in q.run
      && IsTask(idle) && IsTask(curr)
    }

    ghost predicate IsTask(t: Task) { t != running && t != waiting }

    /** t is in a queue, or linked to itself only. */
    ghost predicate Known(t: Task)
      reads this, t
    {
      IsTask(t) && (t in q.run || t in q.wait || Alone(t))
    }

    constructor (idle: Task)
      ensures Valid() && fresh(running) && fresh(waiting)
      ensures q == Queues([], []) && curr == idle && this.idle == idle && !ready
    {
      var r := new ListNode();
      var w := new ListNode();
      this.running, this.waiting, this.idle, this.curr, this.ready := r, w, idle, idle, false;
      q := Queues([], []);
    }

    /** sched_schedule. */
    method Schedule(t: Task)
      requires Valid() && IsTask(t) && Legal(q, Op.Schedule(t))
      modifies this`q, running, q.run, t
      ensures Valid() && q == Step(old(q), Op.Schedule(t))
    {
      assert Round(running, q.run)[|q.run| + 1] == running;
      StepInv(q, Op.Schedule(t));
      Neighbours(running, q.run, running);
      Append(running, t, q.run);
      q := q.(run := q.run + [t]);
    }

    /** sched_unschedule, from whichever queue t is in. */
    method Unschedule(t: Task)
      requires Valid() && Known(t)
      modifies this`q, running, waiting, q.run, q.wait, t
      ensures Valid() && q == Step(old(q), Op.Unschedule(t)) && Alone(t)
    {
      WithoutSubset(q, t);
      StepInv(q, Op.Unschedule(t));
      ghost var k := Position(q.run, t);
      ghost var l := Position(q.wait, t);
      Unlink(t, running, q.run, k, waiting, q.wait, l);
      q := Step(q, Op.Unschedule(t));
    }

    /** sched_select_task: the head of the running queue, moved to its tail. */
    method SelectTask() returns (t: Task)
      requires Valid()
      modifies this`q, running, waiting, q.run, q.wait
      ensures Valid() && q == Step(old(q), Select)
      ensures t == if old(q).run == [] then idle else old(q).run[0]
    {
      var none := Empty(running, q.run);
      if none {
        t := idle;
      } else {
        assert Round(running, q.run)[0].next == q.run[0];
        t := running.next;
        Unschedule(t);
        WithoutSubset(old(q), t);
        Schedule(t);
      }
    }

    /** sched_switch: nothing before the scheduler is ready. */
    method Switch()
      requires Valid()
      modifies this`q, this`curr, running, waiting, q.run, q.wait
      ensures Valid() && q == if ready then Step(old(q), Select) else old(q)
      ensures curr == if !ready then old(curr) else if old(q).run == [] then idle else old(q).run[0]
    {
      if !ready { return; }
      var t := SelectTask();
      if curr != t { curr := t; }
    }

    /** task_sleep. */
    method SleepCurrent()
      requires Valid() && Known(curr)
      modifies this`q, running, waiting, q.run, q.wait, curr
      ensures Valid() && q == Step(old(q), Op.Sleep(curr))
    {
      StepInv(q, Op.Sleep(curr));
      Unschedule(curr);
      WithoutSubset(old(q), curr);
      Neighbours(waiting, q.wait, waiting);
      Append(waiting, curr, q.wait);
      q := q.(wait := q.wait + [curr]);
    }

    /** sched_unschedule and sched_schedule: t becomes the last of the running queue. */
    method Requeue(t: Task)
      requires Valid() && (t in q.run || t in q.wait)
      modifies this`q, running, waiting, q.run, q.wait
      ensures Valid() && q == Step(Step(old(q), Op.Unschedule(t)), Op.Schedule(t))
    {
      Unschedule(t);
      WithoutSubset(old(q), t);
      assert forall i | 0 <= i < |q.run| :: q.run[i] in old(q.run);
      Schedule(t);
    }

    /** task_wake_all_up. */
    method WakeAllUp()
      requires Valid()
      modifies this`q, running, waiting, q.run, q.wait
      ensures Valid() && q == Step(old(q), WakeAll)
    {
      ghost var i: nat, waiters := 0, q.wait;
      assert Round(waiting, waiters)[0].next == Round(waiting, waiters)[1];
      var node := waiting.next;
      while node != waiting
        invariant Valid() && i <= |waiters| && node == Round(waiting, waiters)[i + 1]
        invariant q == Queues(old(q).run + waiters[..i], waiters[i..])
        decreases |waiters| - i
      {
        assert node == waiters[i] == q.wait[0];
        assert Round(waiting, q.wait)[1].next == Round(waiting, q.wait)[2];
        var next := node.next;
        Requeue(node);
        WokenOne(old(q).run, waiters, i);
        node, i := next, i + 1;
      }
      assert i == |waiters|;
    }
  }

  /** s without position k, or all of s when there is no such position. */
  ghost function Cut<T>(s: seq<T>, k: nat): seq<T> {
    if k < |s| then s[..k] + s[k + 1..] else s
  }

  /** list_remove of t from whichever of two rings it is in, or from neither. */
  method Unlink(t: ListNode, ghost h1: ListNode, ghost s1: seq<ListNode>, ghost k1: nat,
                ghost h2: ListNode, ghost s2: seq<ListNode>, ghost k2: nat)
    requires Ring(h1, s1) && Ring(h2, s2) && h1 != h2 && h1 !in s2 && h2 !in s1 && t != h1 && t != h2
    requires forall x | x in s1 :: x !in s2
    requires if t in s1 then k1 < |s1| && s1[k1] == t else k1 == |s1|
    requires if t in s2 then k2 < |s2| && s2[k2] == t else k2 == |s2|
    requires t in s1 || t in s2 || Alone(t)
    modifies h1, h2, s1, s2, t
    ensures Ring(h1, Cut(s1, k1)) && Ring(h2, Cut(s2, k2)) && Alone(t)
  {
    if t in s1 { Neighbours(h1, s1, t); }
    if t in s2 { Neighbours(h2, s2, t); }
    ghost var h, s, k := if t in s1 then h1 else h2, if t in s1 then s1 else s2, if t in s1 then k1 else k2;
    Remove(t, h, s, k);
  }

  /** Removing t leaves t in neither queue, and nothing in a queue that was not there. */
  lemma {:induction false} WithoutSubset<T>(q: Queues<T>, t: T)
    requires Inv(q)
    ensures t !in Without(q.run, t) && t !in Without(q.wait, t)
    ensures forall x | x in Without(q.run, t) :: x in q.run
    ensures forall x | x in Without(q.wait, t) :: x in q.wait
    ensures t !in q.run ==> Without(q.run, t) == q.run
    ensures t !in q.wait ==> Without(q.wait, t) == q.wait
  {
    WithoutApart(q, t);
    WithoutIn(q.run, t, t);
    WithoutIn(q.wait, t, t);
    forall x | x in Without(q.run, t) ensures x in q.run { WithoutIn(q.run, t, x); }
    forall x | x in Without(q.wait, t) ensures x in q.wait { WithoutIn(q.wait, t, x); }
  }

  lemma {:induction false} Position<T>(s: seq<T>, t: T) returns (k: nat)
    requires NoDup(s)
    ensures if t in s then k < |s| && s[k] == t else k == |s|
    ensures Cut(s, k) == Without(s, t)
  {
    WithoutIn(s, t, t);
    k := |s|;
    if t in s {
      k :| k < |s| && s[k] == t;
      WithoutIs(s, t, k);
    }
  }

  /** Waking the waiter at i moves it from the front of the waiting queue to the end of the running one. */
  lemma {:induction false} WokenOne<T>(run: seq<T>, waiters: seq<T>, i: nat)
    requires i < |waiters| && Inv(Queues(run + waiters[..i], waiters[i..]))
    ensures Step(Step(Queues(run + waiters[..i], waiters[i..]), Op.Unschedule(waiters[i])), Op.Schedule(waiters[i]))
         == Queues(run + waiters[..i + 1], waiters[i + 1..])
  {
    WithoutIn(run + waiters[..i], waiters[i], waiters[i]);
    assert waiters[i] == waiters[i..][0];
    assert waiters[i..][1..] == waiters[i + 1..];
    assert run + waiters[..i] + [waiters[i]] == run + waiters[..i + 1];
  }
}
