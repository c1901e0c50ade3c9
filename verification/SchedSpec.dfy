/** The scheduler's two queues as sequences, and how long a queued task can wait. */
module SchedSpec {
  import opened Common

  datatype Queues<T> = Queues(run: seq<T>, wait: seq<T>)

  /** No task is queued twice, in one queue or in both. */
  ghost predicate Inv<T>(q: Queues<T>) {
    NoDup(q.run) && NoDup(q.wait) && forall t | t in q.run :: t !in q.wait
  }

  datatype Op<T> = Select | Schedule(t: T) | Unschedule(t: T) | Sleep(t: T) | WakeAll

  function Step<T(==)>(q: Queues<T>, op: Op<T>): Queues<T> {
    match op
    case Select => if q.run == [] then q else q.(run := q.run[1..] + [q.run[0]])
    case Schedule(t) => q.(run := q.run + [t])
    case Unschedule(t) => Queues(Without(q.run, t), Without(q.wait, t))
    case Sleep(t) => Queues(Without(q.run, t), Without(q.wait, t) + [t])
    case WakeAll => Queues(q.run + q.wait, [])
  }

  /** Only tasks in no queue are scheduled. */
  predicate Legal<T(==)>(q: Queues<T>, op: Op<T>) {
    op.Schedule? ==> op.t !in q.run && op.t !in q.wait
  }

  ghost predicate LegalRun<T>(q: Queues<T>, ops: seq<Op<T>>)
    decreases |ops|
  {
    ops != [] ==> Legal(q, ops[0]) && LegalRun(Step(q, ops[0]), ops[1..])
  }

  function Exec<T(==)>(q: Queues<T>, ops: seq<Op<T>>): Queues<T>
    decreases |ops|
  {
    if ops == [] then q else Exec(Step(q, ops[0]), ops[1..])
  }

  lemma {:induction false} WithoutIs<T>(s: seq<T>, t: T, k: nat)
    requires k < |s| && s[k] == t && t !in s[..k]
    ensures Without(s, t) == s[..k] + s[k + 1..]
  {
    if k > 0 {
      assert s[0] == s[..k][0];
      assert s[1..][..k - 1] == s[..k][1..] && s[1..][k..] == s[k + 1..];
      WithoutIs(s[1..], t, k - 1);
      assert s[..k] == [s[0]] + s[..k][1..];
    }
  }

  lemma {:induction false} WithoutIn<T>(s: seq<T>, t: T, x: T)
    ensures x in Without(s, t) ==> x in s
    ensures x != t && x in s ==> x in Without(s, t)
    ensures t !in s ==> Without(s, t) == s
  {
    if s != [] {
      WithoutIn(s[1..], t, x);
      assert s == [s[0]] + s[1..];
      if s[0] != t { assert Without(s, t) == [s[0]] + Without(s[1..], t); }
    }
  }

  lemma {:induction false} NoDupTail<T>(s: seq<T>)
    requires s != []
    ensures NoDup(s) <==> s[0] !in s[1..] && NoDup(s[1..])
  {
    assert forall i | 0 <= i < |s| - 1 :: s[1..][i] == s[i + 1];
    if s[0] !in s[1..] && NoDup(s[1..]) {
      forall i, j | 0 <= i < j < |s| ensures s[i] != s[j] { assert s[j] == s[1..][j - 1]; }
    }
  }

  lemma {:induction false} WithoutNoDup<T>(s: seq<T>, t: T)
    requires NoDup(s)
    ensures NoDup(Without(s, t)) && t !in Without(s, t)
  {
    if s != [] {
      NoDupTail(s);
      WithoutNoDup(s[1..], t);
      if s[0] != t {
        WithoutIn(s[1..], t, s[0]);
        var w := [s[0]] + Without(s[1..], t);
        assert w[1..] == Without(s[1..], t);
        NoDupTail(w);
      }
    }
  }

  lemma {:induction false} WithoutApart<T>(q: Queues<T>, t: T)
    requires Inv(q)
    ensures Inv(Queues(Without(q.run, t), Without(q.wait, t)))
    ensures t !in Without(q.run, t) && t !in Without(q.wait, t)
  {
    WithoutNoDup(q.run, t);
    WithoutNoDup(q.wait, t);
    forall x | x in Without(q.run, t) ensures x !in Without(q.wait, t) {
      WithoutIn(q.run, t, x);
      WithoutIn(q.wait, t, x);
    }
  }

  /** Every run of legal operations keeps each task in at most one place of one queue. */
  lemma {:induction false} RunInv<T>(q: Queues<T>, ops: seq<Op<T>>)
    requires Inv(q) && LegalRun(q, ops)
    ensures Inv(Exec(q, ops))
    decreases |ops|
  {
    if ops != [] {
      StepInv(q, ops[0]);
      RunInv(Step(q, ops[0]), ops[1..]);
    }
  }

  lemma {:induction false} StepInv<T>(q: Queues<T>, op: Op<T>)
    requires Inv(q) && Legal(q, op)
    ensures Inv(Step(q, op))
  {
    match op
    case Select =>
      if q.run != [] { assert forall t :: t in q.run[1..] + [q.run[0]] ==> t in q.run; }
    case Schedule(t) =>
    case Unschedule(t) => WithoutApart(q, t);
    case Sleep(t) => WithoutApart(q, t);
    case WakeAll => assert forall j | 0 <= j < |q.wait| :: q.wait[j] in q.wait && q.wait[j] !in q.run;
  }

  ghost predicate Queued<T>(q: Queues<T>, t: T) { t in q.run || t in q.wait }

  /** No operation loses a task or invents one: only one it names enters or leaves the queues. */
  lemma {:induction false} QueuedAfter<T>(q: Queues<T>, op: Op<T>, t: T)
    requires Inv(q) && Legal(q, op)
    ensures Queued(Step(q, op), t) <==>
      ((op.Schedule? || op.Sleep?) && op.t == t) || (Queued(q, t) && !(op.Unschedule? && op.t == t))
  {
    match op
    case Select => if q.run != [] { assert q.run == [q.run[0]] + q.run[1..]; }
    case Schedule(_) =>
    case Unschedule(u) => WithoutApart(q, u); WithoutIn(q.run, u, t); WithoutIn(q.wait, u, t);
    case Sleep(u) => WithoutApart(q, u); WithoutIn(q.run, u, t); WithoutIn(q.wait, u, t);
    case WakeAll =>
  }

  // ---- Waiting ----

  /** t is at position p of the running queue. */
  ghost predicate AtPos<T>(q: Queues<T>, t: T, p: nat) { p < |q.run| && q.run[p] == t }

  /** t is never unscheduled or put to sleep. */
  predicate Stays<T(==)>(t: T, ops: seq<Op<T>>) {
    forall i | 0 <= i < |ops| :: !(ops[i].Unschedule? && ops[i].t == t) && !(ops[i].Sleep? && ops[i].t == t)
  }

  /** What sched_select_task returns over a run, while the running queue is not empty. */
  function Selected<T(==)>(q: Queues<T>, ops: seq<Op<T>>): seq<T>
    decreases |ops|
  {
    if ops == [] then []
    else (if ops[0].Select? && q.run != [] then [q.run[0]] else []) + Selected(Step(q, ops[0]), ops[1..])
  }

  /** One operation: t is the one selected, or is no further back than before, and one closer after a selection. */
  lemma {:induction false} Closer<T>(q: Queues<T>, op: Op<T>, t: T, p: nat) returns (p': nat)
    requires Inv(q) && AtPos(q, t, p) && !(op.Unschedule? && op.t == t) && !(op.Sleep? && op.t == t)
    ensures (op.Select? && p == 0) || AtPos(Step(q, op), t, p')
    ensures op.Select? ==> (p == 0 && q.run[0] == t) || p' == p - 1
    ensures !op.Select? ==> p' <= p
  {
    p' := p;
    match op
    case Select => p' := if p == 0 then 0 else p - 1;
    case Schedule(_) =>
    case Unschedule(u) => p' := RemovedBefore(q.run, t, p, u);
    case Sleep(u) => p' := RemovedBefore(q.run, t, p, u);
    case WakeAll =>
  }

  lemma {:induction false} RemovedBefore<T>(s: seq<T>, t: T, p: nat, u: T) returns (p': nat)
    requires p < |s| && s[p] == t && u != t
    ensures p' <= p && p' < |Without(s, u)| && Without(s, u)[p'] == t
  {
    if p == 0 {
      p' := 0;
    } else if s[0] == u {
      p' := p - 1;
    } else {
      var r := RemovedBefore(s[1..], t, p - 1, u);
      p' := r + 1;
    }
  }

  /**
   Bounded waiting: a task at position p is among the first p + 1 selections of any legal run with
   that many, whatever else is scheduled, unscheduled, put to sleep or woken in between.
   */
  lemma {:induction false} BoundedWaiting<T>(q: Queues<T>, ops: seq<Op<T>>, t: T, p: nat)
    requires Inv(q) && LegalRun(q, ops) && AtPos(q, t, p) && Stays(t, ops)
    requires |Selected(q, ops)| >= p + 1
    ensures t in Selected(q, ops)[..p + 1]
    decreases |ops|
  {
    var op, rest := ops[0], Selected(Step(q, ops[0]), ops[1..]);
    var p' := Closer(q, op, t, p);
    StepInv(q, op);
    if op.Select? {
      assert Selected(q, ops) == [q.run[0]] + rest;
      if p > 0 {
        BoundedWaiting(Step(q, op), ops[1..], t, p');
        EarlyIn([q.run[0]], rest, t, p);
      }
    } else {
      assert Selected(q, ops) == [] + rest;
      BoundedWaiting(Step(q, op), ops[1..], t, p');
      EarlyIn([], rest, t, p' + 1);
      Early(rest, t, p' + 1, p + 1);
    }
  }

  lemma {:induction false} EarlyIn<T>(front: seq<T>, s: seq<T>, t: T, k: nat)
    requires k <= |s| && t in s[..k]
    ensures t in (front + s)[..|front| + k]
  {
    assert (front + s)[..|front| + k] == front + s[..k];
  }

  lemma {:induction false} Early<T>(s: seq<T>, t: T, j: nat, k: nat)
    requires j <= k <= |s| && t in s[..j]
    ensures t in s[..k]
  {
    assert s[..k] == s[..j] + s[j..k];
  }

  /** A sleeper is selected, once woken, after at most as many others as are ahead of it in both queues. */
  lemma {:induction false} WokenRuns<T>(q: Queues<T>, ops: seq<Op<T>>, t: T, p: nat)
    requires Inv(q) && p < |q.wait| && q.wait[p] == t
    requires LegalRun(Step(q, WakeAll), ops) && Stays(t, ops)
    requires |Selected(Step(q, WakeAll), ops)| >= |q.run| + p + 1
    ensures t in Selected(Step(q, WakeAll), ops)[..|q.run| + p + 1]
  {
    StepInv(q, WakeAll);
    BoundedWaiting(Step(q, WakeAll), ops, t, |q.run| + p);
  }

  // ---- Sleeping ----

  /** No task is woken, and t is neither unscheduled nor put to sleep again. */
  predicate Undisturbed<T(==)>(t: T, ops: seq<Op<T>>) { WakeAll !in ops && Stays(t, ops) }

  lemma {:induction false} UndisturbedTail<T>(t: T, ops: seq<Op<T>>)
    requires ops != [] && Undisturbed(t, ops)
    ensures Undisturbed(t, ops[1..]) && ops[0] != WakeAll && ops[0] !in {Unschedule(t), Sleep(t)}
  {
    assert ops[0] in ops;
  }

  /** A waiting task stays where it is, and is not selected, until somebody wakes or removes it. */
  lemma {:induction false} SleeperRests<T>(q: Queues<T>, ops: seq<Op<T>>, t: T)
    requires Inv(q) && LegalRun(q, ops) && t in q.wait && Undisturbed(t, ops)
    ensures t !in Selected(q, ops) && t in Exec(q, ops).wait && t !in Exec(q, ops).run
    decreases |ops|
  {
    if ops != [] {
      UndisturbedTail(t, ops);
      StepInv(q, ops[0]);
      match ops[0] {
        case Sleep(u) => WithoutIn(q.wait, u, t);
        case Unschedule(u) => WithoutIn(q.wait, u, t);
        case _ =>
      }
      SleeperRests(Step(q, ops[0]), ops[1..], t);
    }
  }

  /** task_sleep takes the task out of the running queue: it is not selected before the next waking. */
  lemma {:induction false} SleepRests<T>(q: Queues<T>, ops: seq<Op<T>>, t: T)
    requires Inv(q) && LegalRun(q, [Sleep(t)] + ops) && Undisturbed(t, ops)
    ensures t !in Selected(q, [Sleep(t)] + ops)
    ensures t in Exec(q, [Sleep(t)] + ops).wait && t !in Exec(q, [Sleep(t)] + ops).run
  {
    assert ([Sleep(t)] + ops)[1..] == ops;
    StepInv(q, Sleep(t));
    SleeperRests(Step(q, Sleep(t)), ops, t);
  }

  /** A task in no queue is not selected before it is scheduled or put to sleep. */
  lemma {:induction false} StoppedRests<T>(q: Queues<T>, ops: seq<Op<T>>, t: T)
    requires Inv(q) && LegalRun(q, ops) && !Queued(q, t) && Schedule(t) !in ops && Sleep(t) !in ops
    ensures t !in Selected(q, ops) && !Queued(Exec(q, ops), t)
    decreases |ops|
  {
    if ops != [] {
      QueuedAfter(q, ops[0], t);
      StepInv(q, ops[0]);
      StoppedRests(Step(q, ops[0]), ops[1..], t);
    }
  }

  /** s without all of ts. */
  function WithoutAll<T(==)>(s: seq<T>, ts: seq<T>): seq<T>
    decreases |ts|
  {
    if ts == [] then s else WithoutAll(Without(s, ts[0]), ts[1..])
  }

  function Sleeps<T>(ts: seq<T>): seq<Op<T>> { seq(|ts|, i requires 0 <= i < |ts| => Sleep(ts[i])) }

  lemma {:induction false} WithoutAllJoin<T>(s: seq<T>, more: seq<T>, ts: seq<T>)
    requires forall x | x in more :: x !in ts
    ensures WithoutAll(s + more, ts) == WithoutAll(s, ts) + more
    decreases |ts|
  {
    if ts != [] {
      WithoutJoin(s, more, ts[0]);
      WithoutAllJoin(Without(s, ts[0]), more, ts[1..]);
    }
  }

  lemma {:induction false} WithoutJoin<T>(s: seq<T>, more: seq<T>, t: T)
    requires t !in more
    ensures Without(s + more, t) == Without(s, t) + more
  {
    if s == [] {
      assert s + more == more;
      WithoutIn(more, t, t);
    } else {
      assert (s + more)[0] == s[0] && (s + more)[1..] == s[1..] + more;
      if s[0] != t { WithoutJoin(s[1..], more, t); }
    }
  }

  /** Distinct tasks that go to sleep one after the other wait behind all others, in that order. */
  lemma {:induction false} SleepInOrder<T>(q: Queues<T>, ts: seq<T>)
    requires NoDup(ts)
    ensures Exec(q, Sleeps(ts)) == Queues(WithoutAll(q.run, ts), WithoutAll(q.wait, ts) + ts)
    decreases |ts|
  {
    if ts == [] {
      assert q.wait + [] == q.wait;
    } else {
      NoDupTail(ts);
      assert Sleeps(ts)[1..] == Sleeps(ts[1..]);
      SleepInOrder(Step(q, Sleep(ts[0])), ts[1..]);
      WithoutAllJoin(Without(q.wait, ts[0]), [ts[0]], ts[1..]);
      assert [ts[0]] + ts[1..] == ts;
    }
  }

  lemma {:induction false} ExecJoin<T>(q: Queues<T>, a: seq<Op<T>>, b: seq<Op<T>>)
    ensures Exec(q, a + b) == Exec(Exec(q, a), b)
    decreases |a|
  {
    if a == [] {
      assert a + b == b;
    } else {
      assert (a + b)[1..] == a[1..] + b;
      ExecJoin(Step(q, a[0]), a[1..], b);
    }
  }

  /**
   The next waking appends them to the running queue in the order they went to sleep, behind those
   that ran on and those that waited before.
   */
  lemma {:induction false} WokenInOrder<T>(q: Queues<T>, ts: seq<T>)
    requires NoDup(ts)
    ensures Exec(q, Sleeps(ts) + [WakeAll]) == Queues(WithoutAll(q.run, ts) + WithoutAll(q.wait, ts) + ts, [])
  {
    SleepInOrder(q, ts);
    ExecJoin(q, Sleeps(ts), [WakeAll]);
    var s := Exec(q, Sleeps(ts));
    assert Exec(s, [WakeAll]) == Step(s, WakeAll);
    assert WithoutAll(q.run, ts) + (WithoutAll(q.wait, ts) + ts) == WithoutAll(q.run, ts) + WithoutAll(q.wait, ts) + ts;
  }

  /** a stands before b. */
  ghost predicate Before<T>(s: seq<T>, a: T, b: T) { exists i, j :: 0 <= i < j < |s| && s[i] == a && s[j] == b }

  lemma {:induction false} WithoutKeepsBefore<T>(s: seq<T>, a: T, b: T, t: T)
    requires Before(s, a, b) && t != a && t != b
    ensures Before(Without(s, t), a, b)
  {
    var i, j :| 0 <= i < j < |s| && s[i] == a && s[j] == b;
    if s[0] == t {
      assert s[1..][i - 1] == a && s[1..][j - 1] == b;
    } else if i > 0 {
      assert s[1..][i - 1] == a && s[1..][j - 1] == b;
      WithoutKeepsBefore(s[1..], a, b, t);
      var w := Without(s[1..], t);
      var k, l :| 0 <= k < l < |w| && w[k] == a && w[l] == b;
      assert Without(s, t)[k + 1] == a && Without(s, t)[l + 1] == b;
    } else {
      assert s[1..][j - 1] == b;
      WithoutIn(s[1..], t, b);
      var w := Without(s[1..], t);
      var l :| 0 <= l < |w| && w[l] == b;
      assert Without(s, t)[0] == a && Without(s, t)[l + 1] == b;
    }
  }

  /** Whatever else happens before the next waking, waiting tasks keep their order. */
  lemma {:induction false} WaitersKeepOrder<T>(q: Queues<T>, ops: seq<Op<T>>, a: T, b: T)
    requires Before(q.wait, a, b) && Undisturbed(a, ops) && Undisturbed(b, ops)
    ensures Before(Exec(q, ops).wait, a, b)
    decreases |ops|
  {
    if ops != [] {
      UndisturbedTail(a, ops);
      UndisturbedTail(b, ops);
      match ops[0] {
        case Sleep(u) =>
          WithoutKeepsBefore(q.wait, a, b, u);
          var w := Without(q.wait, u);
          var i, j :| 0 <= i < j < |w| && w[i] == a && w[j] == b;
          assert (w + [u])[i] == a && (w + [u])[j] == b;
        case Unschedule(u) => WithoutKeepsBefore(q.wait, a, b, u);
        case _ =>
      }
      WaitersKeepOrder(Step(q, ops[0]), ops[1..], a, b);
    }
  }

  // ---- Rounds ----

  /** With nothing else going on, every task of the running queue is selected once before any is selected again. */
  lemma {:induction false} RoundRobin<T>(q: Queues<T>, n: nat)
    requires n <= |q.run|
    ensures Selected(q, seq(n, _ => Select)) == q.run[..n]
    ensures Exec(q, seq(n, _ => Select)).run == q.run[n..] + q.run[..n]
    decreases n
  {
    var ops: seq<Op<T>> := seq(n, _ => Select);
    if n > 0 {
      var q' := Step(q, Select);
      assert ops[0] == Select && ops[1..] == seq(n - 1, _ => Select);
      RoundRobin(q', n - 1);
      assert q'.run[..n - 1] == q.run[1..n] && q'.run[n - 1..] == q.run[n..] + [q.run[0]];
      assert [q.run[0]] + q.run[1..n] == q.run[..n];
    } else {
      assert ops == [];
      assert q.run[0..] + q.run[..0] == q.run;
    }
  }
}
