/**
 * The task registry of one array job: a pending slot holding at most one
 * task, a list of running tasks and a list of past tasks, over tasks drawn
 * one at a time, in order, from the job's task list.
 *
 * Tasks are named by their position in that list; `cursor` counts the tasks
 * drawn so far. Task states change outside the registry, so every query
 * takes the current state of each task (`states`, by position) and first
 * re-partitions the buckets.
 */
module TaskRegistry {
  import opened Wrappers
  import Jobs

  datatype Registry = Registry(total: nat, cursor: nat, pending: Option<nat>, running: seq<nat>, past: seq<nat>)

  predicate IsRunning(states: seq<Option<string>>, t: nat) {
    t < |states| && states[t] == Some("RUNNING")
  }

  predicate IsPending(states: seq<Option<string>>, t: nat) {
    t < |states| && states[t] == Some("PENDING")
  }

  /** The positions `0, 1, ..., n - 1`. */
  function Iota(n: nat): (r: seq<nat>)
    ensures |r| == n
  {
    if n == 0 then [] else Iota(n - 1) + [n - 1]
  }

  /** Each position below `n` occurs in `Iota(n)` exactly once, no other position occurs. */
  lemma {:induction false} IotaCount(n: nat, x: nat)
    ensures multiset(Iota(n))[x] == if x < n then 1 else 0
  {
    if n > 0 {
      var last: nat := n - 1;
      var prefix := Iota(last);
      IotaCount(last, x);
      var one: seq<nat> := [last];
      assert Iota(n) == prefix + one;
      var whole: multiset<nat> := multiset(Iota(n));
      var head: multiset<nat> := multiset(prefix);
      var tail: multiset<nat> := multiset(one);
      assert whole == head + tail;
    }
  }

  function PendingSeq(o: Option<nat>): seq<nat> {
    match o
    case Some(t) => [t]
    case None => []
  }

  /** Every task the registry holds, bucket by bucket. */
  function Drawn(reg: Registry): seq<nat> {
    PendingSeq(reg.pending) + reg.running + reg.past
  }

  /**
   * The registry invariant: the buckets together hold exactly the tasks drawn
   * so far, each once; the pending task is the last one drawn; and the slot
   * is empty only once the task list is exhausted.
   */
  predicate Inv(reg: Registry) {
    && reg.cursor <= reg.total
    && (reg.pending.Some? ==> reg.pending.value + 1 == reg.cursor)
    && (reg.pending.None? ==> reg.cursor == reg.total)
    && multiset(Drawn(reg)) == multiset(Iota(reg.cursor))
  }

  /** The buckets are disjoint and hold each of the first `cursor` tasks exactly once. */
  lemma InvBuckets(reg: Registry, t: nat)
    requires Inv(reg)
    ensures t in Drawn(reg) <==> t < reg.cursor
    ensures !(t in reg.running && t in reg.past)
    ensures reg.pending == Some(t) ==> t !in reg.running && t !in reg.past
    ensures multiset(reg.running)[t] <= 1 && multiset(reg.past)[t] <= 1
  {
    IotaCount(reg.cursor, t);
    assert t in Drawn(reg) <==> t in multiset(Drawn(reg));
    assert multiset(Drawn(reg))[t] == multiset(PendingSeq(reg.pending))[t] + multiset(reg.running)[t] + multiset(reg.past)[t];
  }

  /** `TaskRegistry.new(job)`, with the first task drawn at once if there is one. */
  function Init(total: nat): (r: Registry)
    ensures Inv(r)
    ensures r.total == total && r.running == [] && r.past == []
    ensures r.pending == (if total > 0 then Some(0) else None)
  {
    if total == 0 then Registry(0, 0, None, [], []) else Registry(total, 1, Some(0), [], [])
  }

  /**
   * `initialize` as written: `task_enum.next` raises `StopIteration` when the
   * task list is empty, so no registry is built (`None`).
   */
  function InitAsWritten(total: nat): (r: Option<Registry>)
    ensures r.None? <==> total == 0
    ensures r.Some? ==> r.value == Init(total)
  {
    if total == 0 then None else Some(Init(total))
  }

  /** `select!`: the tasks of `s` whose running-ness is `keepRunning`, in order. */
  function Select(s: seq<nat>, states: seq<Option<string>>, keepRunning: bool): (r: seq<nat>)
    ensures forall t :: t in r <==> t in s && IsRunning(states, t) == keepRunning
    ensures |r| <= |s|
  {
    if |s| == 0 then []
    else (if IsRunning(states, s[0]) == keepRunning then [s[0]] else []) + Select(s[1..], states, keepRunning)
  }

  /** Selecting from a concatenation concatenates the selections, so order is kept. */
  lemma {:induction false} SelectAppend(a: seq<nat>, b: seq<nat>, states: seq<Option<string>>, keepRunning: bool)
    ensures Select(a + b, states, keepRunning) == Select(a, states, keepRunning) + Select(b, states, keepRunning)
  {
    if |a| == 0 {
      assert a + b == b;
    } else {
      assert (a + b)[1..] == a[1..] + b;
      SelectAppend(a[1..], b, states, keepRunning);
    }
  }

  /** The kept and the dropped tasks together are the tasks selected from. */
  lemma {:induction false} SelectSplits(s: seq<nat>, states: seq<Option<string>>)
    ensures multiset(Select(s, states, true)) + multiset(Select(s, states, false)) == multiset(s)
  {
    if |s| > 0 {
      var head: seq<nat> := [s[0]];
      var rest := s[1..];
      SelectSplits(rest, states);
      assert s == head + rest;
      var kept, dropped := Select(rest, states, true), Select(rest, states, false);
      if IsRunning(states, s[0]) {
        assert Select(s, states, true) == head + kept;
        assert Select(s, states, false) == dropped;
        assert multiset(head + kept) == multiset(head) + multiset(kept);
      } else {
        assert Select(s, states, true) == kept;
        assert Select(s, states, false) == head + dropped;
        assert multiset(head + dropped) == multiset(head) + multiset(dropped);
      }
      assert multiset(s) == multiset(head) + multiset(rest);
    }
  }

  /**
   * The part of `refresh` before the next task is drawn: running tasks that
   * stopped running move to `past` in their order; then a pending task that
   * is no longer pending moves to `running` if it now runs, to `past`
   * otherwise. The pending slot itself is not touched.
   */
  function Sweep(reg: Registry, states: seq<Option<string>>): (r: Registry)
    ensures r.total == reg.total && r.cursor == reg.cursor && r.pending == reg.pending
    ensures forall t :: t in r.running ==> IsRunning(states, t)
    ensures r.running == Select(reg.running, states, true) +
      (if MustAdvance(reg, states) && IsRunning(states, reg.pending.value) then [reg.pending.value] else [])
    ensures var stopped := Select(reg.running, states, false);
      && |reg.past| + |stopped| <= |r.past| <= |reg.past| + |stopped| + 1
      && r.past[..|reg.past| + |stopped|] == reg.past + stopped
      && (|r.past| > |reg.past| + |stopped| <==> MustAdvance(reg, states) && !IsRunning(states, reg.pending.value))
      && (|r.past| > |reg.past| + |stopped| ==> r.past[|r.past| - 1] == reg.pending.value)
  {
    var keep := Select(reg.running, states, true);
    var past := reg.past + Select(reg.running, states, false);
    match reg.pending
    case Some(p) =>
      if IsPending(states, p) then Registry(reg.total, reg.cursor, reg.pending, keep, past)
      else if IsRunning(states, p) then Registry(reg.total, reg.cursor, reg.pending, keep + [p], past)
      else Registry(reg.total, reg.cursor, reg.pending, keep, past + [p])
    case None => Registry(reg.total, reg.cursor, reg.pending, keep, past)
  }

  /** The pending slot holds a task that has left the pending state. */
  predicate MustAdvance(reg: Registry, states: seq<Option<string>>) {
    reg.pending.Some? && !IsPending(states, reg.pending.value)
  }

  /**
   * `refresh`: sweep, then, if the pending task has left the pending state,
   * draw the next task into the slot, or leave the slot empty when the task
   * list is exhausted.
   */
  function Refresh(reg: Registry, states: seq<Option<string>>): (r: Registry)
    ensures r.total == reg.total
    ensures forall t :: t in r.running ==> IsRunning(states, t)
    ensures r.running == Select(reg.running, states, true) +
      (if MustAdvance(reg, states) && IsRunning(states, reg.pending.value) then [reg.pending.value] else [])
    ensures |reg.past| <= |r.past| && r.past[..|reg.past|] == reg.past
    ensures var stopped := Select(reg.running, states, false);
      |reg.past| + |stopped| <= |r.past| && r.past[..|reg.past| + |stopped|] == reg.past + stopped
    ensures r.cursor == reg.cursor || (r.cursor == reg.cursor + 1 && r.pending == Some(reg.cursor))
    ensures !MustAdvance(reg, states) ==> r.pending == reg.pending && r.cursor == reg.cursor
    ensures MustAdvance(reg, states) ==>
      && (IsRunning(states, reg.pending.value) ==> reg.pending.value in r.running)
      && (!IsRunning(states, reg.pending.value) ==> |r.past| > 0 && r.past[|r.past| - 1] == reg.pending.value)
      && r.pending == (if reg.cursor < reg.total then Some(reg.cursor) else None)
  {
    var s := Sweep(reg, states);
    if !MustAdvance(reg, states) then s
    else if reg.cursor < reg.total then s.(cursor := reg.cursor + 1, pending := Some(reg.cursor))
    else s.(pending := None)
  }

  /** Every task a refresh adds to `past` is a running task that stopped, or the pending task that moved. */
  lemma RefreshPastOrigins(reg: Registry, states: seq<Option<string>>)
    ensures var r := Refresh(reg, states);
      forall i :: |reg.past| <= i < |r.past| ==>
        (r.past[i] in reg.running && !IsRunning(states, r.past[i])) || reg.pending == Some(r.past[i])
  {
    var r := Refresh(reg, states);
    var stopped := Select(reg.running, states, false);
    var s := Sweep(reg, states);
    assert r.past == s.past;
    forall i | |reg.past| <= i < |r.past|
      ensures (r.past[i] in reg.running && !IsRunning(states, r.past[i])) || reg.pending == Some(r.past[i])
    {
      if i < |reg.past| + |stopped| {
        assert r.past[i] == (reg.past + stopped)[i] == stopped[i - |reg.past|];
      }
    }
  }

  /** The sweep loses no task and adds only a pending task that has to move. */
  lemma SweepConserves(reg: Registry, states: seq<Option<string>>)
    ensures multiset(Sweep(reg, states).running) + multiset(Sweep(reg, states).past)
         == multiset(reg.running) + multiset(reg.past)
            + (if MustAdvance(reg, states) then multiset{reg.pending.value} else multiset{})
  {
    SelectSplits(reg.running, states);
  }

  /** A registry whose buckets hold exactly the drawn tasks, once each. */
  lemma InvOfBuckets(r: Registry)
    requires r.cursor <= r.total
    requires r.pending.Some? ==> r.pending.value + 1 == r.cursor
    requires r.pending.None? ==> r.cursor == r.total
    requires multiset(PendingSeq(r.pending)) + multiset(r.running) + multiset(r.past) == multiset(Iota(r.cursor))
    ensures Inv(r)
  {
  }

  /** The invariant read bucket by bucket. */
  lemma BucketsOfInv(r: Registry)
    requires Inv(r)
    ensures multiset(PendingSeq(r.pending)) + multiset(r.running) + multiset(r.past) == multiset(Iota(r.cursor))
  {
    assert Drawn(r) == PendingSeq(r.pending) + r.running + r.past;
  }

  /** Rearranging the tasks of the buckets without touching the slot or the cursor keeps the invariant. */
  lemma SameBuckets(a: Registry, b: Registry)
    requires Inv(a)
    requires b.total == a.total && b.cursor == a.cursor && b.pending == a.pending
    requires multiset(b.running) + multiset(b.past) == multiset(a.running) + multiset(a.past)
    ensures Inv(b)
  {
    BucketsOfInv(a);
    var p := multiset(PendingSeq(a.pending));
    var ma, mb := multiset(a.running) + multiset(a.past), multiset(b.running) + multiset(b.past);
    assert p + multiset(a.running) + multiset(a.past) == p + ma;
    assert p + multiset(b.running) + multiset(b.past) == p + mb;
    InvOfBuckets(b);
  }

  /** A sweep that leaves the pending task in its slot keeps the invariant. */
  lemma SweepKeepsInv(reg: Registry, states: seq<Option<string>>)
    requires Inv(reg) && !MustAdvance(reg, states)
    ensures Inv(Sweep(reg, states))
  {
    var s := Sweep(reg, states);
    SweepConserves(reg, states);
    assert multiset(s.running) + multiset(s.past) == multiset(reg.running) + multiset(reg.past);
    SameBuckets(reg, s);
  }

  /** After a sweep that moves the pending task, the buckets hold every drawn task. */
  lemma SweepMovesPending(reg: Registry, states: seq<Option<string>>)
    requires Inv(reg) && MustAdvance(reg, states)
    ensures multiset(Sweep(reg, states).running) + multiset(Sweep(reg, states).past) == multiset(Iota(reg.cursor))
  {
    var s := Sweep(reg, states);
    SweepConserves(reg, states);
    var p := reg.pending.value;
    var before := multiset(reg.running) + multiset(reg.past);
    assert multiset(Drawn(reg)) == multiset{p} + before;
  }

  /** Drawing position `c` into the slot of buckets that hold the first `c` positions. */
  lemma DrawInto(s: Registry, c: nat)
    requires s.cursor == c < s.total
    requires multiset(s.running) + multiset(s.past) == multiset(Iota(c))
    ensures Inv(s.(cursor := c + 1, pending := Some(c)))
  {
    var one: seq<nat> := [c];
    assert Iota(c + 1) == Iota(c) + one;
    var r := s.(cursor := c + 1, pending := Some(c));
    assert Drawn(r) == one + s.running + s.past;
  }

  /** Emptying the slot of an exhausted registry keeps the invariant. */
  lemma ExhaustKeepsInv(reg: Registry, states: seq<Option<string>>)
    requires Inv(reg) && MustAdvance(reg, states) && reg.cursor >= reg.total
    ensures Inv(Sweep(reg, states).(pending := None))
  {
    SweepMovesPending(reg, states);
    var r := Sweep(reg, states).(pending := None);
    assert multiset(PendingSeq(r.pending)) + multiset(r.running) + multiset(r.past) == multiset(Iota(r.cursor));
    InvOfBuckets(r);
  }

  /** Every refresh keeps the registry invariant (conservation and disjointness). */
  lemma RefreshKeepsInv(reg: Registry, states: seq<Option<string>>)
    requires Inv(reg)
    ensures Inv(Refresh(reg, states))
  {
    if !MustAdvance(reg, states) {
      SweepKeepsInv(reg, states);
    } else if reg.cursor < reg.total {
      SweepMovesPending(reg, states);
      DrawInto(Sweep(reg, states), reg.cursor);
    } else {
      ExhaustKeepsInv(reg, states);
    }
  }

  /**
   * `pending_task`: the pending slot after a refresh, which holds the same
   * task as before or the next task of the list.
   */
  function PendingTask(reg: Registry, states: seq<Option<string>>): (r: (Registry, Option<nat>))
    ensures r.0 == Refresh(reg, states) && r.1 == r.0.pending
    ensures r.1.Some? ==> r.1 == reg.pending || r.1 == Some(reg.cursor)
  {
    var n := Refresh(reg, states);
    (n, n.pending)
  }

  /** `running_tasks`: the running list after a refresh; all of them are running. */
  function RunningTasks(reg: Registry, states: seq<Option<string>>): (r: (Registry, seq<nat>))
    ensures r.0 == Refresh(reg, states) && r.1 == r.0.running
    ensures forall t :: t in r.1 ==> IsRunning(states, t)
  {
    var n := Refresh(reg, states);
    (n, n.running)
  }

  /** `past_tasks`: the past list after a refresh; it extends the earlier one. */
  function PastTasks(reg: Registry, states: seq<Option<string>>): (r: (Registry, seq<nat>))
    ensures r.0 == Refresh(reg, states) && r.1 == r.0.past
    ensures reg.past <= r.1
  {
    var n := Refresh(reg, states);
    (n, n.past)
  }

  /**
   * `limit?`: whether the running tasks, after a refresh, reach the array
   * job's `min_nodes`. Comparing a count with a `min_nodes` that is not an
   * integer raises in Ruby; that outcome is `None`.
   */
  function Limit(reg: Registry, states: seq<Option<string>>, minNodes: Jobs.MinNodes): (r: (Registry, Option<bool>))
    ensures r.0 == Refresh(reg, states)
    ensures r.1.Some? <==> minNodes.Count?
    ensures r.1 == Some(true) <==> minNodes.Count? && |Refresh(reg, states).running| >= minNodes.n
  {
    var n := Refresh(reg, states);
    (n, if minNodes.Count? then Some(|n.running| >= minNodes.n) else None)
  }

  // ---------------------------------------------------------------------------
  // Draining an array job

  /** `k` consecutive queries against the same task states. */
  function RefreshTimes(reg: Registry, states: seq<Option<string>>, k: nat): Registry {
    if k == 0 then reg else Refresh(RefreshTimes(reg, states, k - 1), states)
  }

  /** Task states in which every task has finished. */
  function AllCompleted(total: nat): (r: seq<Option<string>>)
    ensures |r| == total
    ensures forall i :: 0 <= i < total ==> r[i] == Some("COMPLETED")
  {
    seq(total, i => Some("COMPLETED"))
  }

  /**
   * Draining: when each task finishes as soon as it is drawn, after `k`
   * queries the first `k` tasks are past, in order, the next one is pending
   * and nothing runs; at most one task is ever pending.
   */
  lemma {:induction false} DrainSteps(total: nat, k: nat)
    requires k <= total
    ensures RefreshTimes(Init(total), AllCompleted(total), k) ==
      Registry(total, if k < total then k + 1 else total, if k < total then Some(k) else None, [], Iota(k))
  {
    if k > 0 {
      DrainSteps(total, k - 1);
      DrainOnce(total, k);
    }
  }

  /** One query while draining: the pending task joins `past` and the next one is drawn. */
  lemma DrainOnce(total: nat, k: nat)
    requires 0 < k <= total
    ensures Refresh(Registry(total, k, Some(k - 1), [], Iota(k - 1)), AllCompleted(total)) ==
      Registry(total, if k < total then k + 1 else total, if k < total then Some(k) else None, [], Iota(k))
  {
    var states := AllCompleted(total);
    var prev := Registry(total, k, Some(k - 1), [], Iota(k - 1));
    assert Select([], states, true) == [] && Select([], states, false) == [];
    assert !IsPending(states, k - 1) && !IsRunning(states, k - 1);
    assert Sweep(prev, states) == Registry(total, k, Some(k - 1), [], Iota(k - 1) + [k - 1]);
  }

  /** After as many queries as there are tasks, the slot is empty and every task is past. */
  lemma DrainAll(total: nat)
    ensures RefreshTimes(Init(total), AllCompleted(total), total).pending == None
    ensures |RefreshTimes(Init(total), AllCompleted(total), total).past| == total
  {
    DrainSteps(total, total);
  }

  // ---------------------------------------------------------------------------
  // refresh as written

  /**
   * `refresh` as written: `task_enum.next` raises `StopIteration` on an
   * exhausted task list after the sweep has already run, and the slot keeps
   * the task that was just moved. The flag reports the raise.
   */
  function RefreshAsWritten(reg: Registry, states: seq<Option<string>>): (r: (Registry, bool))
    ensures r.1 <==> MustAdvance(reg, states) && reg.cursor >= reg.total
    ensures !r.1 ==> r.0 == Refresh(reg, states)
    ensures r.1 ==> r.0.pending == reg.pending
  {
    if MustAdvance(reg, states) && reg.cursor >= reg.total then (Sweep(reg, states), true)
    else (Refresh(reg, states), false)
  }

  /**
   * With one task that has completed, the first query raises after moving
   * the task to `past`; the next query moves it there again, so the buckets
   * no longer hold each drawn task once.
   */
  lemma ExhaustionDuplicatesAsWritten()
    ensures InitAsWritten(1) == Some(Registry(1, 1, Some(0), [], []))
    ensures RefreshAsWritten(Registry(1, 1, Some(0), [], []), [Some("COMPLETED")])
         == (Registry(1, 1, Some(0), [], [0]), true)
    ensures RefreshAsWritten(Registry(1, 1, Some(0), [], [0]), [Some("COMPLETED")])
         == (Registry(1, 1, Some(0), [], [0, 0]), true)
    ensures !Inv(Registry(1, 1, Some(0), [], [0, 0]))
  {
    var states := [Some("COMPLETED")];
    assert Select([], states, true) == [] && Select([], states, false) == [];
    assert Sweep(Registry(1, 1, Some(0), [], []), states) == Registry(1, 1, Some(0), [], [0]);
    assert Sweep(Registry(1, 1, Some(0), [], [0]), states) == Registry(1, 1, Some(0), [], [0, 0]);
    assert Iota(1) == [0];
    assert multiset(Drawn(Registry(1, 1, Some(0), [], [0, 0])))[0] == 3;
  }

  /** The corrected refresh empties the slot instead, and the invariant survives. */
  lemma ExhaustionEmptiesSlot()
    ensures Refresh(Registry(1, 1, Some(0), [], []), [Some("COMPLETED")]) == Registry(1, 1, None, [], [0])
    ensures Inv(Registry(1, 1, None, [], [0]))
  {
    var states := [Some("COMPLETED")];
    var reg := Registry(1, 1, Some(0), [], []);
    assert Select([], states, true) == [] && Select([], states, false) == [];
    assert Sweep(reg, states) == Registry(1, 1, Some(0), [], [0]);
    assert Iota(1) == [0];
  }
}
