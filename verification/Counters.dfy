/**
  The time slices of linux-0.11/kernel/sched.c: what schedule() picks, how counters are recharged, and
  how long a runnable task can be kept waiting.
*/
module Counters {
  const NR_TASKS := 64

  /** An entry of task[]; runnable means state == TASK_RUNNING. */
  datatype Slot = Empty | Task(counter: int, priority: int, runnable: bool)

  type Table = t: seq<Slot> | |t| == 64 witness seq(64, _ => Empty)

  predicate Runnable(t: Table, i: nat) {
    0 < i < NR_TASKS && t[i].Task? && t[i].runnable
  }

  /** The priority is positive, and 0 <= counter <= 2 * priority - 1. */
  predicate InBounds(s: Slot) {
    s.Task? ==> s.priority > 0 && 0 <= s.counter <= 2 * s.priority - 1
  }

  /** So it is for tasks 1 and up. */
  ghost predicate Bounded(t: Table) {
    forall i | 0 < i < NR_TASKS :: InBounds(t[i])
  }

  /** sched.c:161-165. */
  function Recharge(s: Slot): Slot {
    if s.Task? then s.(counter := s.counter / 2 + s.priority) else s
  }

  ghost predicate Recharged(t: Table, t': Table) {
    t'[0] == t[0] && forall i | 0 < i < NR_TASKS :: t'[i] == Recharge(t[i])
  }

  lemma RechargeKeepsBounds(t: Table, t': Table)
    requires Bounded(t) && Recharged(t, t')
    ensures Bounded(t') && forall i: nat | Runnable(t, i) :: Runnable(t', i) && t'[i].counter > 0
  {
  }

  // ----- nice -----

  /** sched.c:424-429. */
  function Niced(s: Slot, increment: int): (r: Slot)
    ensures s.Task? && s.priority > 0 ==> r.Task? && r.priority > 0
  {
    if s.Task? && s.priority - increment > 0 then s.(priority := s.priority - increment) else s
  }

  /** s after k recharges. */
  function RechargedTimes(s: Slot, k: nat): Slot {
    if k == 0 then s else Recharge(RechargedTimes(s, k - 1))
  }

  function Power2(k: nat): (n: nat)
    ensures n > 0
  {
    if k == 0 then 1 else 2 * Power2(k - 1)
  }

  /** e halved k times. */
  function Halved(e: nat, k: nat): nat {
    if k == 0 then e else Halved(e, k - 1) / 2
  }

  /** A task within its bound calls nice(14): it is above the bound of its new priority, and recharging does not help. */
  lemma NiceLeavesBound(k: nat)
    ensures var s := Task(29, 15, true);
      && InBounds(s) && Niced(s, 14) == Task(29, 1, true) && !InBounds(Niced(s, 14))
      && Recharge(Niced(s, 14)) == Task(15, 1, true) && !InBounds(RechargedTimes(Niced(s, 14), k))
  {
    RechargeNeverRestores(Task(29, 1, true), k);
  }

  /** Nice keeps the table within bounds if and only if the counter is within the bound of the new priority. */
  lemma NiceKeepsBounds(t: Table, j: nat, increment: int)
    requires Bounded(t) && 0 < j < NR_TASKS && t[j].Task?
    ensures Niced(t[j], increment).Task? && Niced(t[j], increment).counter == t[j].counter
    ensures Bounded(t[j := Niced(t[j], increment)]) <==> t[j].counter <= 2 * Niced(t[j], increment).priority - 1
  {
    var t' := t[j := Niced(t[j], increment)];
    assert InBounds(t[j]);
    if t[j].counter <= 2 * t'[j].priority - 1 {
      forall i | 0 < i < NR_TASKS ensures InBounds(t'[i]) {
        assert InBounds(t[i]);
      }
    } else {
      assert !InBounds(t'[j]);
    }
  }

  /**
    No number of recharges restores the bound, for 2 * priority is a fixed point.  What a counter has
    above that halves each time, and so is gone once 2 to the number of recharges exceeds it.
  */
  lemma {:induction false} RechargeNeverRestores(s: Slot, k: nat)
    requires s.Task? && s.priority > 0 && s.counter >= 2 * s.priority
    ensures var r := RechargedTimes(s, k);
      && r == s.(counter := 2 * s.priority + Halved(s.counter - 2 * s.priority, k)) && !InBounds(r)
      && (r.counter == 2 * s.priority <==> s.counter - 2 * s.priority < Power2(k))
  {
    if k > 0 {
      RechargeNeverRestores(s, k - 1);
    }
    HalvedBelow(s.counter - 2 * s.priority, k, 1);
  }

  lemma {:induction false} HalvedBelow(e: nat, k: nat, m: nat)
    ensures Halved(e, k) < m <==> e < m * Power2(k)
  {
    if k > 0 {
      HalvedBelow(e, k - 1, 2 * m);
      assert 2 * m * Power2(k - 1) == m * Power2(k);
    }
  }

  // ----- Selection -----

  /** next is the runnable task with the largest counter, the last such in the table; 0 if none can run. */
  ghost predicate Picks(t: Table, next: nat) {
    if exists i: nat :: Runnable(t, i) then
      && Runnable(t, next)
      && (forall i: nat | Runnable(t, i) :: t[i].counter <= t[next].counter)
      && (forall i: nat | Runnable(t, i) && i > next :: t[i].counter < t[next].counter)
    else next == 0
  }

  lemma PicksUnique(t: Table, a: nat, b: nat)
    requires Picks(t, a) && Picks(t, b)
    ensures a == b
  {
    if i: nat :| Runnable(t, i) {
      assert Runnable(t, a) && Runnable(t, b);
    }
  }

  /** The table after schedule(): recharged if every runnable task had used up its slice. */
  ghost predicate Scheduled(t: Table, t': Table, next: nat) {
    && Picks(t', next)
    && (if (exists i: nat :: Runnable(t, i)) && (forall i: nat | Runnable(t, i) :: t[i].counter == 0) then Recharged(t, t') else t' == t)
  }

  // ----- How long task r can be kept waiting -----

  /** The slices of the tasks other than r with index below k. */
  function Slices(t: Table, r: nat, k: nat): int
    requires k <= NR_TASKS
  {
    if k <= 1 then 0
    else Slices(t, r, k - 1) + (if k - 1 != r && t[k - 1].Task? then t[k - 1].counter else 0)
  }

  /** The longest those slices can be. */
  function Longest(t: Table, r: nat, k: nat): int
    requires k <= NR_TASKS
  {
    if k <= 1 then 0
    else Longest(t, r, k - 1) + (if k - 1 != r && t[k - 1].Task? then 2 * t[k - 1].priority - 1 else 0)
  }

  lemma {:induction false} SlicesBounded(t: Table, r: nat, k: nat)
    requires k <= NR_TASKS && Bounded(t)
    ensures 0 <= Slices(t, r, k) <= Longest(t, r, k)
  {
    if k > 1 {
      SlicesBounded(t, r, k - 1);
    }
  }

  ghost predicate SameTasks(t: Table, t': Table) {
    forall i | 0 <= i < NR_TASKS :: t'[i].Task? == t[i].Task? && (t[i].Task? ==> t'[i].priority == t[i].priority)
  }

  lemma {:induction false} LongestSame(t: Table, t': Table, r: nat, k: nat)
    requires k <= NR_TASKS && SameTasks(t, t')
    ensures Longest(t', r, k) == Longest(t, r, k)
  {
    if k > 1 {
      LongestSame(t, t', r, k - 1);
    }
  }

  /** Only task j has another counter. */
  lemma {:induction false} SlicesOne(t: Table, t': Table, r: nat, k: nat, j: nat)
    requires k <= NR_TASKS && j < NR_TASKS && SameTasks(t, t')
    requires forall i | 0 < i < NR_TASKS && i != j && t[i].Task? :: t'[i].counter == t[i].counter
    ensures Slices(t', r, k) == Slices(t, r, k) + (if 0 < j < k && j != r && t[j].Task? then t'[j].counter - t[j].counter else 0)
  {
    if k > 1 {
      SlicesOne(t, t', r, k - 1, j);
    }
  }

  /** The number of ticks that can still go to others before r is picked. */
  ghost function Wait(t: Table, r: nat): int {
    Slices(t, r, NR_TASKS) + if 0 <= r < NR_TASKS && t[r].Task? && t[r].counter > 0 then 0 else Longest(t, r, NR_TASKS)
  }

  /** The ticks before the idle task, when it has the processor, makes way for one that can run. */
  function IdleLeft(t: Table, current: nat): nat {
    if current != 0 then 0 else if t[0].Task? && t[0].counter > 1 then t[0].counter else 1
  }

  lemma WaitBounded(t: Table, r: nat)
    requires Bounded(t)
    ensures 0 <= Wait(t, r) <= 2 * Longest(t, r, NR_TASKS)
  {
    SlicesBounded(t, r, NR_TASKS);
  }

  /** schedule() does not lengthen the wait of a runnable task, for it recharges only when r has nothing left. */
  lemma ScheduleKeepsWait(t: Table, t': Table, next: nat, r: nat)
    requires Bounded(t) && Scheduled(t, t', next) && Runnable(t, r)
    ensures Bounded(t') && SameTasks(t, t') && Wait(t', r) <= Wait(t, r) && Runnable(t', r) && next != 0 && t'[next].counter > 0
  {
    if forall i: nat | Runnable(t, i) :: t[i].counter == 0 {
      RechargeKeepsBounds(t, t');
      SlicesBounded(t, r, NR_TASKS);
      SlicesBounded(t', r, NR_TASKS);
      LongestSame(t, t', r, NR_TASKS);
    } else {
      var i: nat :| Runnable(t, i) && t[i].counter != 0;
      assert t'[next].counter >= t'[i].counter;
    }
  }

  /** A tick of another task shortens it. */
  lemma TickLowersWait(t: Table, t': Table, j: nat, r: nat)
    requires Bounded(t) && j < NR_TASKS && t[j].Task? && (j > 0 ==> t[j].counter > 0) && j != r && r < NR_TASKS
    requires t' == t[j := t'[j]] && t'[j].Task? && t'[j] == t[j].(counter := t'[j].counter) && (j > 0 ==> t'[j].counter == t[j].counter - 1)
    ensures Bounded(t') && SameTasks(t, t') && (r > 0 ==> Wait(t', r) == Wait(t, r) - if j > 0 then 1 else 0)
  {
    assert InBounds(t[j]) || j == 0;
    SlicesOne(t, t', r, NR_TASKS, j);
    LongestSame(t, t', r, NR_TASKS);
  }

  /** Falling asleep and waking up change no slice. */
  lemma StateKeepsWait(t: Table, t': Table, r: nat)
    requires Bounded(t) && r < NR_TASKS
    requires forall i | 0 <= i < NR_TASKS :: t[i].Task? == t'[i].Task? && (t[i].Task? ==> t'[i] == t[i].(runnable := t'[i].runnable))
    ensures Bounded(t') && SameTasks(t, t') && Wait(t', r) == Wait(t, r)
  {
    SlicesOne(t, t', r, NR_TASKS, 0);
    LongestSame(t, t', r, NR_TASKS);
  }
}
