/**
  schedule() and the clock of linux-0.11/kernel/sched.c over task[].  Signals, alarms and timers only
  show as tasks waking up.
*/
module Sched {
  import opened Counters

  /** What can happen between two calls of schedule(): the clock, and tasks that sleep, wake or yield. */
  datatype Event = Tick | Block | Wake(i: nat) | Yield

  /** The state between two events. */
  datatype Snap = Snap(task: Table, current: nat)

  /** What each event does; ticks are those in user mode, and idle is never put to sleep. */
  ghost predicate Happened(e: Event, s: Snap, s': Snap) {
    && s.current < NR_TASKS && s.task[s.current].Task?
    && var t, j := s.task, s.current;
       match e
       case Tick =>
         var t1 := t[j := t[j].(counter := if t[j].counter > 1 then t[j].counter - 1 else 0)];
         if t[j].counter <= 1 then Scheduled(t1, s'.task, s'.current) else s' == Snap(t1, j)
       case Block => Scheduled(if j == 0 then t else t[j := t[j].(runnable := false)], s'.task, s'.current)
       case Wake(i) => s' == Snap(if 0 < i < NR_TASKS && t[i].Task? then t[i := t[i].(runnable := true)] else t, j)
       case Yield => Scheduled(t, s'.task, s'.current)
  }

  /** trace is the history these events make, state by state. */
  ghost predicate IsRun(events: seq<Event>, trace: seq<Snap>) {
    |trace| == |events| + 1 && forall i | 0 <= i < |events| :: Happened(events[i], trace[i], trace[i + 1])
  }

  lemma RunGoesOn(events: seq<Event>, k: nat, trace: seq<Snap>, s: Snap)
    requires k < |events| && IsRun(events[..k], trace) && Happened(events[k], trace[k], s)
    ensures IsRun(events[..k + 1], trace + [s])
  {
    hide Happened;
    var es, tr := events[..k + 1], trace + [s];
    forall i | 0 <= i <= k ensures Happened(es[i], tr[i], tr[i + 1]) {
      if i < k {
        assert Happened(events[..k][i], trace[i], trace[i + 1]);
      }
    }
  }

  class Scheduler {
    const task: array<Slot>
    var current: nat

    ghost predicate Sane()
      reads this, task
    {
      task.Length == NR_TASKS && task[0].Task? && current < NR_TASKS && task[current].Task? && Bounded(task[..])
    }

    /** In user mode the task that has the processor has some of its slice left. */
    ghost predicate Valid()
      reads this, task
    {
      Sane() && (current != 0 ==> task[current].counter > 0)
    }

    /** Only the idle task, task 0, at first. */
    constructor (idle: Slot)
      requires idle.Task?
      ensures Valid() && current == 0 && task[0] == idle && forall i | 0 < i < NR_TASKS :: task[i] == Empty
    {
      task := new Slot[NR_TASKS](i => if i == 0 then idle else Empty);
      current := 0;
    }

    /** The scan for the largest counter (sched.c:137-151). */
    method FindNext() returns (next: nat, c: int)
      requires task.Length == NR_TASKS && Bounded(task[..])
      ensures Picks(task[..], next)
      ensures c == (if exists i: nat :: Runnable(task[..], i) then task[next].counter else -1) && next < NR_TASKS
    {
      c, next := -1, 0;
      var i := NR_TASKS - 1;
      while i > 0
        invariant 0 <= i < NR_TASKS && next < NR_TASKS && (next > i || (next == 0 && c == -1))
        invariant if exists j: nat :: j > i && Runnable(task[..], j) then Runnable(task[..], next) && c == task[next].counter else c == -1 && next == 0
        invariant forall j: nat | j > i && Runnable(task[..], j) :: task[j].counter <= c && (j > next ==> task[j].counter < c)
      {
        ghost var t, j: nat := task[..], i;
        assert Runnable(t, j) <==> task[i].Task? && task[i].runnable;
        assert Runnable(t, j) ==> task[i].counter >= 0;
        if task[i].Task? && task[i].runnable && task[i].counter > c {
          c, next := task[i].counter, i;
        }
        i := i - 1;
      }
    }

    /** The loop of sched.c:161-165. */
    method RechargeAll()
      requires task.Length == NR_TASKS
      modifies task
      ensures Recharged(old(task[..]), task[..])
      ensures forall i | 0 < i < NR_TASKS && old(task[i]).Task? ::
                task[i] == old(task[i]).(counter := old(task[i]).counter / 2 + old(task[i]).priority)
    {
      var i := NR_TASKS - 1;
      while i > 0
        invariant 0 <= i < NR_TASKS
        invariant forall j | 0 <= j < NR_TASKS :: task[j] == if j > i then Recharge(old(task[j])) else old(task[j])
      {
        if task[i].Task? {
          task[i] := task[i].(counter := task[i].counter / 2 + task[i].priority);
        }
        i := i - 1;
      }
    }

    /** schedule (sched.c:113-169), which takes at most two passes. */
    method Schedule() returns (ghost passes: nat)
      requires task.Length == NR_TASKS && task[0].Task? && Bounded(task[..])
      modifies this`current, task
      ensures Valid() && Scheduled(old(task[..]), task[..], current) && 1 <= passes <= 2
    {
      ghost var t := task[..];
      passes := 0;
      var next: nat, c := 0, 0;
      while c == 0
        invariant passes <= 2 && task[0].Task? && Bounded(task[..])
        invariant passes == 0 ==> c == 0 && task[..] == t
        invariant passes == 1 && c != 0 ==> task[..] == t
        invariant passes == 1 && c == 0 ==> Recharged(t, task[..]) && forall i: nat | Runnable(task[..], i) :: task[i].counter > 0
        invariant passes == 1 && c == 0 ==> (exists i: nat :: Runnable(t, i)) && forall i: nat | Runnable(t, i) :: t[i].counter == 0
        invariant passes > 0 && c != 0 ==> next < NR_TASKS && Scheduled(t, task[..], next)
        invariant passes == 2 ==> c != 0
        decreases 2 - passes
      {
        ghost var t1 := task[..];
        next, c := FindNext();
        passes := passes + 1;
        if c == 0 {
          AllUsedUp(t1, next);
          RechargeAll();
          RechargeKeepsBounds(t1, task[..]);
        } else if passes == 1 {
          assert c == -1 || (Runnable(t, next) && t[next].counter != 0);
        } else {
          RechargedRunnable(t, task[..]);
        }
      }
      current := next;
      assert Picks(task[..], next);
    }

    /**
      The counter logic of do_timer (sched.c:372-381); cpl tells whether the clock interrupted user
      mode.  A slice that ends in kernel mode is left at zero until the system call returns.
    */
    method DoTimer(cpl: bool) returns (ghost rescheduled: bool)
      requires Sane()
      modifies this`current, task
      ensures Sane() && (cpl ==> Valid())
      ensures var j := old(current); var c := old(task[j].counter);
        && rescheduled == (c <= 1 && cpl)
        && var t1 := old(task[..])[j := old(task[j]).(counter := if c > 1 then c - 1 else 0)];
           if rescheduled then Scheduled(t1, task[..], current) else task[..] == t1 && current == j
    {
      task[current] := task[current].(counter := task[current].counter - 1);
      if task[current].counter > 0 {
        assert task[..] == old(task[..])[current := task[current]];
        return false;
      }
      task[current] := task[current].(counter := 0);
      assert task[..] == old(task[..])[current := task[current]];
      if !cpl {
        return false;
      }
      var passes := Schedule();
      rescheduled := true;
    }

    /**
      sys_nice (sched.c:424-429): the priority stays positive, and the state stays sound if and only
      if the slice that is left is within the bound of the new priority.
    */
    method Nice(increment: int)
      requires Valid()
      modifies task
      ensures task[..] == old(task[..])[current := Niced(old(task[current]), increment)]
      ensures var t := old(task[current]); var p := t.priority - increment;
        task[current] == if p > 0 then t.(priority := p) else t
      ensures task[current].Task? && (current != 0 ==> task[current].priority > 0)
      ensures Valid() <==> current == 0 || old(task[current]).counter <= 2 * task[current].priority - 1
    {
      ghost var t := task[..];
      assert InBounds(t[current]) || current == 0;
      if current != 0 {
        NiceKeepsBounds(t, current, increment);
      }
      if task[current].priority - increment > 0 {
        task[current] := task[current].(priority := task[current].priority - increment);
      }
      assert task[..] == t[current := Niced(t[current], increment)];
    }

    ghost function Now(): Snap
      reads this, task
      requires task.Length == NR_TASKS
    {
      Snap(task[..], current)
    }

    /** One event. */
    method Do(e: Event)
      requires Valid()
      modifies this`current, task
      ensures Valid() && SameTasks(old(task[..]), task[..]) && Happened(e, old(Now()), Now())
      ensures forall r: nat | Runnable(old(task[..]), r) && old(current) != r ::
                && Runnable(task[..], r)
                && Wait(task[..], r) + IdleLeft(task[..], current)
                     <= old(Wait(task[..], r) + IdleLeft(task[..], current)) - if e.Tick? then 1 else 0
    {
      hide Picks, Recharged;
      ghost var t := task[..];
      match e {
        case Tick =>
          var rescheduled := DoTimer(true);
          forall r: nat | Runnable(t, r) && old(current) != r
            ensures && Runnable(task[..], r)
                    && Wait(task[..], r) + IdleLeft(task[..], current) <= Wait(t, r) + IdleLeft(t, old(current)) - 1
          {
            var j := old(current);
            var t1 := t[j := t[j].(counter := if t[j].counter > 1 then t[j].counter - 1 else 0)];
            TickLowersWait(t, t1, j, r);
            assert Runnable(t1, r);
            if rescheduled {
              ScheduleKeepsWait(t1, task[..], current, r);
            }
          }
          TickTasks(t, task[..], old(current), current);
        case Block =>
          if current != 0 {
            task[current] := task[current].(runnable := false);
          }
          ghost var t1 := task[..];
          assert t1 == if current == 0 then t else t[current := t[current].(runnable := false)];
          StateKeepsTasks(t, t1);
          var passes := Schedule();
          Reschedule(t, t1, task[..], old(current), current);
        case Wake(i) =>
          if 0 < i < NR_TASKS && task[i].Task? {
            task[i] := task[i].(runnable := true);
            assert task[..] == t[i := task[i]];
          }
          StateKeepsTasks(t, task[..]);
          forall r: nat | Runnable(t, r) ensures Runnable(task[..], r) && Wait(task[..], r) == Wait(t, r) {
            StateKeepsWait(t, task[..], r);
          }
        case Yield =>
          StateKeepsTasks(t, t);
          var passes := Schedule();
          Reschedule(t, t, task[..], old(current), current);
      }
    }

    /**
      A task that can run, and does not have the processor, is picked within Wait ticks, which is never
      more than twice the sum of 2 * priority - 1 over the other tasks, whatever else happens.  If the
      idle task has the processor, what is left of its slice comes first.
    */
    method Run(events: seq<Event>, r: nat) returns (k: nat, ticks: nat, ghost trace: seq<Snap>)
      requires Valid() && Runnable(task[..], r) && current != r
      modifies this`current, task
      ensures Valid() && k <= |events| && ticks == Ticks(events[..k])
      ensures IsRun(events[..k], trace) && trace[0] == old(Now()) && trace[k] == Now()
      ensures forall i | 0 <= i < k :: trace[i].current != r
      ensures current != r ==> k == |events|
      ensures ticks <= old(Wait(task[..], r) + IdleLeft(task[..], current))
      ensures old(Wait(task[..], r)) <= 2 * old(Longest(task[..], r, NR_TASKS))
      ensures old(IdleLeft(task[..], current)) == if old(current) != 0 then 0 else if old(task[0]).counter > 1 then old(task[0]).counter else 1
    {
      hide Wait, Bounded, Longest, Happened;
      k, ticks, trace := 0, 0, [Now()];
      BoundedWait(r);
      while k < |events| && current != r
        invariant k <= |events| && ticks == Ticks(events[..k]) && Valid()
        invariant Runnable(task[..], r)
        invariant IsRun(events[..k], trace) && trace[0] == old(Now()) && trace[k] == Now()
        invariant forall i | 0 <= i < k :: trace[i].current != r
        invariant current != r ==> Wait(task[..], r) + IdleLeft(task[..], current) + ticks <= old(Wait(task[..], r) + IdleLeft(task[..], current))
        invariant ticks <= old(Wait(task[..], r) + IdleLeft(task[..], current))
      {
        Do(events[k]);
        RunGoesOn(events, k, trace, Now());
        trace := trace + [Now()];
        assert events[..k + 1][..k] == events[..k];
        if events[k].Tick? {
          ticks := ticks + 1;
        }
        k := k + 1;
        BoundedWait(r);
      }
    }

    lemma BoundedWait(r: nat)
      requires Valid()
      ensures 0 <= Wait(task[..], r) <= 2 * Longest(task[..], r, NR_TASKS)
    {
      WaitBounded(task[..], r);
    }
  }

  function Ticks(events: seq<Event>): nat {
    if events == [] then 0 else Ticks(events[..|events| - 1]) + if events[|events| - 1].Tick? then 1 else 0
  }

  lemma AllUsedUp(t: Table, next: nat)
    requires Bounded(t) && Picks(t, next) && (exists i: nat :: Runnable(t, i)) && next < NR_TASKS && t[next].Task? && t[next].counter == 0
    ensures forall i: nat | Runnable(t, i) :: t[i].counter == 0
  {
  }

  lemma RechargedRunnable(t: Table, t': Table)
    requires Recharged(t, t') && exists i: nat :: Runnable(t, i)
    ensures exists i: nat :: Runnable(t', i)
  {
    var i: nat :| Runnable(t, i);
    assert Runnable(t', i);
  }

  lemma StateKeepsTasks(t: Table, t': Table)
    requires Bounded(t)
    requires forall i | 0 <= i < NR_TASKS :: t[i].Task? == t'[i].Task? && (t[i].Task? ==> t'[i] == t[i].(runnable := t'[i].runnable))
    ensures Bounded(t') && SameTasks(t, t')
  {
  }

  lemma TickTasks(t: Table, t': Table, j: nat, next: nat)
    requires j < NR_TASKS && t[j].Task? && Bounded(t)
    requires var c := t[j].counter; var t1 := t[j := t[j].(counter := if c > 1 then c - 1 else 0)];
      if c > 1 then t' == t1 else Scheduled(t1, t', next)
    ensures SameTasks(t, t')
  {
  }

  lemma Reschedule(t: Table, t1: Table, t': Table, j: nat, next: nat)
    requires Bounded(t) && Scheduled(t1, t', next) && j < NR_TASKS
    requires forall i | 0 <= i < NR_TASKS :: t1[i].Task? == t[i].Task? && (t[i].Task? ==> t1[i] == t[i].(runnable := t1[i].runnable))
    requires forall i | 0 < i < NR_TASKS && i != j :: t1[i] == t[i]
    ensures SameTasks(t, t')
    ensures forall r: nat | Runnable(t, r) && r != j :: Runnable(t', r) && next != 0 && Wait(t', r) <= Wait(t, r)
  {
    StateKeepsTasks(t, t1);
    forall r: nat | Runnable(t, r) && r != j ensures Runnable(t', r) && next != 0 && Wait(t', r) <= Wait(t, r) {
      StateKeepsWait(t, t1, r);
      assert Runnable(t1, r);
      ScheduleKeepsWait(t1, t', next, r);
    }
  }
}
