/**
  Histories of the task table: what may be done by and to tasks, what each operation leaves behind, and
  isolation over any sequence of operations.
*/
module TaskRuns {
  import opened PageWord
  import opened PageTables
  import opened FreeFrames
  import opened Fork
  import opened Faults
  import opened AddressSpaces
  import opened TaskSlots
  import opened Executables

  datatype Op = DoFork(parent: nat, child: nat)
              | Exits(s: nat)
              | Reaped(s: nat)
              | Execs(s: nat, executable: nat, images: seq<Frame>, at: nat)
              | Touches(s: nat, k: nat, i: nat, users: nat)
              | Writes(s: nat, k: nat, i: nat, word: nat, x: Word)
              | Verifies(s: nat, k: nat, i: nat)

  /** The slot an operation is about: a fork is about the child. */
  function Actor(op: Op): nat {
    match op
    case DoFork(_, child) => child
    case _ => op.s
  }

  /** Slot s sees what it saw. */
  ghost predicate SlotSees(r0: Ram, r: Ram, s: nat) {
    forall d: nat, i: nat {:trigger SameSight(r0, r, d, i)} {:trigger ViewOf(r, d, i)}
      | FIRST_USER <= d < ENTRIES && i < ENTRIES && d / 16 == s :: SameSight(r0, r, d, i)
  }

  /** A slot no operation was about sees what it saw. */
  ghost predicate Isolated(r0: Ram, r: Ram, ops: seq<Op>) {
    forall s: nat {:trigger SlotSees(r0, r, s)} | 1 <= s < NR_TASKS && (forall op | op in ops :: Actor(op) != s) :: SlotSees(r0, r, s)
  }

  lemma IsolatedStart(r: Ram)
    ensures Isolated(r, r, [])
  {
  }

  lemma IsolatedNext(r0: Ram, r1: Ram, r2: Ram, ops: seq<Op>, n: nat)
    requires n < |ops| && Isolated(r0, r1, ops[..n]) && OthersSee(r1, r2, Actor(ops[n]))
    ensures Isolated(r0, r2, ops[..n + 1])
  {
    hide SlotSees, OthersSee;
    forall s: nat | 1 <= s < NR_TASKS && (forall op | op in ops[..n + 1] :: Actor(op) != s) ensures SlotSees(r0, r2, s) {
      assert ops[..n + 1][n] == ops[n];
      forall op | op in ops[..n] ensures op in ops[..n + 1] {
        var k :| 0 <= k < n && ops[..n][k] == op;
        assert ops[..n + 1][k] == op;
      }
      OtherSlotSees(r0, r1, r2, s, Actor(ops[n]));
    }
  }

  lemma OtherSlotSees(r0: Ram, r1: Ram, r2: Ram, s: nat, t: nat)
    requires SlotSees(r0, r1, s) && OthersSee(r1, r2, t) && t != s
    ensures SlotSees(r0, r2, s)
  {
    forall d: nat, i: nat | FIRST_USER <= d < ENTRIES && i < ENTRIES && d / 16 == s ensures SameSight(r0, r2, d, i) {
      assert SameSight(r0, r1, d, i) && SameSight(r1, r2, d, i);
    }
  }

  // ----- What each operation does -----

  /** The state between two operations. */
  datatype Snap = Snap(mem: Mem, ts: seq<TaskSlot>)

  predicate Live(ts: seq<TaskSlot>, s: nat) {
    |ts| == NR_TASKS && s < NR_TASKS && ts[s].Task? && !ts[s].zombie
  }

  /** The operation can happen in this state. */
  predicate Possible(op: Op, programs: Programs, s: Snap) {
    && |s.ts| == NR_TASKS
    && match op
       case DoFork(parent, child) => Live(s.ts, parent) && 1 <= child < NR_TASKS && s.ts[child].Free?
       case Exits(t) => 1 <= t < NR_TASKS && s.ts[t].Task?
       case Reaped(t) => 1 <= t < NR_TASKS && s.ts[t].Task? && s.ts[t].zombie
       case Execs(t, e, images, at) =>
         && 1 <= t && Live(s.ts, t) && programs(e).textSize <= MAX_IMAGE && programs(e).endData <= MAX_IMAGE
         && |images| <= MAX_ARG_PAGES && at < ENTRIES
       case Touches(t, k, i, users) => FaultAt(s.ts, t, k, i) && !SlotPte(s.mem.ram, t, k, i).present
       case Writes(t, k, i, word, x) => FaultAt(s.ts, t, k, i) && word < 1024 && SlotPte(s.mem.ram, t, k, i).present
       case Verifies(t, k, i) => FaultAt(s.ts, t, k, i)
  }

  /** Only write access to pages may have changed. */
  ghost predicate Unchanged(s: Snap, s': Snap) {
    s'.ts == s.ts && s'.mem.count == s.mem.count && s'.mem.held == s.mem.held && AllSee(s.mem.ram, s'.mem.ram)
  }

  /** A write to the page has to move it: it is read only, and others map it too. */
  predicate MustCopy(m: Mem, t: nat, k: nat, i: nat)
    requires t < NR_TASKS && k < 16 && i < ENTRIES
  {
    !SlotPte(m.ram, t, k, i).writable && !Unshared(m, 16 * t + k, i)
  }

  /** Slot t sees the argument pages at the top, a blank page at `at` if there is none, and nothing else. */
  ghost predicate ImageSeen(r: Ram, t: nat, images: seq<Frame>, at: nat)
    requires t < NR_TASKS && |images| <= MAX_ARG_PAGES && at < ENTRIES
  {
    && (forall j: nat | j < |images| :: SlotView(r, t, 15, 1023 - j) == Sees(images[j]))
    && (at < 1024 - |images| ==> Zero(SlotView(r, t, 15, at)))
    && (forall x: nat {:trigger SlotPte(r, t, 15, x)} | x < 1024 - |images| && x != at :: !SlotPte(r, t, 15, x).present)
    && (forall d: nat | 16 * t <= d < 16 * t + 15 :: !Dir(r, d).present)
  }

  lemma ArgsAre(pages: seq<nat>, images: seq<Frame>, at: nat)
    requires |pages| == MAX_ARG_PAGES && |images| <= MAX_ARG_PAGES && at < ENTRIES
    requires forall j: nat {:trigger pages[j]} | j < MAX_ARG_PAGES - |images| :: pages[j] == 0
    requires forall j: nat {:trigger pages[j]} | MAX_ARG_PAGES - |images| <= j < MAX_ARG_PAGES :: 0 < pages[j]
    ensures NoArg(pages, at) <==> at < 1024 - |images|
  {
    if at >= 992 {
      assert pages[at - 992] == 0 <==> at - 992 < MAX_ARG_PAGES - |images|;
    }
  }

  lemma ArgsTaken(m: Mem, m': Mem, ts: seq<TaskSlot>, high: nat, s: nat, pages: seq<nat>, n: nat)
    requires Inv(m, high) && OnlyPages(m, m', pages) && FreeCount(m'.count) == FreeCount(m.count) - n
    requires |pages| == MAX_ARG_PAGES && ArgPages(m', ts, high, pages, MAX_ARG_PAGES) && AllSee(m.ram, m'.ram)
    requires forall d: nat | d < ENTRIES :: Dir(m'.ram, d) == Dir(m.ram, d)
    ensures |LeftBy(m', s)| == |LeftBy(m, s)| - n
  {
    hide Inv;
    forall f: nat | LOW <= f < FRAMES && f in pages ensures m'.Held(f) == 1 == m'.Count(f) {
      var j: nat :| j < MAX_ARG_PAGES && pages[j] == f;
    }
    forall d: nat, i: nat | FIRST_USER <= d < ENTRIES && i < ENTRIES ensures ReadOnly(Pte(m'.ram, d, i)) == ReadOnly(Pte(m.ram, d, i)) {
      assert SameSight(m.ram, m'.ram, d, i);
    }
    LeftAfterTaking(m, m', high, s, pages, n);
  }

  /** The argument pages hold the images, the first one at the top. */
  lemma ImageIsSeen(r1: Ram, r: Ram, t: nat, pages: seq<nat>, images: seq<Frame>, at: nat)
    requires t < NR_TASKS && |pages| == MAX_ARG_PAGES && |images| <= MAX_ARG_PAGES && at < ENTRIES && NewImage(r1, r, t, pages, at)
    requires forall j: nat {:trigger pages[j]} | j < MAX_ARG_PAGES - |images| :: pages[j] == 0
    requires forall j: nat {:trigger pages[j]} | MAX_ARG_PAGES - |images| <= j < MAX_ARG_PAGES ::
               0 < pages[j] < FRAMES && r1[pages[j]] == images[MAX_ARG_PAGES - 1 - j]
    ensures ImageSeen(r, t, images, at) && (NoArg(pages, at) <==> at < 1024 - |images|)
  {
    forall j: nat | j < |images| ensures SlotView(r, t, 15, 1023 - j) == Sees(images[j]) {
      var k := MAX_ARG_PAGES - 1 - j;
      assert pages[k] != 0 && SlotView(r, t, 15, 992 + k) == Sees(r1[pages[k]]);
    }
    forall x: nat | x < ENTRIES ensures NoArg(pages, x) <==> x < 1024 - |images| {
      if x >= 992 {
        assert pages[x - 992] == 0 <==> x - 992 < MAX_ARG_PAGES - |images|;
      }
    }
  }

  /** What each operation does when it can happen. */
  ghost predicate Effect(op: Op, programs: Programs, s: Snap, s': Snap)
    requires Possible(op, programs, s)
  {
    match op
    case DoFork(p, c) =>
      var needed := 1 + TableCount(s.mem.ram, 16 * p, TablesOf(s.ts[p].dataLimit));
      if needed > FreeCount(s.mem.count) then Unchanged(s, s')
      else && |s'.ts| == NR_TASKS && s'.ts[c].Task? && s'.ts == s.ts[c := s.ts[p].(page := s'.ts[c].page)]
           && ChildSees(s.mem.ram, s'.mem.ram, p, c) && FreeCount(s'.mem.count) == FreeCount(s.mem.count) - needed
    case Exits(t) => Killed(s.ts, s'.ts, s'.mem.ram, t)
    case Reaped(t) => s'.ts == s.ts[t := Free] && s'.mem.ram == s.mem.ram
    case Execs(t, e, images, at) =>
      var needed := |images| + 1 + if at < 1024 - |images| then 1 else 0;
      if |images| > FreeCount(s.mem.count) then Unchanged(s, s')
      else if needed > |LeftBy(s.mem, t)| then
        && s'.ts == s.ts[t := Task(RoundUp(programs(e).textSize), TASK_SIZE, 0, s.ts[t].endData, s.ts[t].page, true)]
        && Empty(s'.mem.ram, t, 0)
      else && s'.ts == s.ts[t := Task(RoundUp(programs(e).textSize), TASK_SIZE, e, programs(e).endData, s.ts[t].page, false)]
           && ImageSeen(s'.mem.ram, t, images, at) && FreeCount(s'.mem.count) == |LeftBy(s.mem, t)| - needed
    case Touches(t, k, i, users) =>
      if FaultCost(s.mem.ram, s.ts, t, k, i, users) > FreeCount(s.mem.count) then Killed(s.ts, s'.ts, s'.mem.ram, t)
      else && s'.ts == s.ts && AllSeeBut(s.mem.ram, s'.mem.ram, 16 * t + k, i)
           && if !OfFile(s.ts[t], k, i) then SlotView(s'.mem.ram, t, k, i) == Sees(ZERO_FRAME)
              else if CanShare(s.mem.ram, s.ts, t, k, i, users) then exists o: nat :: SharedFrom(s, s', t, k, i, o)
              else SlotView(s'.mem.ram, t, k, i) == Sees(programs(s.ts[t].executable).page(k * ENTRIES + i))
    case Writes(t, k, i, word, x) =>
      if MustCopy(s.mem, t, k, i) && FreeCount(s.mem.count) == 0 then Killed(s.ts, s'.ts, s'.mem.ram, t)
      else && s'.ts == s.ts && AllSeeBut(s.mem.ram, s'.mem.ram, 16 * t + k, i) && SlotView(s.mem.ram, t, k, i).Sees?
           && SlotView(s'.mem.ram, t, k, i) == Sees(SlotView(s.mem.ram, t, k, i).page[word := x])
    case Verifies(t, k, i) =>
      if SlotPte(s.mem.ram, t, k, i).present && MustCopy(s.mem, t, k, i) && FreeCount(s.mem.count) == 0 then Killed(s.ts, s'.ts, s'.mem.ram, t)
      else && s'.ts == s.ts && AllSeeBut(s.mem.ram, s'.mem.ram, 16 * t + k, i)
           && SlotView(s'.mem.ram, t, k, i) == SlotView(s.mem.ram, t, k, i)
           && (SlotPte(s.mem.ram, t, k, i).present ==> SlotPte(s'.mem.ram, t, k, i).present && SlotPte(s'.mem.ram, t, k, i).writable)
  }

  /** After exec nothing of the old executable is left, and nothing of the new one is there yet. */
  lemma ExecFresh(t: nat, e: nat, images: seq<Frame>, at: nat, programs: Programs, s: Snap, s': Snap)
    requires var op := Execs(t, e, images, at); Possible(op, programs, s) && Effect(op, programs, s, s')
    requires Pristine(s.mem.ram, s.ts, programs)
    ensures s'.ts == s.ts[t := s'.ts[t]] && SlotFresh(s'.mem.ram, s'.ts[t], t, programs)
  {
    hide SlotFresh, AllSee, FreeCount, LeftBy;
    assert SlotFresh(s.mem.ram, s.ts[t], t, programs);
    if s'.ts == s.ts {
      if Unchanged(s, s') {
        AllStayFresh(s.mem.ram, s'.mem.ram, s.ts[t], t, programs);
      } else {
        BlankIsFresh(s'.mem.ram, s'.ts[t], t, programs);
      }
    } else if s'.ts[t].executable == 0 {
      GoneIsFresh(s'.mem.ram, s'.ts[t], t, programs);
    } else {
      BlankIsFresh(s'.mem.ram, s'.ts[t], t, programs);
    }
  }

  /** Slot t now sees what slot o saw there, which runs the same file. */
  ghost predicate SharedFrom(s: Snap, s': Snap, t: nat, k: nat, i: nat, o: nat)
    requires |s.ts| == NR_TASKS && t < NR_TASKS && k < 16 && i < ENTRIES
  {
    Sharer(s.mem.ram, s.ts, t, k, i, o) && SlotView(s'.mem.ram, t, k, i) == SlotView(s.mem.ram, o, k, i)
  }

  /** The operation has led from s to s'; one that cannot happen leads nowhere. */
  ghost predicate Happened(op: Op, programs: Programs, s: Snap, s': Snap) {
    OthersSee(s.mem.ram, s'.mem.ram, Actor(op)) && if Possible(op, programs, s) then Effect(op, programs, s, s') else s' == s
  }

  /** trace is the history these operations make, state by state. */
  ghost predicate IsRun(ops: seq<Op>, programs: Programs, trace: seq<Snap>) {
    |trace| == |ops| + 1 && forall i | 0 <= i < |ops| :: Happened(ops[i], programs, trace[i], trace[i + 1])
  }

  lemma RunGoesOn(ops: seq<Op>, n: nat, programs: Programs, trace: seq<Snap>, s: Snap)
    requires n < |ops| && IsRun(ops[..n], programs, trace) && Happened(ops[n], programs, trace[n], s)
    ensures IsRun(ops[..n + 1], programs, trace + [s])
  {
    hide Happened;
    var os, tr := ops[..n + 1], trace + [s];
    forall i | 0 <= i <= n ensures Happened(os[i], programs, tr[i], tr[i + 1]) {
      if i < n {
        assert Happened(ops[..n][i], programs, trace[i], trace[i + 1]);
      }
    }
  }
}
