/**
  From boot to a task that runs what another task wrote: write_verify (linux-0.11/mm/memory.c:328-346)
  gives a forked task a clean copy of a page its parent has written to, and share_page hands that copy
  to a third task as a page of their common executable.
*/
module StaleText {
  import opened PageWord
  import opened PageTables
  import opened FreeFrames
  import opened Faults
  import opened AddressSpaces
  import opened Memory
  import opened TaskSlots
  import opened Executables
  import opened Tasks

  /** Only these tasks exist. */
  ghost predicate Running(ts: seq<TaskSlot>, n: nat) {
    |ts| == NR_TASKS && 1 <= n < NR_TASKS && (forall s | 0 <= s < n :: ts[s].Task? && !ts[s].zombie) && forall s | n <= s < NR_TASKS :: ts[s].Free?
  }

  /** Memory and the first n tasks, with at least so many frames left. */
  ghost predicate Stage(t: TaskTable, n: nat, left: nat)
    reads t, t.mem, t.mem.ram, t.mem.memoryMap, t.task
  {
    t.Valid() && Running(t.task[..], n) && FreeCount(t.mem.memoryMap[..]) >= left
  }

  method Boot(start: nat, high: nat) returns (t: TaskTable)
    requires LOW <= start && start + 64 <= high <= FRAMES
    ensures Stage(t, 1, 64) && fresh(t) && fresh(t.mem) && fresh(t.mem.ram) && fresh(t.mem.memoryMap) && fresh(t.task)
  {
    hide Inv, FreeCount, SlotsOk, Owned;
    var mem := new Machine(start, high);
    FreeRange(mem.memoryMap[..], start - LOW, high - LOW);
    t := new TaskTable(mem);
    SlotFacts(t.mem.ram[..], t.mem.held, t.task[..], t.mem.high, 0);
  }

  /** Task `parent` makes the n-th task. */
  method ForkNext(t: TaskTable, parent: nat, n: nat, left: nat)
    requires Stage(t, n, left + 17) && parent < n < NR_TASKS - 1
    modifies t.mem`held, t.mem.ram, t.mem.memoryMap, t.task
    ensures Stage(t, n + 1, left)
    ensures ChildSees(old(t.mem.ram[..]), t.mem.ram[..], parent, n) && OthersSee(old(t.mem.ram[..]), t.mem.ram[..], n)
    ensures t.task[..] == old(t.task[..])[n := old(t.task[parent]).(page := t.task[n].page)]
  {
    hide Inv, FreeCount, SlotsOk, Owned, ChildSees, OthersSee, AllSee, TableCount;
    ForkCost(t.mem.ram[..], t.mem.held, t.task[..], t.mem.high, parent);
    var ok := t.CopyProcess(parent, n);
  }

  lemma ForkCost(r: Ram, held: Counts, ts: seq<TaskSlot>, high: nat, s: nat)
    requires SlotsOk(r, held, ts, high) && s < NR_TASKS && ts[s].Task? && !ts[s].zombie
    ensures TableCount(r, 16 * s, TablesOf(ts[s].dataLimit)) <= 16
  {
    SlotFacts(r, held, ts, high, s);
    AtMostOneEach(r, 16 * s, TablesOf(ts[s].dataLimit));
  }

  /** Task s starts the executable, without arguments. */
  method Start(t: TaskTable, n: nat, s: nat, executable: nat, programs: Programs, left: nat)
    requires Stage(t, n, left + 1) && 1 <= s < n && left > 0
    requires programs(executable).textSize <= MAX_IMAGE && programs(executable).endData <= MAX_IMAGE
    modifies t.mem`held, t.mem.ram, t.mem.memoryMap, t.task
    ensures Stage(t, n, left) && OthersSee(old(t.mem.ram[..]), t.mem.ram[..], s)
    ensures t.task[..] == old(t.task[..])[s := t.task[s]]
    ensures t.task[s].dataLimit == TASK_SIZE && t.task[s].executable == executable && t.task[s].endData == programs(executable).endData
    ensures !Dir(t.mem.ram[..], 16 * s).present
  {
    hide Inv, FreeCount, SlotsOk, Owned, OthersSee, LeftBy, AnyTable;
    ghost var m := t.mem.Abs();
    OwnsTable(m.ram, t.task[..], s);
    FreeIsLeft(m, t.mem.high, s);
    var pages := seq(MAX_ARG_PAGES, _ => 0);
    KernelTable(m, t.mem.high);
    NoArgPages(m, t.task[..], t.mem.high, pages);
    var ok := t.Exec(s, programs(executable).textSize, executable, programs(executable).endData, pages, 0);
  }

  /** Slot s has page 0 of its segment, in paged memory, marked so and with these contents. */
  ghost predicate Has(r: Ram, s: nat, dirty: bool, x: Frame)
    requires s < NR_TASKS
  {
    SlotPte(r, s, 0, 0).present && LOW <= SlotPte(r, s, 0, 0).page && SlotPte(r, s, 0, 0).dirty == dirty && SlotView(r, s, 0, 0) == Sees(x)
  }

  lemma StillHas(r0: Ram, r: Ram, s: nat, s': nat, dirty: bool, x: Frame)
    requires OthersSee(r0, r, s') && 1 <= s < NR_TASKS && s != s' && Has(r0, s, dirty, x)
    ensures Has(r, s, dirty, x)
  {
    assert SameSight(r0, r, 16 * s, 0);
  }

  /** The first process to run the executable loads its page from the file and stores into it. */
  method LoadAndWrite(t: TaskTable, e: nat, programs: Programs, x: Word)
    requires Stage(t, 2, 41) && t.task[1].executable == e != 0 && !Dir(t.mem.ram[..], 16).present
    requires t.task[1].dataLimit == TASK_SIZE && t.task[1].endData == programs(e).endData > 0
    modifies t.mem`held, t.mem.ram, t.mem.memoryMap, t.task
    ensures Stage(t, 2, 38) && t.task[..] == old(t.task[..])
    ensures Has(t.mem.ram[..], 1, true, programs(e).page(0)[0 := x])
  {
    hide Inv, FreeCount, SlotsOk, Owned, OthersSee, AllSeeBut, Unshared;
    var r := t.DoNoPage(1, 0, 0, 1, programs(e).page(0));
    assert r == Loaded;
    var ok := t.UserWrite(1, 0, 0, 0, x);
    WritableCountIsOne(t.mem.Abs(), t.mem.high, 16, 0);
  }

  /** The child of slot 1 has the page, and a write_verify gives it a copy that counts as clean. */
  method CopyUnwritten(t: TaskTable, x: Frame)
    requires Stage(t, 2, 38) && Has(t.mem.ram[..], 1, true, x) && t.task[1].dataLimit == TASK_SIZE
    modifies t.mem`held, t.mem.ram, t.mem.memoryMap, t.task
    ensures Stage(t, 3, 20) && t.task[1] == old(t.task[1]) && t.task[2] == old(t.task[1]).(page := t.task[2].page)
    ensures Has(t.mem.ram[..], 1, true, x) && Has(t.mem.ram[..], 2, false, x)
  {
    hide Inv, FreeCount, SlotsOk, Owned, OthersSee, AllSeeBut, Unshared;
    ghost var r0 := t.mem.ram[..];
    ForkNext(t, 1, 2, 21);
    ghost var m := t.mem.Abs();
    StillHas(r0, m.ram, 1, 2, true, x);
    ChildHas(r0, m.ram, x);
    TwoShare(m, t.mem.high);
    var ok := t.VerifyArea(2, 0, 0);
    StillHas(m.ram, t.mem.ram[..], 1, 2, true, x);
  }

  lemma ChildHas(r0: Ram, r: Ram, x: Frame)
    requires ChildSees(r0, r, 1, 2) && Has(r0, 1, true, x) && OthersSee(r0, r, 2)
    ensures Has(r, 2, true, x) && !SlotPte(r, 2, 0, 0).writable && SlotPte(r, 2, 0, 0).page == SlotPte(r, 1, 0, 0).page
  {
    assert SameSight(r0, r, 16, 0);
    assert SlotPte(r, 2, 0, 0).present;
    assert SlotView(r, 2, 0, 0) == SlotView(r0, 1, 0, 0);
  }

  /** A page two tasks map has not got a count of 1. */
  lemma TwoShare(m: Mem, high: nat)
    requires Inv(m, high) && SlotPte(m.ram, 1, 0, 0).present && SlotPte(m.ram, 2, 0, 0).present
    requires SlotPte(m.ram, 2, 0, 0).page == SlotPte(m.ram, 1, 0, 0).page
    ensures !Unshared(m, 32, 0)
  {
    hide Inv;
    if Unshared(m, 32, 0) {
      CountOneIsUnshared(m, high, 32, 0, 16, 0);
    }
  }

  /** A third task starts the same executable. */
  method StartThird(t: TaskTable, e: nat, programs: Programs, x: Frame)
    requires Stage(t, 3, 20) && Has(t.mem.ram[..], 1, true, x) && Has(t.mem.ram[..], 2, false, x)
    requires programs(e).endData <= MAX_IMAGE && programs(e).textSize <= MAX_IMAGE
    modifies t.mem`held, t.mem.ram, t.mem.memoryMap, t.task
    ensures Stage(t, 4, 2) && Has(t.mem.ram[..], 1, true, x) && Has(t.mem.ram[..], 2, false, x)
    ensures t.task[1] == old(t.task[1]) && t.task[2] == old(t.task[2]) && !Dir(t.mem.ram[..], 48).present
    ensures t.task[3].dataLimit == TASK_SIZE && t.task[3].executable == e && t.task[3].endData == programs(e).endData
  {
    hide Inv, FreeCount, SlotsOk, Owned, OthersSee, Has, ChildSees;
    ghost var r0 := t.mem.ram[..];
    ForkNext(t, 1, 3, 3);
    ghost var r1 := t.mem.ram[..];
    StillHas(r0, r1, 1, 3, true, x);
    StillHas(r0, r1, 2, 3, false, x);
    Start(t, 4, 3, e, programs, 2);
    StillHas(r1, t.mem.ram[..], 1, 3, true, x);
    StillHas(r1, t.mem.ram[..], 2, 3, false, x);
  }

  /** It touches the page, and is given what slot 1 wrote. */
  method ThirdTask(t: TaskTable, e: nat, programs: Programs, x: Frame)
    requires Stage(t, 4, 2) && Has(t.mem.ram[..], 1, true, x) && Has(t.mem.ram[..], 2, false, x)
    requires t.task[1].executable == t.task[2].executable == t.task[3].executable == e != 0
    requires t.task[3].dataLimit == TASK_SIZE && t.task[3].endData == programs(e).endData > 0 && !Dir(t.mem.ram[..], 48).present
    modifies t.mem`held, t.mem.ram, t.mem.memoryMap, t.task
    ensures t.Valid() && t.task[..] == old(t.task[..])
    ensures SlotView(t.mem.ram[..], 3, 0, 0) == Sees(x)
  {
    hide Inv, FreeCount, SlotsOk, Owned, OthersSee, AllSeeBut, Unshared;
    ghost var r2, ts := t.mem.ram[..], t.task[..];
    assert Sharer(r2, ts, 3, 0, 0, 2);
    var r := t.DoNoPage(3, 0, 0, 2, programs(e).page(0));
    assert r.SharedWith? && r.other == 2;
  }

  /**
    Whatever the file holds and whatever the first task stored: after booting with 64 free frames, a
    task that has just started the executable sees the stored word in a page nobody but the file should
    have filled.
  */
  method StaleShare(start: nat, high: nat, e: nat, programs: Programs, x: Word) returns (t: TaskTable)
    requires LOW <= start && start + 64 <= high <= FRAMES && e != 0
    requires 0 < programs(e).endData <= MAX_IMAGE && programs(e).textSize <= MAX_IMAGE
    ensures t.Valid() && t.task[3].Task? && t.task[3].executable == e && t.task[3].endData == programs(e).endData
    ensures SlotView(t.mem.ram[..], 3, 0, 0) == Sees(programs(e).page(0)[0 := x])
  {
    hide Inv, FreeCount, SlotsOk, Owned, OthersSee, ChildSees;
    t := Boot(start, high);
    ForkNext(t, 0, 1, 42);
    Start(t, 2, 1, e, programs, 41);
    LoadAndWrite(t, e, programs, x);
    CopyUnwritten(t, programs(e).page(0)[0 := x]);
    StartThird(t, e, programs, programs(e).page(0)[0 := x]);
    ThirdTask(t, e, programs, programs(e).page(0)[0 := x]);
  }
}
