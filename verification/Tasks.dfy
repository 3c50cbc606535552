/**
  The memory side of fork, exec, exit and page faults: linux-0.11/kernel/fork.c (copy_mem and the
  allocation part of copy_process), kernel/exit.c (do_exit, release), fs/exec.c (change_ldt) and
  mm/memory.c (share_page, do_no_page, do_wp_page), over the 64 slots of the task table.
*/
module Tasks {
  import opened PageWord
  import opened PageTables
  import opened Fork
  import opened Faults
  import opened AddressSpaces
  import opened Memory
  import opened FreeFrames
  import opened TaskSlots
  import opened Executables
  import opened TaskRuns

  class TaskTable {
    const mem: Machine
    const task: array<TaskSlot>

    ghost predicate Sound()
      reads this, mem, mem.ram, mem.memoryMap, task
    {
      && mem.Valid() && task.Length == NR_TASKS
      && SlotsOk(mem.ram[..], mem.held, task[..], mem.high)
    }

    ghost predicate Valid()
      reads this, mem, mem.ram, mem.memoryMap, task
    {
      Sound() && Owned(mem.ram[..], task[..])
    }

    ghost function Snapshot(): Snap
      reads this, mem, mem.ram, mem.memoryMap, task
      requires mem.Shaped()
    {
      Snap(mem.Abs(), task[..])
    }

    /** kernel/sched.c:71: only INIT_TASK, in slot 0, exists at boot. */
    constructor (mem: Machine)
      requires mem.Valid() && forall d: nat | FIRST_USER <= d < ENTRIES :: !Dir(mem.ram[..], d).present
      ensures Valid() && fresh(task) && this.mem == mem
      ensures task[0] == Task(TASK0_LIMIT, TASK0_LIMIT, 0, 0, 0, false) && forall s | 1 <= s < NR_TASKS :: task[s].Free?
    {
      this.mem := mem;
      task := new TaskSlot[NR_TASKS](_ => Free);
      new;
      task[0] := Task(TASK0_LIMIT, TASK0_LIMIT, 0, 0, 0, false);
    }

    /** kernel/fork.c:45-76: the child's segments start at nr * 64MB and share the parent's pages. */
    method CopyMem(parent: nat, nr: nat) returns (ok: bool)
      requires mem.Valid() && task.Length == NR_TASKS && parent < NR_TASKS && 1 <= nr < NR_TASKS && parent != nr
      requires Empty(mem.ram[..], nr, 0) && task[parent].Task? && TablesOf(task[parent].dataLimit) <= 16
      requires parent == 0 ==> task[parent].dataLimit == TASK0_LIMIT
      requires parent != 0 ==> Empty(mem.ram[..], parent, TablesOf(task[parent].dataLimit)) && AnyTable(mem.ram[..], parent)
      modifies mem`held, mem.ram, mem.memoryMap
      ensures mem.Valid() && mem.held == old(mem.held)
      ensures forall d: nat | FIRST_USER <= d < ENTRIES && d / 16 != nr :: Dir(mem.ram[..], d).present == Dir(old(mem.ram[..]), d).present
      ensures ok ==> Empty(mem.ram[..], nr, TablesOf(task[parent].dataLimit)) && AnyTable(mem.ram[..], nr)
      ensures ok ==> ChildSees(old(mem.ram[..]), mem.ram[..], parent, nr) && OthersSee(old(mem.ram[..]), mem.ram[..], nr)
      ensures !ok ==> Empty(mem.ram[..], nr, 0) && mem.memoryMap[..] == old(mem.memoryMap[..])
      ensures !ok ==> AllSee(old(mem.ram[..]), mem.ram[..])
      ensures var tables := TableCount(old(mem.ram[..]), 16 * parent, TablesOf(task[parent].dataLimit));
        && (ok <==> tables <= old(FreeCount(mem.memoryMap[..])))
        && (ok ==> FreeCount(mem.memoryMap[..]) == old(FreeCount(mem.memoryMap[..])) - tables)
    {
      hide Inv;
      hide CopiedUpTo, AllSee, OthersSee, ChildSees, TablesCopied, AnyTable, FreeCount, TableCount;
      ghost var m0 := mem.Abs();
      KernelTable(m0, mem.high);
      var n := TablesOf(task[parent].dataLimit);
      assert parent == 0 ==> n == 1;
      var copied, k := mem.CopyPageTables(16 * parent, 16 * nr, n);
      ghost var m1 := mem.Abs();
      if copied {
        CopiedMeansChildSees(m0, m1, mem.high, parent, nr, n);
        CopiedDirs(m0.ram, m1.ram, 16 * parent, 16 * nr, n, n, 0);
        ChildOwns(m0.ram, m1.ram, parent, nr, n);
        return true;
      }
      mem.FreePageTables(16 * nr, n);
      ghost var m2 := mem.Abs();
      RollbackRestoresCounts(m0, m1, m2, mem.high, parent, nr, n, k);
      assert mem.memoryMap[..] == m2.count && old(mem.memoryMap[..]) == m0.count;
      ok := false;
    }

    /**
      kernel/fork.c:83-147: a page for the task structure, then the page tables.  When either runs out
      of memory, every reference count and every task's view is as before.
    */
    method CopyProcess(parent: nat, nr: nat) returns (ok: bool)
      requires Valid() && parent < NR_TASKS && task[parent].Task? && !task[parent].zombie
      requires 1 <= nr < NR_TASKS && task[nr].Free?
      modifies mem`held, mem.ram, mem.memoryMap, task
      ensures Valid()
      ensures ok ==> ChildSees(old(mem.ram[..]), mem.ram[..], parent, nr) && OthersSee(old(mem.ram[..]), mem.ram[..], nr)
      ensures ok ==> task[nr].Task? && task[..] == old(task[..])[nr := old(task[parent]).(page := task[nr].page)]
      ensures !ok ==> task[..] == old(task[..]) && mem.memoryMap[..] == old(mem.memoryMap[..]) && mem.held == old(mem.held)
      ensures !ok ==> AllSee(old(mem.ram[..]), mem.ram[..])
      ensures var needed := 1 + TableCount(old(mem.ram[..]), 16 * parent, TablesOf(old(task[parent]).dataLimit));
        && (ok <==> needed <= old(FreeCount(mem.memoryMap[..])))
        && (ok ==> FreeCount(mem.memoryMap[..]) == old(FreeCount(mem.memoryMap[..])) - needed)
    {
      hide Inv;
      hide SlotsOk, AllSee, OthersSee, ChildSees, Owned, AnyTable, FreeCount, TableCount, Empty, TablesOf;
      ghost var m0, ts := mem.Abs(), task[..];
      KernelTable(m0, mem.high);
      AllSeeRefl(m0.ram);
      var p := mem.GetFreePage();
      if p == 0 {
        return false;
      }
      FreeIsUnheld(m0, mem.high, p);
      ForkReady(m0.ram, mem.ram[..], m0.held, ts, mem.high, parent, nr);
      SameTableCount(m0.ram, mem.ram[..], 16 * parent, TablesOf(task[parent].dataLimit));
      task[nr] := task[parent].(page := p);
      ok := CopyMem(parent, nr);
      if ok {
        SeenThroughAlloc(m0, mem.high, p, mem.ram[..], parent, nr);
      } else {
        task[nr] := Free;
        mem.FreeHeldPage(p);
        assert mem.memoryMap[..] == m0.count;
        assert mem.held == m0.held;
        AllSeeThroughAlloc(m0, mem.high, p, mem.ram[..]);
      }
      ForkDone(m0.ram, mem.ram[..], m0.held, mem.held, ts, mem.high, parent, nr, task[nr]);
      assert task[..] == ts[nr := task[nr]];
    }

    /** kernel/exit.c:110-115: both segments' tables are freed; the structure stays until release. */
    method DoExit(s: nat)
      requires Sound() && 1 <= s < NR_TASKS && task[s].Task?
      modifies mem.ram, mem.memoryMap, task
      ensures Sound() && mem.held == old(mem.held) && (old(Valid()) ==> Valid())
      ensures forall d: nat | FIRST_USER <= d < ENTRIES && d / 16 != s :: Dir(mem.ram[..], d) == Dir(old(mem.ram[..]), d)
      ensures task[..] == old(task[..])[s := old(task[s]).(zombie := true, executable := 0)]
      ensures Empty(mem.ram[..], s, 0) && OthersSee(old(mem.ram[..]), mem.ram[..], s)
    {
      hide Inv;
      hide SlotsOk, OthersSee, Owned;
      ghost var m0, ts := mem.Abs(), task[..];
      FreeSegments(s);
      SlotFacts(m0.ram, m0.held, ts, mem.high, s);
      task[s] := task[s].(zombie := true, executable := 0);
      SlotsOkUpdate(m0.ram, mem.ram[..], m0.held, m0.held, ts, mem.high, s, task[s]);
      if Owned(m0.ram, ts) {
        OwnedUpdate(m0.ram, mem.ram[..], ts, s, task[s]);
      }
      assert task[..] == ts[s := task[s]];
    }

    /** exit.c:114-115 and exec.c:400-401: free_page_tables over the code and then the data segment. */
    method FreeSegments(s: nat)
      requires Sound() && 1 <= s < NR_TASKS && task[s].Task?
      modifies mem.ram, mem.memoryMap
      ensures mem.Valid() && Empty(mem.ram[..], s, 0) && OthersSee(old(mem.ram[..]), mem.ram[..], s)
      ensures HeldKept(old(mem.Abs()), mem.Abs())
      ensures FreeCount(mem.memoryMap[..]) == |LeftBy(old(mem.Abs()), s)|
      ensures forall d: nat | FIRST_USER <= d < ENTRIES && d / 16 != s :: Dir(mem.ram[..], d) == Dir(old(mem.ram[..]), d)
      ensures forall d: nat, j: nat {:trigger Pte(mem.ram[..], d, j)} | FIRST_USER <= d < ENTRIES && j < ENTRIES && d / 16 != s ::
                Pte(mem.ram[..], d, j) == Pte(old(mem.ram[..]), d, j)
    {
      hide Inv;
      hide SlotsOk, SameOutside, OthersSee, HeldKept, CountsFall, FreeCount;
      SlotFacts(mem.ram[..], mem.held, task[..], mem.high, s);
      TablesMonotone(task[s].codeLimit, task[s].dataLimit);
      ghost var m0 := mem.Abs();
      mem.FreePageTables(16 * s, TablesOf(task[s].codeLimit));
      ghost var m1 := mem.Abs();
      mem.FreePageTables(16 * s, TablesOf(task[s].dataLimit));
      ghost var m2 := mem.Abs();
      KeptTrans(m0, m1, m2);
      SlotFreed(m0.ram, m1.ram, m2.ram, s, TablesOf(task[s].codeLimit), TablesOf(task[s].dataLimit), task[s].zombie);
      SlotGone(m0, m2, mem.high, s);
      assert mem.memoryMap[..] == m2.count;
    }

    /** kernel/exit.c:19-35: the parent has waited; the structure's page and the slot become free. */
    method Release(s: nat)
      requires Valid() && 1 <= s < NR_TASKS && task[s].Task? && task[s].zombie
      modifies mem`held, mem.memoryMap, task
      ensures Valid() && task[..] == old(task[..])[s := Free]
      ensures var f := old(task[s]).page; LOW <= f < FRAMES && mem.held == old(mem.held)[f - LOW := 0]
    {
      hide Inv;
      hide SlotsOk, Owned;
      ghost var m0, ts := mem.Abs(), task[..];
      SlotFacts(m0.ram, m0.held, ts, mem.high, s);
      var p := task[s].page;
      task[s] := Free;
      mem.FreeHeldPage(p);
      SlotsOkUpdate(m0.ram, m0.ram, m0.held, mem.held, ts, mem.high, s, Free);
      OwnedUpdate(m0.ram, m0.ram, ts, s, Free);
      assert task[..] == ts[s := Free];
    }

    // ----- exec -----

    /**
      fs/exec.c:383-411 with change_ldt (184-212): the old address space goes, the data segment becomes
      64MB, and the argument pages are mapped at its top.  put_page's result is not looked at, but it
      succeeds, because freeing the table the task owned left a frame for the new one.  create_tables
      then stores at page x of the last 4MB, which brings in a zeroed page if no argument page is
      there; out of memory, at this point, kills the task.
    */
    method Exec(s: nat, textSize: nat, executable: nat, endData: nat, pages: seq<nat>, x: nat) returns (ok: bool)
      requires Valid() && 1 <= s < NR_TASKS && task[s].Task? && !task[s].zombie
      requires textSize <= MAX_IMAGE && endData <= MAX_IMAGE && |pages| == MAX_ARG_PAGES && x < ENTRIES
      requires ArgPages(mem.Abs(), task[..], mem.high, pages, MAX_ARG_PAGES)
      modifies mem`held, mem.ram, mem.memoryMap, task
      ensures Valid() && OthersSee(old(mem.ram[..]), mem.ram[..], s)
      ensures task[..] == old(task[..])[s := task[s]]
      ensures ok ==> task[s] == Task(RoundUp(textSize), TASK_SIZE, executable, endData, old(task[s]).page, false)
      ensures ok ==> NewImage(old(mem.ram[..]), mem.ram[..], s, pages, x)
      ensures !ok ==> task[s] == Task(RoundUp(textSize), TASK_SIZE, 0, old(task[s]).endData, old(task[s]).page, true)
      ensures !ok ==> Empty(mem.ram[..], s, 0)
      ensures var left := |LeftBy(old(mem.Abs()), s)|; var store := if NoArg(pages, x) then 1 else 0;
        && (ok <==> 1 + store <= left)
        && (ok ==> FreeCount(mem.memoryMap[..]) == left - 1 - store)
    {
      hide Inv;
      hide SlotsOk, OthersSee, AllSee, AllSeeBut, SameBut, Owned, AnyTable, NewImage, OnlyArgs, FreeCount, LeftBy;
      ghost var r0, ts := mem.ram[..], task[..];
      StartImage(s, textSize, executable, pages);
      ghost var r2, ts2 := mem.ram[..], task[..];
      ArgIsPresent(r0, r2, s, pages, x);
      if SlotPte(mem.ram[..], s, 15, x).present {
        SameButRefl(r2, 16 * s + 15, x);
      } else {
        ok := GetEmptyPage(s, 15, x);
        if !ok {
          ghost var r3 := mem.ram[..];
          DoExit(s);
          AllThenOthersSee(r2, r3, mem.ram[..], s);
          OthersSeeTrans(r0, r2, mem.ram[..], s);
          OwnedUpdate(r0, mem.ram[..], ts, s, task[s]);
          assert task[..] == ts[s := task[s]];
          return;
        }
      }
      SameButMeansAllSeeBut(r2, mem.ram[..], 16 * s + 15, x);
      OthersSeeTrans(r0, r2, mem.ram[..], s);
      FirstStore(r0, r2, mem.ram[..], s, pages, x);
      SlotOwns(mem.ram[..], s, 15);
      SetEndData(s, endData);
      OwnedUpdate(r0, mem.ram[..], ts, s, task[s]);
      assert task[..] == ts[s := task[s]];
      ok := true;
    }

    /** exec.c:411. */
    method SetEndData(s: nat, endData: nat)
      requires Sound() && 1 <= s < NR_TASKS && task[s].Task? && endData <= MAX_IMAGE
      modifies task
      ensures Sound() && task[..] == old(task[..])[s := old(task[s]).(endData := endData)]
    {
      hide SlotsOk;
      ghost var ts := task[..];
      SlotFacts(mem.ram[..], mem.held, ts, mem.high, s);
      task[s] := task[s].(endData := endData);
      SlotsOkUpdate(mem.ram[..], mem.ram[..], mem.held, mem.held, ts, mem.high, s, task[s]);
      assert task[..] == ts[s := task[s]];
    }

    /** exec.c:385-407: the task has its new executable and limits, and sees its argument pages only. */
    method StartImage(s: nat, textSize: nat, executable: nat, pages: seq<nat>)
      requires Valid() && 1 <= s < NR_TASKS && task[s].Task? && !task[s].zombie
      requires textSize <= MAX_IMAGE && |pages| == MAX_ARG_PAGES
      requires ArgPages(mem.Abs(), task[..], mem.high, pages, MAX_ARG_PAGES)
      modifies mem`held, mem.ram, mem.memoryMap, task
      ensures Sound() && OthersSee(old(mem.ram[..]), mem.ram[..], s)
      ensures task[..] == old(task[..])[s := Task(RoundUp(textSize), TASK_SIZE, executable, old(task[s]).endData, old(task[s]).page, false)]
      ensures OnlyArgs(old(mem.ram[..]), mem.ram[..], s, pages)
      ensures forall d: nat | FIRST_USER <= d < ENTRIES && d / 16 != s :: Dir(mem.ram[..], d) == Dir(old(mem.ram[..]), d)
      ensures var left := |LeftBy(old(mem.Abs()), s)|;
        left > 0 && FreeCount(mem.memoryMap[..]) == left - if Dir(mem.ram[..], 16 * s + 15).present then 1 else 0
    {
      hide Inv;
      hide SlotsOk, OthersSee, ArgPages, Owned, OnlyArgs, FreeCount, LeftBy;
      ghost var m0, ts := mem.Abs(), task[..];
      SlotFacts(m0.ram, m0.held, ts, mem.high, s);
      PlaceArgPages(s, pages);
      task[s] := Task(RoundUp(textSize), TASK_SIZE, executable, task[s].endData, task[s].page, false);
      SlotsOkUpdate(m0.ram, mem.ram[..], m0.held, mem.held, ts, mem.high, s, task[s]);
      assert task[..] == ts[s := task[s]];
    }

    /** The old page tables go and the argument pages are mapped (exec.c:400-401 and 204-211). */
    method PlaceArgPages(s: nat, pages: seq<nat>)
      requires Valid() && 1 <= s < NR_TASKS && task[s].Task? && !task[s].zombie && |pages| == MAX_ARG_PAGES
      requires ArgPages(mem.Abs(), task[..], mem.high, pages, MAX_ARG_PAGES)
      modifies mem`held, mem.ram, mem.memoryMap
      ensures mem.Valid() && OthersSee(old(mem.ram[..]), mem.ram[..], s)
      ensures OnlyArgs(old(mem.ram[..]), mem.ram[..], s, pages)
      ensures forall d: nat | FIRST_USER <= d < ENTRIES && d / 16 != s :: Dir(mem.ram[..], d) == Dir(old(mem.ram[..]), d)
      ensures forall s': nat {:trigger task[s']} | 1 <= s' < NR_TASKS && task[s'].Task? && LOW <= task[s'].page < FRAMES ::
                mem.held[task[s'].page - LOW] == old(mem.held)[task[s'].page - LOW]
      ensures var left := |LeftBy(old(mem.Abs()), s)|;
        left > 0 && FreeCount(mem.memoryMap[..]) == left - if Dir(mem.ram[..], 16 * s + 15).present then 1 else 0
    {
      hide Inv;
      hide SlotsOk, OthersSee, HeldKept, SameBut, ArgPages, Placed, Owned, AnyTable, FreeCount, LeftBy;
      ghost var m0, ts := mem.Abs(), task[..];
      OwnsTable(m0.ram, ts, s);
      TableIsLeft(m0, mem.high, s);
      FreeSegments(s);
      ghost var m1 := mem.Abs();
      PlacedStarts(m0, m1, ts, mem.high, pages, s);
      assert !Dir(m1.ram, 16 * s + 15).present;
      var i := MAX_ARG_PAGES;
      while i > 0
        invariant 0 <= i <= MAX_ARG_PAGES && mem.Valid() && task[..] == ts
        invariant Placed(m1, mem.Abs(), ts, mem.high, pages, s, i)
        invariant FreeCount(mem.memoryMap[..]) == |LeftBy(m0, s)| - if Dir(mem.ram[..], 16 * s + 15).present then 1 else 0
      {
        i := i - 1;
        ghost var m := mem.Abs();
        if pages[i] != 0 {
          PlacedReady(m1, m, ts, mem.high, pages, s, i);
          assert m.Count(pages[i]) == mem.memoryMap[pages[i] - LOW] && m.Held(pages[i]) == mem.held[pages[i] - LOW];
          var ok := mem.PutPage(pages[i], 16 * s + 15, 992 + i);
          PlacedStep(m1, m, mem.Abs(), ts, mem.high, pages, s, i);
        } else {
          PlacedSkip(m1, m, ts, mem.high, pages, s, i);
        }
      }
      ghost var m := mem.Abs();
      PlacedDone(m0, m1, m, ts, mem.high, pages, s);
      forall s': nat | 1 <= s' < NR_TASKS && task[s'].Task? && LOW <= task[s'].page < FRAMES
        ensures mem.held[task[s'].page - LOW] == m0.held[task[s'].page - LOW]
      {
        assert ts[s'] == task[s'] && m.Held(ts[s'].page) == m1.Held(ts[s'].page);
      }
    }

    // ----- Page faults -----

    /** memory.c:348-356: a zeroed page at page i of the k-th 4MB. */
    method GetEmptyPage(s: nat, k: nat, i: nat) returns (ok: bool)
      requires Sound() && FaultAt(task[..], s, k, i) && !SlotPte(mem.ram[..], s, k, i).present
      modifies mem`held, mem.ram, mem.memoryMap
      ensures Sound() && (old(Valid()) ==> Valid()) && (ok ==> Dir(mem.ram[..], 16 * s + k).present)
      ensures ok ==> SlotView(mem.ram[..], s, k, i) == Sees(ZERO_FRAME) && SameBut(old(mem.ram[..]), mem.ram[..], 16 * s + k, i)
      ensures ok ==> LOW <= SlotPte(mem.ram[..], s, k, i).page
      ensures forall d: nat | d < ENTRIES && d != 16 * s + k :: Dir(mem.ram[..], d) == Dir(old(mem.ram[..]), d)
      ensures !ok ==> AllSee(old(mem.ram[..]), mem.ram[..]) && mem.memoryMap[..] == old(mem.memoryMap[..])
      ensures ok <==> PageCost(old(mem.ram[..]), 16 * s + k) <= old(FreeCount(mem.memoryMap[..]))
      ensures ok ==> FreeCount(mem.memoryMap[..]) == old(FreeCount(mem.memoryMap[..])) - PageCost(old(mem.ram[..]), 16 * s + k)
    {
      ok := NewPage(s, k, i, ZERO_FRAME);
    }

    /** get_free_page, the contents, put_page; on failure the page is freed again (memory.c:352-353, 455-470). */
    method NewPage(s: nat, k: nat, i: nat, image: Frame) returns (ok: bool)
      requires Sound() && FaultAt(task[..], s, k, i) && !SlotPte(mem.ram[..], s, k, i).present
      modifies mem`held, mem.ram, mem.memoryMap
      ensures Sound() && (old(Valid()) ==> Valid()) && (ok ==> Dir(mem.ram[..], 16 * s + k).present)
      ensures ok ==> SlotView(mem.ram[..], s, k, i) == Sees(image) && SameBut(old(mem.ram[..]), mem.ram[..], 16 * s + k, i)
      ensures ok ==> LOW <= SlotPte(mem.ram[..], s, k, i).page
      ensures forall d: nat | d < ENTRIES && d != 16 * s + k :: Dir(mem.ram[..], d) == Dir(old(mem.ram[..]), d)
      ensures !ok ==> AllSee(old(mem.ram[..]), mem.ram[..]) && mem.memoryMap[..] == old(mem.memoryMap[..])
      ensures ok <==> PageCost(old(mem.ram[..]), 16 * s + k) <= old(FreeCount(mem.memoryMap[..]))
      ensures ok ==> FreeCount(mem.memoryMap[..]) == old(FreeCount(mem.memoryMap[..])) - PageCost(old(mem.ram[..]), 16 * s + k)
    {
      hide Inv;
      hide SlotsOk, AllSee, SameBut, HeldKept, SameSight, SlotOk, Owned, FreeCount;
      ghost var m0, ts, d := mem.Abs(), task[..], 16 * s + k;
      KernelTable(m0, mem.high);
      AllSeeRefl(m0.ram);
      var page := mem.GetFreePage();
      if page == 0 {
        return false;
      }
      FreeIsUnheld(m0, mem.high, page);
      NotATaskPage(m0.ram, m0.held, ts, mem.high, page);
      AllocSameBut(m0, mem.high, page, d, i);
      AllocIsInvisible(m0, mem.high, page);
      ghost var r1 := mem.ram[..];
      mem.Fill(page, image, d, i);
      ghost var r2 := mem.ram[..];
      SameButTrans(m0.ram, r1, r2, d, i);
      ok := mem.PutPage(page, 16 * s + k, i);
      if ok {
        SameButTrans(m0.ram, r2, mem.ram[..], d, i);
        SameButDirs(m0.ram, mem.ram[..], d, i);
      } else {
        mem.FreeHeldPage(page);
        assert mem.memoryMap[..] == m0.count && mem.held == m0.held;
        assert mem.ram[..] == m0.ram[page := image];
        UnseenFrame(m0, mem.high, page, image);
      }
      SlotGrown(m0.ram, mem.ram[..], m0.held, mem.held, ts, mem.high, s, k);
      if Owned(m0.ram, ts) {
        OwnedGrown(m0.ram, mem.ram[..], ts);
      }
    }

    /** try_to_share with the task in another slot (memory.c:432-435). */
    method ShareWith(s: nat, k: nat, i: nat, other: nat) returns (shared: bool, oom: bool)
      requires Valid() && FaultAt(task[..], s, k, i) && !SlotPte(mem.ram[..], s, k, i).present
      requires 1 <= other < NR_TASKS && other != s
      modifies mem`held, mem.ram, mem.memoryMap
      ensures Valid() && mem.held == old(mem.held) && !(shared && oom)
      ensures shared || oom <==> Shareable(old(mem.ram[..]), 16 * other + k, i)
      ensures shared ==> SlotView(mem.ram[..], s, k, i) == SlotView(old(mem.ram[..]), other, k, i)
      ensures shared ==> LOW <= SlotPte(mem.ram[..], s, k, i).page
      ensures shared ==> AllSeeBut(old(mem.ram[..]), mem.ram[..], 16 * s + k, i) && OthersSee(old(mem.ram[..]), mem.ram[..], s)
      ensures !shared ==> mem.Abs() == old(mem.Abs())
      ensures oom ==> !Dir(mem.ram[..], 16 * s + k).present && FreeCount(mem.memoryMap[..]) == 0
      ensures shared ==> FreeCount(mem.memoryMap[..]) == old(FreeCount(mem.memoryMap[..])) - PageCost(old(mem.ram[..]), 16 * s + k) + 1
    {
      hide Inv;
      hide SlotsOk, SharedBetween, Owned, AllSeeBut, OthersSee, FreeCount;
      ghost var m0, ts, fd, td := mem.Abs(), task[..], 16 * other + k, 16 * s + k;
      shared, oom := mem.TryToShare(16 * other + k, 16 * s + k, i);
      if shared {
        SharedMeansAllSeeBut(m0.ram, mem.ram[..], fd, td, i);
        SlotGrown(m0.ram, mem.ram[..], m0.held, mem.held, ts, mem.high, s, k);
        OwnedGrown(m0.ram, mem.ram[..], ts);
      }
    }

    /** memory.c:419-438: looks, from the last slot down, for another task running the same file that has the page. */
    method SharePage(s: nat, k: nat, i: nat, users: nat) returns (shared: bool, oom: bool, other: nat)
      requires Valid() && FaultAt(task[..], s, k, i) && !SlotPte(mem.ram[..], s, k, i).present
      modifies mem`held, mem.ram, mem.memoryMap
      ensures Valid() && mem.held == old(mem.held) && !(shared && oom)
      ensures shared ==> Sharer(old(mem.ram[..]), task[..], s, k, i, other)
      ensures shared ==> other < NR_TASKS && SlotView(mem.ram[..], s, k, i) == SlotView(old(mem.ram[..]), other, k, i)
      ensures shared ==> LOW <= SlotPte(mem.ram[..], s, k, i).page
      ensures shared ==> AllSeeBut(old(mem.ram[..]), mem.ram[..], 16 * s + k, i) && OthersSee(old(mem.ram[..]), mem.ram[..], s)
      ensures !shared ==> mem.Abs() == old(mem.Abs())
      ensures oom ==> !Dir(mem.ram[..], 16 * s + k).present && FreeCount(mem.memoryMap[..]) == 0
      ensures shared ==> FreeCount(mem.memoryMap[..]) == old(FreeCount(mem.memoryMap[..])) - PageCost(old(mem.ram[..]), 16 * s + k) + 1
      ensures shared || oom <==> users >= 2 && exists o: nat :: Sharer(old(mem.ram[..]), task[..], s, k, i, o)
    {
      hide Inv;
      hide SlotsOk, Owned, AllSeeBut, OthersSee, FreeCount, Shareable;
      other := NR_TASKS;
      if task[s].executable == 0 || users < 2 {
        return false, false, other;
      }
      while other > 1
        invariant 1 <= other <= NR_TASKS && Valid() && mem.Abs() == old(mem.Abs())
        invariant forall o: nat | other <= o :: !Sharer(mem.ram[..], task[..], s, k, i, o)
      {
        other := other - 1;
        if task[other].Task? && other != s && task[other].executable == task[s].executable {
          shared, oom := ShareWith(s, k, i, other);
          if shared || oom {
            assert Sharer(old(mem.ram[..]), task[..], s, k, i, other);
            return;
          }
        }
      }
      shared, oom := false, false;
    }

    /**
      memory.c:440-472: a page-not-present fault.  `image` stands for what bread_page would read from the
      executable at this place, zero filled past its data.  Out of memory kills the task.
    */
    method DoNoPage(s: nat, k: nat, i: nat, users: nat, image: Frame) returns (r: NoPage)
      requires Valid() && FaultAt(task[..], s, k, i) && !SlotPte(mem.ram[..], s, k, i).present
      modifies mem`held, mem.ram, mem.memoryMap, task
      ensures Valid() && OthersSee(old(mem.ram[..]), mem.ram[..], s)
      ensures r == OutOfMemory ==> Killed(old(task[..]), task[..], mem.ram[..], s)
      ensures r != OutOfMemory ==> task[..] == old(task[..]) && AllSeeBut(old(mem.ram[..]), mem.ram[..], 16 * s + k, i)
      ensures r == OutOfMemory <==> FaultCost(old(mem.ram[..]), old(task[..]), s, k, i, users) > old(FreeCount(mem.memoryMap[..]))
      ensures r == Zeroed <==> r != OutOfMemory && !OfFile(old(task[s]), k, i)
      ensures r.SharedWith? <==> r != OutOfMemory && CanShare(old(mem.ram[..]), old(task[..]), s, k, i, users)
      ensures r == Zeroed ==> SlotView(mem.ram[..], s, k, i) == Sees(ZERO_FRAME)
      ensures r == Loaded ==> SlotView(mem.ram[..], s, k, i) == Sees(image)
      ensures r.SharedWith? ==> Sharer(old(mem.ram[..]), old(task[..]), s, k, i, r.other)
      ensures r.SharedWith? ==> r.other < NR_TASKS && SlotView(mem.ram[..], s, k, i) == SlotView(old(mem.ram[..]), r.other, k, i)
      ensures r != OutOfMemory ==>
                FreeCount(mem.memoryMap[..]) == old(FreeCount(mem.memoryMap[..])) - FaultCost(old(mem.ram[..]), old(task[..]), s, k, i, users)
      ensures r != OutOfMemory ==> LOW <= SlotPte(mem.ram[..], s, k, i).page
    {
      hide Inv;
      hide SlotsOk, AllSee, AllSeeBut, OthersSee, SameBut, Owned, FreeCount, Sharer;
      ghost var r0 := mem.ram[..];
      AllSeeRefl(r0);
      if task[s].executable == 0 || (k * ENTRIES + i) * 4096 >= task[s].endData {
        var ok := GetEmptyPage(s, k, i);
        if ok {
          SameButMeansAllSeeBut(r0, mem.ram[..], 16 * s + k, i);
          return Zeroed;
        }
      } else {
        var shared, oom, other := SharePage(s, k, i, users);
        if shared {
          return SharedWith(other);
        }
        if !oom {
          var ok := NewPage(s, k, i, image);
          if ok {
            SameButMeansAllSeeBut(r0, mem.ram[..], 16 * s + k, i);
            return Loaded;
          }
        }
      }
      ghost var r1 := mem.ram[..];
      DoExit(s);
      AllThenOthersSee(r0, r1, mem.ram[..], s);
      r := OutOfMemory;
    }

    /**
      A store by a user program: do_wp_page (memory.c:310-326) when the entry is read only, then the
      store itself.  It changes what the writer sees at that word and nothing anybody else sees.
    */
    method UserWrite(s: nat, k: nat, i: nat, word: nat, x: Word) returns (ok: bool)
      requires Valid() && FaultAt(task[..], s, k, i) && word < 1024
      requires SlotPte(mem.ram[..], s, k, i).present
      modifies mem`held, mem.ram, mem.memoryMap, task
      ensures Valid() && OthersSee(old(mem.ram[..]), mem.ram[..], s)
      ensures ok ==> SlotView(old(mem.ram[..]), s, k, i).Sees? && task[..] == old(task[..])
      ensures ok ==> SlotView(mem.ram[..], s, k, i) == Sees(SlotView(old(mem.ram[..]), s, k, i).page[word := x])
      ensures ok ==> forall d: nat, j: nat {:trigger ViewOf(mem.ram[..], d, j)}
                | FIRST_USER <= d < ENTRIES && j < ENTRIES && (d != 16 * s + k || j != i) ::
                ViewOf(mem.ram[..], d, j) == ViewOf(old(mem.ram[..]), d, j)
      ensures ok ==> var w := SlotPte(mem.ram[..], s, k, i); w.present && w.writable && w.dirty
      ensures ok ==> AllSeeBut(old(mem.ram[..]), mem.ram[..], 16 * s + k, i)
      ensures !ok ==> Killed(old(task[..]), task[..], mem.ram[..], s)
      ensures ok <==> SlotPte(old(mem.ram[..]), s, k, i).writable || Unshared(old(mem.Abs()), 16 * s + k, i)
                      || old(FreeCount(mem.memoryMap[..])) > 0
      ensures var cost := if SlotPte(old(mem.ram[..]), s, k, i).writable || Unshared(old(mem.Abs()), 16 * s + k, i) then 0 else 1;
        ok ==> FreeCount(mem.memoryMap[..]) == old(FreeCount(mem.memoryMap[..])) - cost
    {
      hide Inv;
      hide SlotsOk, AllSee, AllSeeBut, OthersSee, SameBut, Owned, FreeCount;
      ghost var m0, ts, d := mem.Abs(), task[..], 16 * s + k;
      SameButRefl(m0.ram, d, i);
      TableInRange(m0, mem.high, d);
      var e := mem.ram[0][16 * s + k];
      if !mem.ram[e.page][i].writable {
        ok := mem.UnWpPage(16 * s + k, i);
        if !ok {
          DoExit(s);
          return;
        }
      }
      ghost var r1 := mem.ram[..];
      mem.Store(16 * s + k, i, word, x);
      SameButTrans(m0.ram, r1, mem.ram[..], d, i);
      SameButDirs(m0.ram, mem.ram[..], d, i);
      SameButMeansAllSeeBut(m0.ram, mem.ram[..], d, i);
      SameDirectoryViews(m0.ram, mem.ram[..], d, i);
      SlotGrown(m0.ram, mem.ram[..], m0.held, mem.held, ts, mem.high, s, k);
      OwnedGrown(m0.ram, mem.ram[..], ts);
      ok := true;
    }

    /**
      write_verify for one page of the buffer of a system call (memory.c:328-346, from verify_area of
      kernel/fork.c:24-40).  The page is the task's own afterwards, or not there; out of memory kills.
    */
    method VerifyArea(s: nat, k: nat, i: nat) returns (ok: bool)
      requires Valid() && FaultAt(task[..], s, k, i)
      modifies mem`held, mem.ram, mem.memoryMap, task
      ensures Valid() && OthersSee(old(mem.ram[..]), mem.ram[..], s)
      ensures ok ==> AllSeeBut(old(mem.ram[..]), mem.ram[..], 16 * s + k, i) && task[..] == old(task[..])
      ensures ok ==> SlotView(mem.ram[..], s, k, i) == SlotView(old(mem.ram[..]), s, k, i)
      ensures ok ==> var w, w' := SlotPte(old(mem.ram[..]), s, k, i), SlotPte(mem.ram[..], s, k, i);
                if w.present && !w.writable && !Unshared(old(mem.Abs()), 16 * s + k, i)
                then LOW <= w'.page && w' == UserPage(w'.page)
                else w' == if w.present then w.(writable := true) else w
      ensures ok ==> FreeCount(mem.memoryMap[..]) >= old(FreeCount(mem.memoryMap[..])) - 1
      ensures !ok ==> Killed(old(task[..]), task[..], mem.ram[..], s)
      ensures !ok <==> var w := SlotPte(old(mem.ram[..]), s, k, i);
                w.present && !w.writable && !Unshared(old(mem.Abs()), 16 * s + k, i) && old(FreeCount(mem.memoryMap[..])) == 0
    {
      hide Inv;
      hide SlotsOk, AllSee, AllSeeBut, OthersSee, SameBut, Owned, FreeCount;
      ghost var m0, ts, d := mem.Abs(), task[..], 16 * s + k;
      ok := mem.WriteVerify(16 * s + k, i);
      if !ok {
        DoExit(s);
        return;
      }
      SameButDirs(m0.ram, mem.ram[..], d, i);
      SameButMeansAllSeeBut(m0.ram, mem.ram[..], d, i);
      SlotGrown(m0.ram, mem.ram[..], m0.held, mem.held, ts, mem.high, s, k);
      OwnedGrown(m0.ram, mem.ram[..], ts);
    }

    // ----- Any run of the system -----

    /**
      The pages copy_strings obtains (exec.c:161-164), from the top of the argument area down; when
      memory runs out they are all freed (exec.c:431-432).
    */
    method GetArgPages(images: seq<Frame>) returns (ok: bool, pages: seq<nat>)
      requires Valid() && |images| <= MAX_ARG_PAGES
      modifies mem`held, mem.ram, mem.memoryMap
      ensures Valid() && AllSee(old(mem.ram[..]), mem.ram[..]) && |pages| == MAX_ARG_PAGES
      ensures ok ==> ArgPages(mem.Abs(), task[..], mem.high, pages, MAX_ARG_PAGES)
      ensures ok ==> OnlyPages(old(mem.Abs()), mem.Abs(), pages) && forall d: nat | d < ENTRIES :: Dir(mem.ram[..], d) == Dir(old(mem.ram[..]), d)
      ensures ok ==> forall j: nat {:trigger pages[j]} | j < MAX_ARG_PAGES - |images| :: pages[j] == 0
      ensures ok ==> forall j: nat {:trigger pages[j]} | MAX_ARG_PAGES - |images| <= j < MAX_ARG_PAGES ::
                0 < pages[j] < FRAMES && mem.ram[pages[j]] == images[MAX_ARG_PAGES - 1 - j]
      ensures !ok ==> mem.memoryMap[..] == old(mem.memoryMap[..]) && mem.held == old(mem.held)
      ensures ok <==> |images| <= old(FreeCount(mem.memoryMap[..]))
      ensures ok ==> FreeCount(mem.memoryMap[..]) == old(FreeCount(mem.memoryMap[..])) - |images|
    {
      hide Inv;
      hide SlotsOk, AllSee, ArgPages, SameBut, Owned, OnlyPages, FreeCount;
      ghost var m0, r0, ts := mem.Abs(), mem.ram[..], task[..];
      AllSeeRefl(r0);
      KernelTable(mem.Abs(), mem.high);
      pages := seq(MAX_ARG_PAGES, _ => 0);
      NoArgPages(mem.Abs(), ts, mem.high, pages);
      NoOnlyPages(m0, pages);
      var i := 0;
      ok := true;
      while i < |images| && ok
        decreases |images| - i, ok
        invariant i <= |images| && |pages| == MAX_ARG_PAGES && Valid() && AllSee(r0, mem.ram[..])
        invariant FreeCount(mem.memoryMap[..]) == old(FreeCount(mem.memoryMap[..])) - i
        invariant !ok ==> i < |images| && FreeCount(mem.memoryMap[..]) == 0
        invariant ArgPages(mem.Abs(), ts, mem.high, pages, MAX_ARG_PAGES) && OnlyPages(m0, mem.Abs(), pages)
        invariant forall d: nat | d < ENTRIES :: Dir(mem.ram[..], d) == Dir(r0, d)
        invariant forall j | 0 <= j < MAX_ARG_PAGES - i :: pages[j] == 0
        invariant forall j: nat {:trigger pages[j]} | MAX_ARG_PAGES - i <= j < MAX_ARG_PAGES ::
                    0 < pages[j] < FRAMES && mem.ram[pages[j]] == images[MAX_ARG_PAGES - 1 - j]
      {
        ghost var m := mem.Abs();
        var f := mem.GetFreePage();
        if f == 0 {
          ok := false;
        } else {
          FreeIsUnheld(m, mem.high, f);
          NotATaskPage(m.ram, m.held, ts, mem.high, f);
          mem.Fill(f, images[i], FIRST_USER, 0);
          UnseenFrame(m, mem.high, f, images[i]);
          assert mem.ram[..] == m.ram[f := images[i]];
          AllSeeTrans(r0, m.ram, mem.ram[..]);
          ArgPageAdded(m, mem.Abs(), ts, mem.high, pages, MAX_ARG_PAGES - 1 - i, f, images[i]);
          SlotsOkNewPage(m.ram, mem.ram[..], m.held, ts, mem.high, f);
          OnlyPagesAdded(m0, m, mem.Abs(), pages, MAX_ARG_PAGES - 1 - i, f);
          OwnedGrown(m.ram, mem.ram[..], ts);
          pages := pages[MAX_ARG_PAGES - 1 - i := f];
          i := i + 1;
        }
      }
      if !ok {
        ghost var m, taken := mem.Abs(), pages;
        pages := FreeArgPages(pages);
        OnlyPagesFreed(m0, m, mem.Abs(), taken, pages);
        assert mem.memoryMap[..] == mem.Abs().count && mem.held == mem.Abs().held;
      }
    }

    /** exec.c:431-432: every argument page is free again, and no other frame is touched. */
    method FreeArgPages(pages: seq<nat>) returns (none: seq<nat>)
      requires Valid() && |pages| == MAX_ARG_PAGES && ArgPages(mem.Abs(), task[..], mem.high, pages, MAX_ARG_PAGES)
      modifies mem`held, mem.memoryMap
      ensures Valid() && |none| == MAX_ARG_PAGES && forall j | 0 <= j < MAX_ARG_PAGES :: none[j] == 0
      ensures Freed(old(mem.Abs()), mem.Abs(), pages, none)
    {
      hide Inv;
      hide SlotsOk, ArgPages, Owned, Freed;
      ghost var m0, ts := mem.Abs(), task[..];
      NoneFreed(m0, pages);
      none := pages;
      var i := 0;
      while i < MAX_ARG_PAGES
        invariant i <= MAX_ARG_PAGES && |none| == MAX_ARG_PAGES && Valid()
        invariant ArgPages(mem.Abs(), ts, mem.high, none, MAX_ARG_PAGES) && Freed(m0, mem.Abs(), pages, none)
        invariant forall j | 0 <= j < i :: none[j] == 0
        invariant forall j | i <= j < MAX_ARG_PAGES :: none[j] == pages[j]
      {
        ghost var m := mem.Abs();
        if none[i] != 0 {
          ArgPageFacts(m, ts, mem.high, none, i);
          assert m.Held(none[i]) == mem.held[none[i] - LOW];
          mem.FreeHeldPage(none[i]);
          ArgPageDropped(m, mem.Abs(), ts, mem.high, none, i);
          SlotsOkHeld(m.ram, m.held, mem.held, ts, mem.high, none[i]);
          FreedOneMore(m0, m, mem.Abs(), ts, mem.high, pages, none, i);
          none := none[i := 0];
        }
        i := i + 1;
      }
    }

    /** The operation is a write_verify that leaves a stale page of an executable marked clean. */
    ghost predicate Stale(op: Op, programs: Programs)
      reads this, mem, mem.ram, mem.memoryMap, task
      requires Valid()
    {
      op.Verifies? && FaultAt(task[..], op.s, op.k, op.i) && Spoils(mem.Abs(), task[..], op.s, op.k, op.i, programs)
      && FreeCount(mem.memoryMap[..]) > 0
    }

    /**
      One step of a run; an operation that is not possible now does nothing.  Pages of executables
      that are marked clean keep holding what the files hold, unless, and only unless, the step is a
      write_verify on a shared page that some task has written to.
    */
    method Step(op: Op, programs: Programs)
      requires Valid()
      modifies mem`held, mem.ram, mem.memoryMap, task
      ensures Valid() && OthersSee(old(mem.ram[..]), mem.ram[..], Actor(op))
      ensures Happened(op, programs, old(Snapshot()), Snapshot())
      ensures old(Pristine(mem.ram[..], task[..], programs)) ==> (Pristine(mem.ram[..], task[..], programs) <==> !old(Stale(op, programs)))
    {
      hide AllSee, OthersSee, Owned, SlotsOk, Pristine, Effect, FreeCount, LeftBy;
      AllSeeRefl(mem.ram[..]);
      AllMeansOthersSee(mem.ram[..], mem.ram[..], Actor(op));
      match op {
        case DoFork(parent, child) =>
          if parent < NR_TASKS && 1 <= child < NR_TASKS && task[parent].Task? && !task[parent].zombie && task[child].Free? {
            Fork(parent, child, programs);
          }
        case Exits(s) =>
          if 1 <= s < NR_TASKS && task[s].Task? {
            Exit(s, programs);
          }
        case Reaped(s) =>
          if 1 <= s < NR_TASKS && task[s].Task? && task[s].zombie {
            Reap(s, programs);
          }
        case Execs(s, executable, images, at) =>
          if Live(task[..], s) && 1 <= s && programs(executable).textSize <= MAX_IMAGE
             && programs(executable).endData <= MAX_IMAGE && |images| <= MAX_ARG_PAGES && at < ENTRIES {
            ExecProgram(s, executable, images, at, programs);
          }
        case Touches(s, k, i, users) =>
          if FaultAt(task[..], s, k, i) && !SlotPte(mem.ram[..], s, k, i).present {
            Touch(s, k, i, users, programs);
          }
        case Writes(s, k, i, word, x) =>
          if FaultAt(task[..], s, k, i) && word < 1024 && SlotPte(mem.ram[..], s, k, i).present {
            Write(s, k, i, word, x, programs);
          }
        case Verifies(s, k, i) =>
          if FaultAt(task[..], s, k, i) {
            Verify(s, k, i, programs);
          }
      }
    }

    // ----- The steps, with what they mean for pages of executables -----

    method Fork(parent: nat, child: nat, ghost programs: Programs)
      requires Valid() && parent < NR_TASKS && task[parent].Task? && !task[parent].zombie && 1 <= child < NR_TASKS && task[child].Free?
      modifies mem`held, mem.ram, mem.memoryMap, task
      ensures Valid() && OthersSee(old(mem.ram[..]), mem.ram[..], child)
      ensures Happened(DoFork(parent, child), programs, old(Snapshot()), Snapshot())
      ensures old(Pristine(mem.ram[..], task[..], programs)) ==> Pristine(mem.ram[..], task[..], programs)
    {
      hide AllSee, OthersSee, Owned, SlotsOk, ChildSees, SlotFresh, FreeCount, TableCount;
      ghost var r0, ts := mem.ram[..], task[..];
      var ok := CopyProcess(parent, child);
      if !ok {
        AllMeansOthersSee(r0, mem.ram[..], child);
      }
      if Pristine(r0, ts, programs) {
        if ok {
          ChildFresh(r0, mem.ram[..], ts[parent], task[child], parent, child, programs);
        } else {
          GoneIsFresh(mem.ram[..], task[child], child, programs);
        }
        PristineUpdate(r0, mem.ram[..], ts, child, task[child], programs);
        assert task[..] == ts[child := task[child]];
      }
    }

    method Exit(s: nat, ghost programs: Programs)
      requires Valid() && 1 <= s < NR_TASKS && task[s].Task?
      modifies mem.ram, mem.memoryMap, task
      ensures Valid() && OthersSee(old(mem.ram[..]), mem.ram[..], s)
      ensures Happened(Exits(s), programs, old(Snapshot()), Snapshot())
      ensures old(Pristine(mem.ram[..], task[..], programs)) ==> Pristine(mem.ram[..], task[..], programs)
    {
      hide OthersSee, Owned, SlotsOk, SlotFresh, FreeCount, LeftBy;
      ghost var r0, ts := mem.ram[..], task[..];
      DoExit(s);
      if Pristine(r0, ts, programs) {
        GoneIsFresh(mem.ram[..], task[s], s, programs);
        PristineUpdate(r0, mem.ram[..], ts, s, task[s], programs);
        assert task[..] == ts[s := task[s]];
      }
    }

    method Reap(s: nat, ghost programs: Programs)
      requires Valid() && 1 <= s < NR_TASKS && task[s].Task? && task[s].zombie
      modifies mem`held, mem.memoryMap, task
      ensures Valid() && OthersSee(old(mem.ram[..]), mem.ram[..], s)
      ensures Happened(Reaped(s), programs, old(Snapshot()), Snapshot())
      ensures old(Pristine(mem.ram[..], task[..], programs)) ==> Pristine(mem.ram[..], task[..], programs)
    {
      hide AllSee, OthersSee, Owned, SlotsOk, SlotFresh;
      ghost var r0, ts := mem.ram[..], task[..];
      AllSeeRefl(r0);
      AllMeansOthersSee(r0, r0, s);
      Release(s);
      if Pristine(r0, ts, programs) {
        GoneIsFresh(mem.ram[..], Free, s, programs);
        PristineUpdate(r0, mem.ram[..], ts, s, Free, programs);
      }
    }

    method ExecProgram(s: nat, executable: nat, images: seq<Frame>, at: nat, programs: Programs)
      requires Valid() && Possible(Execs(s, executable, images, at), programs, Snapshot())
      modifies mem`held, mem.ram, mem.memoryMap, task
      ensures Valid() && OthersSee(old(mem.ram[..]), mem.ram[..], s)
      ensures Happened(Execs(s, executable, images, at), programs, old(Snapshot()), Snapshot())
      ensures old(Pristine(mem.ram[..], task[..], programs)) ==> Pristine(mem.ram[..], task[..], programs)
    {
      hide OthersSee, Owned, SlotsOk, SlotFresh, Effect;
      ghost var s0 := Snapshot();
      LoadProgram(s, executable, images, at, programs);
      if Pristine(s0.mem.ram, s0.ts, programs) {
        ExecFresh(s, executable, images, at, programs, s0, Snapshot());
        PristineUpdate(s0.mem.ram, mem.ram[..], s0.ts, s, task[s], programs);
      }
    }

    /** do_execve: the argument pages, then the new image. */
    method LoadProgram(s: nat, executable: nat, images: seq<Frame>, at: nat, programs: Programs)
      requires Valid() && Possible(Execs(s, executable, images, at), programs, Snapshot())
      modifies mem`held, mem.ram, mem.memoryMap, task
      ensures Valid() && OthersSee(old(mem.ram[..]), mem.ram[..], s)
      ensures Effect(Execs(s, executable, images, at), programs, old(Snapshot()), Snapshot())
    {
      hide Inv;
      hide AllSee, OthersSee, Owned, SlotsOk, ArgPages, NewImage, FreeCount, LeftBy, NoArg, ImageSeen, OnlyPages;
      ghost var m0, r0, ts := mem.Abs(), mem.ram[..], task[..];
      var ok, pages := GetArgPages(images);
      ghost var m1, r1 := mem.Abs(), mem.ram[..];
      AllMeansOthersSee(r0, r1, s);
      if ok {
        ArgsTaken(m0, m1, ts, mem.high, s, pages, |images|);
        ArgsAre(pages, images, at);
        ok := Exec(s, programs(executable).textSize, executable, programs(executable).endData, pages, at);
        AllThenOthersSee(r0, r1, mem.ram[..], s);
        if ok {
          ImageIsSeen(r1, mem.ram[..], s, pages, images, at);
        }
      }
    }

    method Touch(s: nat, k: nat, i: nat, users: nat, programs: Programs)
      requires Valid() && FaultAt(task[..], s, k, i) && !SlotPte(mem.ram[..], s, k, i).present
      modifies mem`held, mem.ram, mem.memoryMap, task
      ensures Valid() && OthersSee(old(mem.ram[..]), mem.ram[..], s)
      ensures Happened(Touches(s, k, i, users), programs, old(Snapshot()), Snapshot())
      ensures old(Pristine(mem.ram[..], task[..], programs)) ==> Pristine(mem.ram[..], task[..], programs)
    {
      hide OthersSee, AllSeeBut, Owned, SlotsOk, Pristine, FreeCount, Sharer, ViewOf, Pte, Empty;
      ghost var s0 := Snapshot();
      var r := DoNoPage(s, k, i, users, programs(task[s].executable).page(k * ENTRIES + i));
      assert r.SharedWith? ==> SharedFrom(s0, Snapshot(), s, k, i, r.other);
      if Pristine(s0.mem.ram, s0.ts, programs) {
        if r == OutOfMemory {
          KilledFresh(s0.mem.ram, mem.ram[..], s0.ts, task[..], s, programs);
        } else {
          TouchedFresh(s0.mem.ram, mem.ram[..], s0.ts, s, k, i, r, programs);
        }
      }
    }

    method Write(s: nat, k: nat, i: nat, word: nat, x: Word, ghost programs: Programs)
      requires Valid() && FaultAt(task[..], s, k, i) && word < 1024 && SlotPte(mem.ram[..], s, k, i).present
      modifies mem`held, mem.ram, mem.memoryMap, task
      ensures Valid() && OthersSee(old(mem.ram[..]), mem.ram[..], s)
      ensures Happened(Writes(s, k, i, word, x), programs, old(Snapshot()), Snapshot())
      ensures old(Pristine(mem.ram[..], task[..], programs)) ==> Pristine(mem.ram[..], task[..], programs)
    {
      hide OthersSee, AllSeeBut, Owned, SlotsOk, SlotFresh, FreeCount;
      ghost var r0, ts := mem.ram[..], task[..];
      var ok := UserWrite(s, k, i, word, x);
      if Pristine(r0, ts, programs) {
        if ok {
          SlotFreshBut(r0, mem.ram[..], ts[s], s, k, i, programs);
          PristineUpdate(r0, mem.ram[..], ts, s, ts[s], programs);
          assert task[..] == ts[s := ts[s]];
        } else {
          KilledFresh(r0, mem.ram[..], ts, task[..], s, programs);
        }
      }
    }

    method Verify(s: nat, k: nat, i: nat, ghost programs: Programs)
      requires Valid() && FaultAt(task[..], s, k, i)
      modifies mem`held, mem.ram, mem.memoryMap, task
      ensures Valid() && OthersSee(old(mem.ram[..]), mem.ram[..], s)
      ensures Happened(Verifies(s, k, i), programs, old(Snapshot()), Snapshot())
      ensures old(Pristine(mem.ram[..], task[..], programs)) ==>
                (Pristine(mem.ram[..], task[..], programs) <==> !old(Stale(Verifies(s, k, i), programs)))
    {
      hide OthersSee, AllSeeBut, Owned, SlotsOk, Pristine, FreeCount, ViewOf, Pte, Empty;
      ghost var s0 := Snapshot();
      var ok := VerifyArea(s, k, i);
      if Pristine(s0.mem.ram, s0.ts, programs) {
        if ok {
          VerifiedFresh(s0.mem, mem.ram[..], s0.ts, s, k, i, programs);
        } else {
          KilledFresh(s0.mem.ram, mem.ram[..], s0.ts, task[..], s, programs);
        }
      }
    }

    /**
      Copy on write over all runs.  Isolation: what a slot sees changes only by what is done to or by
      that slot, and by fork into it.  And whatever the tasks do, a writable entry of a task slot maps
      a frame whose count is exactly 1, and no count has overflowed its byte.  In a run without
      write_verify every clean page of an executable, and so every page that is shared, holds what the
      file holds.
    */
    method Run(ops: seq<Op>, programs: Programs) returns (ghost trace: seq<Snap>)
      requires Valid()
      modifies mem`held, mem.ram, mem.memoryMap, task
      ensures Valid()
      ensures IsRun(ops, programs, trace) && trace[0] == old(Snapshot()) && trace[|ops|] == Snapshot()
      ensures Isolated(old(mem.ram[..]), mem.ram[..], ops)
      ensures old(Pristine(mem.ram[..], task[..], programs)) && (forall op | op in ops :: !op.Verifies?) ==>
                Pristine(mem.ram[..], task[..], programs)
      ensures forall d: nat, i: nat {:trigger Pte(mem.ram[..], d, i)} | FIRST_USER <= d < ENTRIES && i < ENTRIES
                && Pte(mem.ram[..], d, i).present && Pte(mem.ram[..], d, i).writable ::
                var f := Pte(mem.ram[..], d, i).page; LOW <= f < FRAMES && mem.memoryMap[f - LOW] == 1
      ensures forall d: nat, i: nat {:trigger Pte(mem.ram[..], d, i)} | FIRST_USER <= d < ENTRIES && i < ENTRIES
                && Pte(mem.ram[..], d, i).present && LOW <= Pte(mem.ram[..], d, i).page ::
                var f := Pte(mem.ram[..], d, i).page; f < FRAMES && 1 <= mem.memoryMap[f - LOW] <= 63
    {
      hide Inv, OthersSee, Isolated, Owned, SlotsOk, Pristine, Happened;
      ghost var r0 := mem.ram[..];
      trace := [Snapshot()];
      IsolatedStart(r0);
      assert ops[..0] == [];
      for n := 0 to |ops|
        invariant Valid()
        invariant Isolated(r0, mem.ram[..], ops[..n])
        invariant IsRun(ops[..n], programs, trace) && trace[0] == old(Snapshot()) && trace[n] == Snapshot()
        invariant old(Pristine(mem.ram[..], task[..], programs)) && (forall op | op in ops :: !op.Verifies?) ==>
                    Pristine(mem.ram[..], task[..], programs)
      {
        ghost var r1 := mem.ram[..];
        assert ops[n] in ops;
        Step(ops[n], programs);
        IsolatedNext(r0, r1, mem.ram[..], ops, n);
        RunGoesOn(ops, n, programs, trace, Snapshot());
        trace := trace + [Snapshot()];
      }
      assert ops[..|ops|] == ops;
      CountsHold();
    }

    lemma CountsHold()
      requires mem.Valid()
      ensures forall d: nat, i: nat {:trigger Pte(mem.ram[..], d, i)} | FIRST_USER <= d < ENTRIES && i < ENTRIES && Pte(mem.ram[..], d, i).present ::
                var w := Pte(mem.ram[..], d, i);
                && (w.writable ==> LOW <= w.page < FRAMES && mem.memoryMap[w.page - LOW] == 1)
                && (LOW <= w.page ==> w.page < FRAMES && 1 <= mem.memoryMap[w.page - LOW] <= 63)
    {
      hide Inv;
      var m := mem.Abs();
      forall d: nat, i: nat | FIRST_USER <= d < ENTRIES && i < ENTRIES && Pte(m.ram, d, i).present
        ensures var w := Pte(m.ram, d, i);
                && (w.writable ==> LOW <= w.page < FRAMES && mem.memoryMap[w.page - LOW] == 1)
                && (LOW <= w.page ==> w.page < FRAMES && 1 <= mem.memoryMap[w.page - LOW] <= 63)
      {
        MappedCounts(m, mem.high, d, i);
        var f := Pte(m.ram, d, i).page;
        assert LOW <= f < FRAMES ==> m.Count(f) == mem.memoryMap[f - LOW];
      }
    }
  }
}
