/**
  The 64 slots of the task table as memory management sees them (linux-0.11/include/linux/sched.h), with
  what fork, exec, exit and page faults do to a slot and leave alone in the others.
*/
module TaskSlots {
  import opened PageWord
  import opened PageTables
  import opened Fork
  import opened Faults
  import opened AddressSpaces
  import opened FreeFrames
  import opened Sets

  const NR_TASKS := 64
  const TASK0_LIMIT := 0xA0000           // INIT_TASK: 640KB
  const TASK_SIZE := 0x4000000           // 64MB
  const MAX_ARG_PAGES := 32
  const MAX_IMAGE := 0x3000000           // exec.c:360

  /** The fields of task_struct memory management looks at; `page` is the frame the structure lives in. */
  datatype TaskSlot = Free
                    | Task(codeLimit: nat, dataLimit: nat, executable: nat, endData: nat, page: nat, zombie: bool)

  /** memory.c:132 and 189: how many page tables cover a segment limit. */
  function TablesOf(limit: nat): (n: nat)
    ensures 0x400000 * (n - 1) < limit <= 0x400000 * n
  {
    (limit + 0x3fffff) / 0x400000
  }

  ghost predicate SlotOk(r: Ram, held: Counts, t: TaskSlot, s: nat, high: nat)
    requires s < NR_TASKS
  {
    match t
    case Free => Empty(r, s, 0)
    case Task(code, data, _, endData, page, zombie) =>
      && code <= data <= TASK_SIZE && 1 <= TablesOf(data) <= 16 && endData <= MAX_IMAGE
      && Empty(r, s, if zombie then 0 else TablesOf(data))
      && LOW <= page < high <= FRAMES && held[page - LOW] == 1
  }

  ghost predicate SlotsOk(r: Ram, held: Counts, ts: seq<TaskSlot>, high: nat) {
    && |ts| == NR_TASKS
    && ts[0].Task? && !ts[0].zombie && ts[0].codeLimit == ts[0].dataLimit == TASK0_LIMIT && ts[0].endData == 0
    && (forall s: nat {:trigger ts[s]} | 1 <= s < NR_TASKS :: SlotOk(r, held, ts[s], s, high))
    && (forall s: nat, s': nat {:trigger ts[s], ts[s']} | 1 <= s < s' < NR_TASKS && ts[s].Task? && ts[s'].Task? ::
          ts[s].page != ts[s'].page)
  }

  ghost predicate AnyTable(r: Ram, s: nat)
    requires s < NR_TASKS
  {
    exists d: nat :: 16 * s <= d < 16 * s + 16 && Dir(r, d).present
  }

  /** Every task that has not exited owns a page table. */
  ghost predicate Owned(r: Ram, ts: seq<TaskSlot>) {
    forall s: nat {:trigger ts[s]} | 1 <= s < |ts| && s < NR_TASKS && ts[s].Task? && !ts[s].zombie :: AnyTable(r, s)
  }

  /** Slot s changes, and the other slots keep the tables they have. */
  lemma OwnedUpdate(r: Ram, r': Ram, ts: seq<TaskSlot>, s: nat, t: TaskSlot)
    requires Owned(r, ts) && |ts| == NR_TASKS && 1 <= s < NR_TASKS && (t.Task? && !t.zombie ==> AnyTable(r', s))
    requires forall d: nat | FIRST_USER <= d < ENTRIES && d / 16 != s :: Dir(r', d).present == Dir(r, d).present
    ensures Owned(r', ts[s := t])
  {
    var ts' := ts[s := t];
    forall s': nat | 1 <= s' < NR_TASKS && ts'[s'].Task? && !ts'[s'].zombie ensures AnyTable(r', s') {
      if s' != s {
        assert ts[s'] == ts'[s'];
        var d: nat :| 16 * s' <= d < 16 * s' + 16 && Dir(r, d).present;
        assert d / 16 == s';
        assert Dir(r', d).present;
      }
    }
  }

  /** No table goes away. */
  lemma OwnedGrown(r: Ram, r': Ram, ts: seq<TaskSlot>)
    requires Owned(r, ts) && forall d: nat | FIRST_USER <= d < ENTRIES && Dir(r, d).present :: Dir(r', d).present
    ensures Owned(r', ts)
  {
    forall s: nat | 1 <= s < |ts| && s < NR_TASKS && ts[s].Task? && !ts[s].zombie ensures AnyTable(r', s) {
      var d: nat :| 16 * s <= d < 16 * s + 16 && Dir(r, d).present;
      assert Dir(r', d).present;
    }
  }

  lemma OwnsTable(r: Ram, ts: seq<TaskSlot>, s: nat)
    requires Owned(r, ts) && 1 <= s < |ts| && s < NR_TASKS && ts[s].Task? && !ts[s].zombie
    ensures AnyTable(r, s)
  {
  }

  lemma SameTables(r: Ram, r': Ram, s: nat)
    requires s < NR_TASKS && forall d: nat | d < ENTRIES :: Dir(r', d) == Dir(r, d)
    ensures AnyTable(r', s) == AnyTable(r, s)
  {
  }

  lemma SlotOwns(r: Ram, s: nat, k: nat)
    requires s < NR_TASKS && k < 16 && Dir(r, 16 * s + k).present
    ensures AnyTable(r, s)
  {
  }

  /** Slot s and its page tables change; the other slots, and the pages of their structures, do not. */
  lemma SlotsOkUpdate(r: Ram, r': Ram, held: Counts, held': Counts, ts: seq<TaskSlot>, high: nat, s: nat, t: TaskSlot)
    requires SlotsOk(r, held, ts, high) && 1 <= s < NR_TASKS && SlotOk(r', held', t, s, high)
    requires forall d: nat | FIRST_USER <= d < ENTRIES && d / 16 != s :: Dir(r', d).present == Dir(r, d).present
    requires forall s': nat {:trigger ts[s']} | 1 <= s' < NR_TASKS && s' != s && ts[s'].Task? && LOW <= ts[s'].page < FRAMES ::
               held'[ts[s'].page - LOW] == held[ts[s'].page - LOW] && (t.Task? ==> ts[s'].page != t.page)
    ensures SlotsOk(r', held', ts[s := t], high)
  {
    var ts' := ts[s := t];
    forall s': nat | 1 <= s' < NR_TASKS ensures SlotOk(r', held', ts'[s'], s', high) {
      assert SlotOk(r, held, ts[s'], s', high);
      if s' != s {
        forall d: nat | 16 * s' <= d < 16 * s' + 16 ensures Dir(r', d).present == Dir(r, d).present {
          assert d / 16 == s';
        }
      }
    }
  }

  /** Only directory entry k of slot s may have appeared, and the task structures stay where they are. */
  lemma SlotGrown(r: Ram, r': Ram, held: Counts, held': Counts, ts: seq<TaskSlot>, high: nat, s: nat, k: nat)
    requires SlotsOk(r, held, ts, high) && 1 <= s < NR_TASKS && ts[s].Task? && !ts[s].zombie && k < TablesOf(ts[s].dataLimit)
    requires forall d: nat | FIRST_USER <= d < ENTRIES && d != 16 * s + k :: Dir(r', d).present == Dir(r, d).present
    requires forall s': nat {:trigger ts[s']} | 1 <= s' < NR_TASKS && ts[s'].Task? && LOW <= ts[s'].page < FRAMES ::
               held'[ts[s'].page - LOW] == held[ts[s'].page - LOW]
    ensures SlotsOk(r', held', ts, high)
  {
    SlotFacts(r, held, ts, high, s);
    SlotsOkUpdate(r, r', held, held', ts, high, s, ts[s]);
    assert ts == ts[s := ts[s]];
  }

  lemma SlotFacts(r: Ram, held: Counts, ts: seq<TaskSlot>, high: nat, s: nat)
    requires SlotsOk(r, held, ts, high) && s < NR_TASKS
    ensures |ts| == NR_TASKS && ts[0].Task? && !ts[0].zombie && ts[0].codeLimit == ts[0].dataLimit == TASK0_LIMIT && ts[0].endData == 0
    ensures 1 <= s ==> SlotOk(r, held, ts[s], s, high)
    ensures 1 <= s && ts[s].Task? ==>
              forall s': nat {:trigger ts[s']} | 1 <= s' < NR_TASKS && s' != s && ts[s'].Task? :: ts[s'].page != ts[s].page
  {
  }

  lemma NotATaskPage(r: Ram, held: Counts, ts: seq<TaskSlot>, high: nat, f: nat)
    requires SlotsOk(r, held, ts, high) && LOW <= f < FRAMES && held[f - LOW] != 1
    ensures forall s: nat {:trigger ts[s]} | 1 <= s < NR_TASKS && ts[s].Task? :: ts[s].page != f
  {
    forall s: nat | 1 <= s < NR_TASKS && ts[s].Task? ensures ts[s].page != f {
      assert SlotOk(r, held, ts[s], s, high);
    }
  }

  /** copy_process's new page is invisible to every task. */
  lemma AllocIsInvisible(m: Mem, high: nat, f: nat)
    requires Inv(m, high) && LOW <= f < FRAMES && m.Count(f) == 0
    ensures var r := m.ram[f := ZERO_FRAME];
      && (forall d: nat | d < ENTRIES :: Dir(r, d) == Dir(m.ram, d))
      && (forall d: nat, i: nat {:trigger Pte(r, d, i)} {:trigger ViewOf(r, d, i)}
            | d < ENTRIES && i < ENTRIES && (FIRST_USER <= d || (d == 0 && i < 160)) ::
            Pte(r, d, i) == Pte(m.ram, d, i) && ViewOf(r, d, i) == ViewOf(m.ram, d, i))
  {
    var r := m.ram[f := ZERO_FRAME];
    FreeIsUnheld(m, high, f);
    UnsharedIsUnmapped(m, high, f);
    UnreferencedFrameWrite(m, high, f, ZERO_FRAME);
    forall i: nat | i < 160 ensures Pte(r, 0, i) == Pte(m.ram, 0, i) && ViewOf(r, 0, i) == ViewOf(m.ram, 0, i) {
      assert m.ram[1][i].page < LOW;
    }
  }

  lemma SeenThroughAlloc(m: Mem, high: nat, f: nat, r: Ram, parent: nat, child: nat)
    requires Inv(m, high) && LOW <= f < FRAMES && m.Count(f) == 0 && parent < 64 && 1 <= child < 64
    requires var r1 := m.ram[f := ZERO_FRAME]; ChildSees(r1, r, parent, child) && OthersSee(r1, r, child)
    ensures ChildSees(m.ram, r, parent, child) && OthersSee(m.ram, r, child)
  {
    AllocIsInvisible(m, high, f);
    var r1 := m.ram[f := ZERO_FRAME];
    forall d: nat, i: nat | FIRST_USER <= d < ENTRIES && i < ENTRIES && d / 16 != child ensures SameSight(m.ram, r, d, i) {
      assert Pte(r1, d, i) == Pte(m.ram, d, i);
      assert SameSight(r1, r, d, i);
    }
    forall k: nat, i: nat | k < 16 && i < ENTRIES && (parent == 0 ==> k == 0 && i < 160)
      ensures SlotView(r1, parent, k, i) == SlotView(m.ram, parent, k, i)
      ensures ShowsDirectory(r1, 16 * parent + k, i) == ShowsDirectory(m.ram, 16 * parent + k, i)
      ensures SlotPte(r, child, k, i) == ChildEntry(SlotPte(m.ram, parent, k, i))
    {
      assert SlotPte(r, child, k, i) == ChildEntry(SlotPte(r1, parent, k, i));
      assert Pte(r1, 16 * parent + k, i) == Pte(m.ram, 16 * parent + k, i);
    }
    forall k: nat, i: nat | k < 16 && i < ENTRIES && (parent == 0 ==> k == 0 && i < 160) && !ShowsDirectory(m.ram, 16 * parent + k, i)
      ensures SlotView(r, child, k, i) == SlotView(m.ram, parent, k, i)
    {
      assert SlotView(r1, parent, k, i) == SlotView(m.ram, parent, k, i);
      assert SlotView(r, child, k, i) == SlotView(r1, parent, k, i);
    }
  }

  lemma AllSeeThroughAlloc(m: Mem, high: nat, f: nat, r: Ram)
    requires Inv(m, high) && LOW <= f < FRAMES && m.Count(f) == 0 && AllSee(m.ram[f := ZERO_FRAME], r)
    ensures AllSee(m.ram, r)
  {
    var r1 := m.ram[f := ZERO_FRAME];
    AllocIsInvisible(m, high, f);
    forall d: nat, i: nat | FIRST_USER <= d < ENTRIES && i < ENTRIES ensures SameSight(m.ram, r, d, i) {
      assert Pte(r1, d, i) == Pte(m.ram, d, i);
      assert SameSight(r1, r, d, i);
    }
  }

  /** A running task and a free slot are what copy_mem wants. */
  lemma ForkReady(r: Ram, r': Ram, held: Counts, ts: seq<TaskSlot>, high: nat, parent: nat, child: nat)
    requires SlotsOk(r, held, ts, high) && Owned(r, ts) && parent < NR_TASKS && 1 <= child < NR_TASKS
    requires ts[parent].Task? && !ts[parent].zombie && ts[child].Free?
    requires forall d: nat | d < ENTRIES :: Dir(r', d) == Dir(r, d)
    ensures Empty(r', child, 0) && TablesOf(ts[parent].dataLimit) <= 16
    ensures parent == 0 ==> ts[parent].dataLimit == TASK0_LIMIT
    ensures parent != 0 ==> Empty(r', parent, TablesOf(ts[parent].dataLimit)) && AnyTable(r', parent)
  {
    SlotFacts(r, held, ts, high, parent);
    SlotFacts(r, held, ts, high, child);
    SameTables(r, r', parent);
    if parent != 0 {
      OwnsTable(r, ts, parent);
    }
  }

  /** The child has its slot, or the slot is free again. */
  lemma ForkDone(r: Ram, r': Ram, held: Counts, held': Counts, ts: seq<TaskSlot>, high: nat, parent: nat, child: nat, t: TaskSlot)
    requires SlotsOk(r, held, ts, high) && Owned(r, ts) && parent < NR_TASKS && 1 <= child < NR_TASKS
    requires ts[parent].Task? && !ts[parent].zombie && ts[child].Free?
    requires forall d: nat | FIRST_USER <= d < ENTRIES && d / 16 != child :: Dir(r', d).present == Dir(r, d).present
    requires if t.Free? then held' == held && Empty(r', child, 0)
      else && t == ts[parent].(page := t.page) && LOW <= t.page < high <= FRAMES && held[t.page - LOW] == 0
           && held' == held[t.page - LOW := 1] && Empty(r', child, TablesOf(t.dataLimit)) && AnyTable(r', child)
    ensures SlotsOk(r', held', ts[child := t], high) && Owned(r', ts[child := t])
  {
    hide AnyTable;
    SlotFacts(r, held, ts, high, parent);
    if t.Task? {
      NotATaskPage(r, held, ts, high, t.page);
    }
    SlotsOkUpdate(r, r', held, held', ts, high, child, t);
    OwnedUpdate(r, r', ts, child, t);
  }

  lemma AllSeeRefl(r: Ram)
    ensures AllSee(r, r)
  {
  }

  lemma SlotFreed(r0: Ram, r1: Ram, r2: Ram, s: nat, code: nat, data: nat, zombie: bool)
    requires 1 <= s < NR_TASKS && code <= data <= 16
    requires Empty(r0, s, if zombie then 0 else data)
    requires SameOutside(r0, r1, 16 * s, 16 * s + code) && SameOutside(r1, r2, 16 * s, 16 * s + data)
    requires forall d: nat | 16 * s <= d < 16 * s + data :: !Dir(r2, d).present
    ensures Empty(r2, s, 0) && OthersSee(r0, r2, s)
    ensures forall d: nat | FIRST_USER <= d < ENTRIES && d / 16 != s :: Dir(r2, d) == Dir(r0, d)
    ensures forall d: nat, j: nat {:trigger Pte(r2, d, j)} | FIRST_USER <= d < ENTRIES && j < ENTRIES && d / 16 != s ::
              Pte(r2, d, j) == Pte(r0, d, j)
  {
    assert SameOutside(r0, r1, 16 * s, 16 * s + data);
    SameOutsideTrans(r0, r1, r2, 16 * s, 16 * s + data, 16 * s, 16 * s + data);
    SameOutsideMeansOthersSee(r0, r2, s, 16 * s, 16 * s + data);
    forall d: nat | 16 * s + data <= d < 16 * s + 16 ensures !Dir(r2, d).present {
      assert Dir(r2, d) == Dir(r0, d);
    }
  }

  /** The first n argument pages of exec: fresh pages, each in the kernel's hands only. */
  ghost predicate ArgPages(m: Mem, ts: seq<TaskSlot>, high: nat, pages: seq<nat>, n: nat) {
    && n <= |pages| && high <= FRAMES
    && (forall j: nat {:trigger pages[j]} | j < n && pages[j] != 0 ::
          LOW <= pages[j] < high && m.Held(pages[j]) == 1 == m.Count(pages[j]))
    && (forall j: nat, j': nat {:trigger pages[j], pages[j']} | j < j' < n && pages[j] != 0 :: pages[j] != pages[j'])
    && (forall j: nat, s: nat {:trigger pages[j], ts[s]} | j < n && s < |ts| && pages[j] != 0 && ts[s].Task? && 1 <= s ::
          ts[s].page != pages[j])
  }

  /** While change_ldt's loop stands at i: pages i.. are in place, the others still with the kernel. */
  ghost predicate Placed(m1: Mem, m: Mem, ts: seq<TaskSlot>, high: nat, pages: seq<nat>, s: nat, i: nat)
    requires s < NR_TASKS
  {
    && |pages| == MAX_ARG_PAGES && |ts| == NR_TASKS && ArgPages(m, ts, high, pages, i)
    && (forall j: nat {:trigger pages[j]} | i <= j < MAX_ARG_PAGES && pages[j] != 0 ::
          && Pte(m.ram, 16 * s + 15, 992 + j).present && Pte(m.ram, 16 * s + 15, 992 + j).page == pages[j]
          && LOW <= pages[j] < FRAMES && m.ram[pages[j]] == m1.ram[pages[j]])
    && (forall j: nat {:trigger pages[j]} | j < i && pages[j] != 0 :: m.ram[pages[j]] == m1.ram[pages[j]])
    && (forall x: nat {:trigger SlotPte(m.ram, s, 15, x)} | x < ENTRIES && (x < 992 + i || pages[x - 992] == 0) ::
          !SlotPte(m.ram, s, 15, x).present)
    && (forall k: nat | 16 * s <= k < 16 * s + 15 :: !Dir(m.ram, k).present)
    && (forall d: nat | FIRST_USER <= d < ENTRIES && d / 16 != s :: Dir(m.ram, d) == Dir(m1.ram, d))
    && (forall d: nat, j: nat {:trigger Pte(m.ram, d, j)} | FIRST_USER <= d < ENTRIES && j < ENTRIES && d / 16 != s ::
          Pte(m.ram, d, j) == Pte(m1.ram, d, j) && (!ShowsDirectory(m1.ram, d, j) ==> ViewOf(m.ram, d, j) == ViewOf(m1.ram, d, j)))
    && (forall s': nat {:trigger ts[s']} | 1 <= s' < NR_TASKS && ts[s'].Task? && LOW <= ts[s'].page < FRAMES ::
          m.Held(ts[s'].page) == m1.Held(ts[s'].page))
    && (Dir(m.ram, 16 * s + 15).present ==> exists j :: i <= j < MAX_ARG_PAGES && pages[j] != 0)
  }

  /** Neither the kernel nor another slot than s uses the frame of memory_map[k]. */
  ghost predicate OnlyOf(m: Mem, s: nat, k: nat)
    requires k < TOTAL_PAGES
  {
    var f := k + LOW;
    && m.held[k] == 0
    && (forall d: nat | FIRST_USER <= d < ENTRIES && d / 16 != s && Dir(m.ram, d).present :: Dir(m.ram, d).page != f)
    && (forall d: nat, i: nat {:trigger Pte(m.ram, d, i)}
          | FIRST_USER <= d < ENTRIES && i < ENTRIES && d / 16 != s && Pte(m.ram, d, i).present :: Pte(m.ram, d, i).page != f)
  }

  /** The frames that are free once slot s is gone. */
  ghost function LeftBy(m: Mem, s: nat): set<nat> {
    set k: nat | k < TOTAL_PAGES && OnlyOf(m, s, k)
  }

  lemma SlotGone(m: Mem, m': Mem, high: nat, s: nat)
    requires Inv(m', high) && m'.held == m.held && s < NR_TASKS && Empty(m'.ram, s, 0)
    requires forall d: nat | FIRST_USER <= d < ENTRIES && d / 16 != s :: Dir(m'.ram, d) == Dir(m.ram, d)
    requires forall d: nat, i: nat {:trigger Pte(m'.ram, d, i)} | FIRST_USER <= d < ENTRIES && i < ENTRIES && d / 16 != s ::
               Pte(m'.ram, d, i) == Pte(m.ram, d, i)
    ensures FreeCount(m'.count) == |LeftBy(m, s)|
  {
    hide Inv;
    forall k: nat | k < TOTAL_PAGES ensures m'.count[k] == 0 <==> OnlyOf(m, s, k) {
      SlotGoneAt(m, m', high, s, k + LOW);
      assert m'.Count(k + LOW) == m'.count[k];
    }
    assert Unused(m'.count) == LeftBy(m, s);
  }

  lemma SlotGoneAt(m: Mem, m': Mem, high: nat, s: nat, f: nat)
    requires Inv(m', high) && m'.held == m.held && s < NR_TASKS && Empty(m'.ram, s, 0) && LOW <= f < FRAMES
    requires forall d: nat | FIRST_USER <= d < ENTRIES && d / 16 != s :: Dir(m'.ram, d) == Dir(m.ram, d)
    requires forall d: nat, i: nat {:trigger Pte(m'.ram, d, i)} | FIRST_USER <= d < ENTRIES && i < ENTRIES && d / 16 != s ::
               Pte(m'.ram, d, i) == Pte(m.ram, d, i)
    ensures m'.Count(f) == 0 <==> OnlyOf(m, s, f - LOW)
  {
    assert m'.Count(f) == |PteRefs(m'.ram, f)| + |DirRefs(m'.ram, f)| + m'.Held(f);
    if OnlyOf(m, s, f - LOW) {
      assert PteRefs(m'.ram, f) == {} && DirRefs(m'.ram, f) == {};
    } else if m'.Count(f) == 0 {
      FreeIsUnreferenced(m', high, f);
      forall d: nat | FIRST_USER <= d < ENTRIES && d / 16 != s && Dir(m.ram, d).present ensures Dir(m.ram, d).page != f {
        assert d !in DirRefs(m'.ram, f);
      }
      forall d: nat, i: nat | FIRST_USER <= d < ENTRIES && i < ENTRIES && d / 16 != s && Pte(m.ram, d, i).present
        ensures Pte(m.ram, d, i).page != f
      {
        assert (d, i) !in PteRefs(m'.ram, f) && Pte(m'.ram, d, i) == Pte(m.ram, d, i);
      }
    }
  }

  /** So are the frames free already. */
  lemma FreeIsLeft(m: Mem, high: nat, s: nat)
    requires Inv(m, high) && 1 <= s < NR_TASKS && AnyTable(m.ram, s)
    ensures |LeftBy(m, s)| >= FreeCount(m.count) + 1
  {
    hide Inv, LeftBy, Unused;
    var d: nat :| 16 * s <= d < 16 * s + 16 && Dir(m.ram, d).present;
    var t := Dir(m.ram, d).page;
    TableCountIsOne(m, high, d);
    TableOnlyOf(m, high, s, d);
    assert m.Count(t) == m.count[t - LOW];
    Members(m, s, t - LOW);
    forall k | k in Unused(m.count) ensures k in LeftBy(m, s) {
      Members(m, s, k);
      FreeIsOnlyOf(m, high, s, k);
    }
    SubsetCard(Unused(m.count) + {t - LOW}, LeftBy(m, s));
  }

  lemma FreeIsOnlyOf(m: Mem, high: nat, s: nat, k: nat)
    requires Inv(m, high) && k < TOTAL_PAGES && m.count[k] == 0
    ensures OnlyOf(m, s, k)
  {
    hide Inv;
    assert m.Count(k + LOW) == 0;
    FreeIsUnheld(m, high, k + LOW);
    UnsharedIsUnmapped(m, high, k + LOW);
    assert m.Held(k + LOW) == m.held[k];
  }

  lemma TableOnlyOf(m: Mem, high: nat, s: nat, d: nat)
    requires Inv(m, high) && 1 <= s < NR_TASKS && 16 * s <= d < 16 * s + 16 && Dir(m.ram, d).present
    ensures LOW <= Dir(m.ram, d).page < FRAMES && Dir(m.ram, d).page - LOW in LeftBy(m, s)
  {
    var t := Dir(m.ram, d).page;
    assert LOW <= t < FRAMES && m.Held(t) == 0;
    assert OnlyOf(m, s, t - LOW);
  }

  /** Of m, the kernel has taken these pages and nothing else, and no mapping has changed. */
  ghost predicate Took(m: Mem, m': Mem, pages: seq<nat>) {
    && OnlyPages(m, m', pages)
    && (forall f: nat {:trigger m'.Held(f)} | LOW <= f < FRAMES && f in pages :: m'.Held(f) == 1 == m'.Count(f))
    && (forall d: nat | d < ENTRIES :: Dir(m'.ram, d) == Dir(m.ram, d))
    && (forall d: nat, i: nat {:trigger Pte(m'.ram, d, i)} | FIRST_USER <= d < ENTRIES && i < ENTRIES ::
          ReadOnly(Pte(m'.ram, d, i)) == ReadOnly(Pte(m.ram, d, i)))
  }

  /** The frames taken for argument pages were free, and are not any more. */
  lemma LeftAfterTaking(m: Mem, m': Mem, high: nat, s: nat, pages: seq<nat>, n: nat)
    requires Inv(m, high) && Took(m, m', pages) && FreeCount(m'.count) == FreeCount(m.count) - n
    ensures |LeftBy(m', s)| == |LeftBy(m, s)| - n
  {
    hide Inv, LeftBy, Unused, Took;
    var left, left', free, free' := LeftBy(m, s), LeftBy(m', s), Unused(m.count), Unused(m'.count);
    forall k: nat
      ensures k in left' <==> k in left && !(k in free && k !in free')
      ensures k in free' ==> k in free
      ensures k in free ==> k in left
    {
      if k < TOTAL_PAGES {
        LeftAfterTakingAt(m, m', high, s, pages, k);
      }
      Members(m, s, k);
      Members(m', s, k);
    }
    TakenFromBoth(free, free', left, left');
  }

  lemma Members(m: Mem, s: nat, k: nat)
    ensures k in LeftBy(m, s) <==> k < TOTAL_PAGES && OnlyOf(m, s, k)
    ensures k in Unused(m.count) <==> k < TOTAL_PAGES && m.count[k] == 0
  {
  }

  /** What leaves the smaller set leaves the larger one. */
  lemma TakenFromBoth(a: set<nat>, a': set<nat>, b: set<nat>, b': set<nat>)
    requires a' <= a <= b && b' == b - (a - a')
    ensures |b'| == |b| - (|a| - |a'|)
  {
    assert a == a' + (a - a');
    assert b == b' + (a - a');
  }

  lemma LeftAfterTakingAt(m: Mem, m': Mem, high: nat, s: nat, pages: seq<nat>, k: nat)
    requires Inv(m, high) && Took(m, m', pages) && k < TOTAL_PAGES
    ensures m'.count[k] == 0 ==> m.count[k] == 0
    ensures OnlyOf(m', s, k) <==> OnlyOf(m, s, k) && !(m.count[k] == 0 && m'.count[k] != 0)
    ensures m.count[k] == 0 ==> OnlyOf(m, s, k)
  {
    var f := k + LOW;
    assert m.Count(f) == m.count[k] && m'.Count(f) == m'.count[k] && m.Held(f) == m.held[k] && m'.Held(f) == m'.held[k];
    if m.Count(f) == 0 {
      FreeIsUnheld(m, high, f);
      UnsharedIsUnmapped(m, high, f);
    }
    forall d: nat, i: nat | FIRST_USER <= d < ENTRIES && i < ENTRIES
      ensures Pte(m'.ram, d, i).present == Pte(m.ram, d, i).present && Pte(m'.ram, d, i).page == Pte(m.ram, d, i).page
    {
      assert ReadOnly(Pte(m'.ram, d, i)) == ReadOnly(Pte(m.ram, d, i));
    }
  }

  /** A table the slot owns is one of them. */
  lemma TableIsLeft(m: Mem, high: nat, s: nat)
    requires Inv(m, high) && 1 <= s < NR_TASKS && AnyTable(m.ram, s)
    ensures |LeftBy(m, s)| > 0
  {
    var d: nat :| 16 * s <= d < 16 * s + 16 && Dir(m.ram, d).present;
    TableOnlyOf(m, high, s, d);
  }

  lemma PlacedStarts(m0: Mem, m1: Mem, ts: seq<TaskSlot>, high: nat, pages: seq<nat>, s: nat)
    requires 1 <= s < NR_TASKS && |pages| == MAX_ARG_PAGES && |ts| == NR_TASKS && ArgPages(m0, ts, high, pages, MAX_ARG_PAGES)
    requires HeldKept(m0, m1) && m1.held == m0.held && Empty(m1.ram, s, 0)
    ensures Placed(m1, m1, ts, high, pages, s, MAX_ARG_PAGES)
    ensures forall j: nat {:trigger pages[j]} | j < MAX_ARG_PAGES && pages[j] != 0 ::
              LOW <= pages[j] < FRAMES && m1.ram[pages[j]] == m0.ram[pages[j]]
  {
    forall j: nat | j < MAX_ARG_PAGES && pages[j] != 0
      ensures LOW <= pages[j] < high && m1.Held(pages[j]) == 1 == m1.Count(pages[j]) && m1.ram[pages[j]] == m0.ram[pages[j]]
    {
      assert m0.Held(pages[j]) == 1 == m0.Count(pages[j]);
      assert m1.Count(pages[j]) == m0.Count(pages[j]);
    }
    forall x: nat | x < ENTRIES ensures !SlotPte(m1.ram, s, 15, x).present {
      assert !Dir(m1.ram, 16 * s + 15).present;
    }
  }

  lemma PlacedSkip(m1: Mem, m: Mem, ts: seq<TaskSlot>, high: nat, pages: seq<nat>, s: nat, i: nat)
    requires s < NR_TASKS && i < MAX_ARG_PAGES && Placed(m1, m, ts, high, pages, s, i + 1) && pages[i] == 0
    ensures Placed(m1, m, ts, high, pages, s, i)
  {
  }

  lemma PlacedReady(m1: Mem, m: Mem, ts: seq<TaskSlot>, high: nat, pages: seq<nat>, s: nat, i: nat)
    requires s < NR_TASKS && i < MAX_ARG_PAGES && Placed(m1, m, ts, high, pages, s, i + 1) && pages[i] != 0
    ensures LOW <= pages[i] < high <= FRAMES && m.Held(pages[i]) == 1 == m.Count(pages[i])
    ensures !Pte(m.ram, 16 * s + 15, 992 + i).present
  {
    assert !SlotPte(m.ram, s, 15, 992 + i).present;
  }

  lemma PlacedStep(m1: Mem, m: Mem, m': Mem, ts: seq<TaskSlot>, high: nat, pages: seq<nat>, s: nat, i: nat)
    requires 1 <= s < NR_TASKS && i < MAX_ARG_PAGES && Placed(m1, m, ts, high, pages, s, i + 1) && pages[i] != 0
    requires Pte(m'.ram, 16 * s + 15, 992 + i) == UserPage(pages[i]) && Dir(m'.ram, 16 * s + 15).present
    requires LOW <= pages[i] < FRAMES && m'.ram[pages[i]] == m.ram[pages[i]] && m'.held == m.held[pages[i] - LOW := 0]
    requires SameBut(m.ram, m'.ram, 16 * s + 15, 992 + i) && HeldKept(m, m')
    ensures Placed(m1, m', ts, high, pages, s, i)
  {
    var d := 16 * s + 15;
    forall j: nat | j < i && pages[j] != 0
      ensures LOW <= pages[j] < high && m'.Held(pages[j]) == 1 == m'.Count(pages[j]) && m'.ram[pages[j]] == m1.ram[pages[j]]
    {
      assert m.Held(pages[j]) == 1 == m.Count(pages[j]);
      assert m'.Count(pages[j]) == m.Count(pages[j]);
    }
    forall j: nat | i <= j < MAX_ARG_PAGES && pages[j] != 0
      ensures Pte(m'.ram, d, 992 + j).present && Pte(m'.ram, d, 992 + j).page == pages[j] && m'.ram[pages[j]] == m1.ram[pages[j]]
    {
      if j > i {
        assert Pte(m'.ram, d, 992 + j) == Pte(m.ram, d, 992 + j);
        assert ViewOf(m'.ram, d, 992 + j) == ViewOf(m.ram, d, 992 + j);
      }
    }
    forall x: nat | x < ENTRIES && (x < 992 + i || pages[x - 992] == 0) ensures !SlotPte(m'.ram, s, 15, x).present {
      assert !SlotPte(m.ram, s, 15, x).present;
      assert Pte(m'.ram, d, x) == Pte(m.ram, d, x);
    }
    forall d': nat, j: nat | FIRST_USER <= d' < ENTRIES && j < ENTRIES && d' / 16 != s
      ensures Pte(m'.ram, d', j) == Pte(m1.ram, d', j)
      ensures !ShowsDirectory(m1.ram, d', j) ==> ViewOf(m'.ram, d', j) == ViewOf(m1.ram, d', j)
    {
      assert Pte(m'.ram, d', j) == Pte(m.ram, d', j);
    }
  }

  /** Slot s sees the argument pages at the top of its data segment, and nothing else. */
  ghost predicate OnlyArgs(r0: Ram, r: Ram, s: nat, pages: seq<nat>)
    requires s < NR_TASKS && |pages| == MAX_ARG_PAGES
  {
    && (forall j: nat {:trigger pages[j]} | j < MAX_ARG_PAGES && pages[j] != 0 ::
          LOW <= pages[j] < FRAMES && !ShowsDirectory(r, 16 * s + 15, 992 + j) && SlotView(r, s, 15, 992 + j) == Sees(r0[pages[j]]))
    && (forall x: nat {:trigger SlotPte(r, s, 15, x)} | x < ENTRIES && NoArg(pages, x) :: !SlotPte(r, s, 15, x).present)
    && (forall d: nat | 16 * s <= d < 16 * s + 15 :: !Dir(r, d).present)
  }

  /** No argument page goes to page x of the last table. */
  predicate NoArg(pages: seq<nat>, x: nat)
    requires |pages| == MAX_ARG_PAGES && x < ENTRIES
  {
    x < 992 || pages[x - 992] == 0
  }

  predicate Zero(v: View) {
    v.Sees? && forall k | 0 <= k < 1024 :: v.page[k] == ZERO
  }

  /** The same, but for a zeroed page at x if no argument page is there. */
  ghost predicate NewImage(r0: Ram, r: Ram, s: nat, pages: seq<nat>, x: nat)
    requires s < NR_TASKS && |pages| == MAX_ARG_PAGES && x < ENTRIES
  {
    && (forall j: nat {:trigger pages[j]} | j < MAX_ARG_PAGES && pages[j] != 0 ::
          LOW <= pages[j] < FRAMES && SlotView(r, s, 15, 992 + j) == Sees(r0[pages[j]]))
    && (NoArg(pages, x) ==> Zero(SlotView(r, s, 15, x)))
    && (forall y: nat {:trigger SlotPte(r, s, 15, y)} | y < ENTRIES && y != x && NoArg(pages, y) ::
          !SlotPte(r, s, 15, y).present)
    && (forall d: nat | 16 * s <= d < 16 * s + 15 :: !Dir(r, d).present)
  }

  lemma FirstStore(r0: Ram, r1: Ram, r: Ram, s: nat, pages: seq<nat>, x: nat)
    requires 1 <= s < NR_TASKS && |pages| == MAX_ARG_PAGES && x < ENTRIES && OnlyArgs(r0, r1, s, pages)
    requires SameBut(r1, r, 16 * s + 15, x)
    requires if SlotPte(r1, s, 15, x).present then r == r1 else SlotView(r, s, 15, x) == Sees(ZERO_FRAME)
    ensures NewImage(r0, r, s, pages, x)
  {
    forall j: nat | j < MAX_ARG_PAGES && pages[j] != 0 ensures SlotView(r, s, 15, 992 + j) == Sees(r0[pages[j]]) {
      assert Pte(r, 16 * s + 15, 992 + j) == Pte(r1, 16 * s + 15, 992 + j) || 992 + j == x;
      assert SlotView(r1, s, 15, 992 + j) == Sees(r0[pages[j]]);
    }
    forall y: nat | y < ENTRIES && y != x && NoArg(pages, y) ensures !SlotPte(r, s, 15, y).present {
      assert Pte(r, 16 * s + 15, y) == Pte(r1, 16 * s + 15, y);
      assert !SlotPte(r1, s, 15, y).present;
    }
  }

  lemma ArgIsPresent(r0: Ram, r: Ram, s: nat, pages: seq<nat>, x: nat)
    requires s < NR_TASKS && |pages| == MAX_ARG_PAGES && x < ENTRIES && OnlyArgs(r0, r, s, pages)
    ensures SlotPte(r, s, 15, x).present <==> !NoArg(pages, x)
  {
    if !NoArg(pages, x) {
      assert pages[x - 992] != 0 && SlotView(r, s, 15, 992 + (x - 992)) == Sees(r0[pages[x - 992]]);
    }
  }

  /** The code segment is a whole number of pages (exec.c:188-190). */
  function RoundUp(size: nat): (limit: nat)
    ensures limit % 4096 == 0 && size <= limit < size + 4096
  {
    (size + 4095) / 4096 * 4096
  }

  /** What the finished loop means for the slot and for everybody else. */
  lemma PlacedDone(m0: Mem, m1: Mem, m: Mem, ts: seq<TaskSlot>, high: nat, pages: seq<nat>, s: nat)
    requires 1 <= s < NR_TASKS && Placed(m1, m, ts, high, pages, s, 0) && OthersSee(m0.ram, m1.ram, s)
    requires forall d: nat, j: nat {:trigger Pte(m1.ram, d, j)} | FIRST_USER <= d < ENTRIES && j < ENTRIES && d / 16 != s ::
               Pte(m1.ram, d, j) == Pte(m0.ram, d, j)
    requires forall j: nat {:trigger pages[j]} | j < MAX_ARG_PAGES && pages[j] != 0 ::
               LOW <= pages[j] < FRAMES && m1.ram[pages[j]] == m0.ram[pages[j]]
    ensures OthersSee(m0.ram, m.ram, s) && OnlyArgs(m0.ram, m.ram, s, pages)
    ensures forall d: nat | FIRST_USER <= d < ENTRIES && d / 16 != s :: Dir(m.ram, d) == Dir(m1.ram, d)
    ensures forall s': nat {:trigger ts[s']} | 1 <= s' < NR_TASKS && ts[s'].Task? && LOW <= ts[s'].page < FRAMES ::
              m.Held(ts[s'].page) == m1.Held(ts[s'].page)
  {
    forall d: nat, j: nat | FIRST_USER <= d < ENTRIES && j < ENTRIES && d / 16 != s ensures SameSight(m0.ram, m.ram, d, j) {
      assert Pte(m.ram, d, j) == Pte(m1.ram, d, j) == Pte(m0.ram, d, j);
      assert SameSight(m0.ram, m1.ram, d, j);
    }
  }

  /** How a page-not-present fault ends. */
  datatype NoPage = Zeroed | SharedWith(other: nat) | Loaded | OutOfMemory

  /** The faulting address lies in the data segment of a live task. */
  predicate FaultAt(ts: seq<TaskSlot>, s: nat, k: nat, i: nat) {
    && |ts| == NR_TASKS && 1 <= s < NR_TASKS && i < ENTRIES && k < 16
    && ts[s].Task? && !ts[s].zombie && k < TablesOf(ts[s].dataLimit)
  }

  /** Task o runs the file slot s runs, and has a clean page where s has none (memory.c:432-435, 378-389). */
  predicate Sharer(r: Ram, ts: seq<TaskSlot>, s: nat, k: nat, i: nat, o: nat)
    requires |ts| == NR_TASKS && s < NR_TASKS && k < 16 && i < ENTRIES
  {
    && 1 <= o < NR_TASKS && o != s && ts[o].Task? && ts[s].Task? && ts[o].executable == ts[s].executable != 0
    && Shareable(r, 16 * o + k, i)
  }

  /** The page is one of the file the task runs, and not past its data. */
  predicate OfFile(t: TaskSlot, k: nat, i: nat) {
    t.Task? && t.executable != 0 && (k * ENTRIES + i) * 4096 < t.endData
  }

  /** The page of a faulting task can be had from another task; users is i_count of the executable. */
  ghost predicate CanShare(r: Ram, ts: seq<TaskSlot>, s: nat, k: nat, i: nat, users: nat)
    requires |ts| == NR_TASKS && s < NR_TASKS && k < 16 && i < ENTRIES
  {
    OfFile(ts[s], k, i) && users >= 2 && exists o: nat :: Sharer(r, ts, s, k, i, o)
  }

  /** The frames a page-not-present fault takes. */
  ghost function FaultCost(r: Ram, ts: seq<TaskSlot>, s: nat, k: nat, i: nat, users: nat): int
    requires |ts| == NR_TASKS && s < NR_TASKS && k < 16 && i < ENTRIES
  {
    PageCost(r, 16 * s + k) - if CanShare(r, ts, s, k, i, users) then 1 else 0
  }

  /** The frames that mapping a new page under directory entry d takes: the page, and a table if there is none. */
  function PageCost(r: Ram, d: nat): nat
    requires d < ENTRIES
  {
    if Dir(r, d).present then 1 else 2
  }

  /** oom(): the faulting task has exited (memory.c:33-37). */
  ghost predicate Killed(ts0: seq<TaskSlot>, ts: seq<TaskSlot>, r: Ram, s: nat)
    requires s < NR_TASKS
  {
    s < |ts0| && ts0[s].Task? && ts == ts0[s := ts0[s].(zombie := true, executable := 0)] && Empty(r, s, 0)
  }

  lemma AllMeansOthersSee(r0: Ram, r: Ram, s: nat)
    requires AllSee(r0, r)
    ensures OthersSee(r0, r, s)
  {
  }

  lemma MappedCounts(m: Mem, high: nat, d: nat, i: nat)
    requires Inv(m, high) && FIRST_USER <= d < ENTRIES && i < ENTRIES && Pte(m.ram, d, i).present
    ensures Pte(m.ram, d, i).writable ==>
              LOW <= Pte(m.ram, d, i).page < FRAMES && m.Count(Pte(m.ram, d, i).page) == 1
    ensures LOW <= Pte(m.ram, d, i).page ==>
              Pte(m.ram, d, i).page < FRAMES && 1 <= m.Count(Pte(m.ram, d, i).page) <= 63
  {
    MappedIsCounted(m, high, d, i);
    if Pte(m.ram, d, i).writable {
      WritableCountIsOne(m, high, d, i);
    }
    if LOW <= Pte(m.ram, d, i).page {
      AtMostOnePerSlot(m, high, Pte(m.ram, d, i).page);
      assert (d, i) in PteRefs(m.ram, Pte(m.ram, d, i).page);
    }
  }

  lemma AllSeeTrans(r0: Ram, r1: Ram, r2: Ram)
    requires AllSee(r0, r1) && AllSee(r1, r2)
    ensures AllSee(r0, r2)
  {
    forall d: nat, i: nat | FIRST_USER <= d < ENTRIES && i < ENTRIES ensures SameSight(r0, r2, d, i) {
      assert SameSight(r0, r1, d, i) && SameSight(r1, r2, d, i);
    }
  }

  // ----- exec's argument pages -----

  lemma NoArgPages(m: Mem, ts: seq<TaskSlot>, high: nat, pages: seq<nat>)
    requires high <= FRAMES && |pages| == MAX_ARG_PAGES && forall j | 0 <= j < MAX_ARG_PAGES :: pages[j] == 0
    ensures ArgPages(m, ts, high, pages, MAX_ARG_PAGES)
  {
  }

  lemma ArgPageFacts(m: Mem, ts: seq<TaskSlot>, high: nat, pages: seq<nat>, i: nat)
    requires |pages| == MAX_ARG_PAGES && ArgPages(m, ts, high, pages, MAX_ARG_PAGES) && i < MAX_ARG_PAGES && pages[i] != 0
    ensures LOW <= pages[i] < high <= FRAMES && m.Held(pages[i]) == 1 == m.Count(pages[i])
    ensures forall s: nat {:trigger ts[s]} | 1 <= s < |ts| && ts[s].Task? :: ts[s].page != pages[i]
  {
  }

  lemma ArgPageAdded(m: Mem, m': Mem, ts: seq<TaskSlot>, high: nat, pages: seq<nat>, i: nat, f: nat, x: Frame)
    requires |pages| == MAX_ARG_PAGES && ArgPages(m, ts, high, pages, MAX_ARG_PAGES) && i < MAX_ARG_PAGES && pages[i] == 0
    requires LOW <= f < high && m.Held(f) == 0
    requires m' == Mem(m.ram[f := x], m.count[f - LOW := 1], m.held[f - LOW := 1])
    requires forall s: nat {:trigger ts[s]} | 1 <= s < |ts| && ts[s].Task? :: ts[s].page != f
    ensures ArgPages(m', ts, high, pages[i := f], MAX_ARG_PAGES)
    ensures forall j: nat {:trigger pages[j]} | j < MAX_ARG_PAGES && pages[j] != 0 :: LOW <= pages[j] < high && pages[j] != f
  {
    var pages' := pages[i := f];
    forall j: nat | j < MAX_ARG_PAGES && pages[j] != 0 ensures LOW <= pages[j] < high && pages[j] != f {
      assert m.Held(pages[j]) == 1;
    }
    forall j: nat | j < MAX_ARG_PAGES && pages'[j] != 0
      ensures LOW <= pages'[j] < high && m'.Held(pages'[j]) == 1 == m'.Count(pages'[j])
    {
      if j != i {
        assert m.Held(pages[j]) == 1 == m.Count(pages[j]);
      }
    }
  }

  lemma ArgPageDropped(m: Mem, m': Mem, ts: seq<TaskSlot>, high: nat, pages: seq<nat>, i: nat)
    requires |pages| == MAX_ARG_PAGES && ArgPages(m, ts, high, pages, MAX_ARG_PAGES) && i < MAX_ARG_PAGES && pages[i] != 0
    requires LOW <= pages[i] < FRAMES
    requires m'.count == m.count[pages[i] - LOW := 0] && m'.held == m.held[pages[i] - LOW := 0]
    ensures ArgPages(m', ts, high, pages[i := 0], MAX_ARG_PAGES)
  {
    var pages' := pages[i := 0];
    forall j: nat | j < MAX_ARG_PAGES && pages'[j] != 0
      ensures LOW <= pages'[j] < high && m'.Held(pages'[j]) == 1 == m'.Count(pages'[j])
    {
      assert m.Held(pages[j]) == 1 == m.Count(pages[j]) && pages[j] != pages[i];
    }
  }

  /** m differs from m0 in that pages, which were free, are taken. */
  ghost predicate OnlyPages(m0: Mem, m: Mem, pages: seq<nat>) {
    forall f: nat {:trigger m.Count(f)} {:trigger m.Held(f)} | LOW <= f < FRAMES ::
      if f in pages then m0.Count(f) == 0 == m0.Held(f) else m.Count(f) == m0.Count(f) && m.Held(f) == m0.Held(f)
  }

  lemma NoOnlyPages(m: Mem, pages: seq<nat>)
    requires forall j | 0 <= j < |pages| :: pages[j] == 0
    ensures OnlyPages(m, m, pages)
  {
  }

  lemma OnlyPagesAdded(m0: Mem, m: Mem, m': Mem, pages: seq<nat>, i: nat, f: nat)
    requires OnlyPages(m0, m, pages) && i < |pages| && pages[i] == 0 && LOW <= f < FRAMES && m.Count(f) == 0 == m.Held(f)
    requires m'.count == m.count[f - LOW := 1] && m'.held == m.held[f - LOW := 1]
    ensures OnlyPages(m0, m', pages[i := f])
  {
    var pages' := pages[i := f];
    assert pages'[i] == f;
    forall g: nat | LOW <= g < FRAMES
      ensures if g in pages' then m0.Count(g) == 0 == m0.Held(g) else m'.Count(g) == m0.Count(g) && m'.Held(g) == m0.Held(g)
    {
      assert m.Count(g) == m.count[g - LOW];
      if g != f && g in pages {
        var j :| 0 <= j < |pages| && pages[j] == g;
        assert pages'[j] == g;
      }
    }
  }

  /** Those of the pages that are no longer in left are free, and nothing else has changed. */
  ghost predicate Freed(m0: Mem, m: Mem, pages: seq<nat>, left: seq<nat>) {
    forall f: nat {:trigger m.Count(f)} {:trigger m.Held(f)} | LOW <= f < FRAMES ::
      if f in pages && f !in left then m.Count(f) == 0 == m.Held(f) else m.Count(f) == m0.Count(f) && m.Held(f) == m0.Held(f)
  }

  lemma NoneFreed(m: Mem, pages: seq<nat>)
    ensures Freed(m, m, pages, pages)
  {
  }

  lemma FreedOneMore(m0: Mem, m: Mem, m': Mem, ts: seq<TaskSlot>, high: nat, pages: seq<nat>, left: seq<nat>, i: nat)
    requires Freed(m0, m, pages, left) && |pages| == |left| == MAX_ARG_PAGES && i < MAX_ARG_PAGES && left[i] == pages[i]
    requires ArgPages(m, ts, high, left, MAX_ARG_PAGES) && LOW <= left[i] < FRAMES
    requires m'.count == m.count[left[i] - LOW := 0] && m'.held == m.held[left[i] - LOW := 0]
    ensures Freed(m0, m', pages, left[i := 0])
  {
    var left' := left[i := 0];
    forall f: nat | LOW <= f < FRAMES
      ensures if f in pages && f !in left' then m'.Count(f) == 0 == m'.Held(f) else m'.Count(f) == m0.Count(f) && m'.Held(f) == m0.Held(f)
    {
      assert m.Count(f) == m.count[f - LOW];
      if f == left[i] {
        assert f in pages && forall j: nat | j < MAX_ARG_PAGES && j != i :: left[j] != f;
      } else if f in left {
        var j :| 0 <= j < |left| && left[j] == f;
        assert left'[j] == f;
      } else {
        assert f !in left';
      }
    }
  }

  lemma OnlyPagesFreed(m0: Mem, m: Mem, m': Mem, pages: seq<nat>, left: seq<nat>)
    requires OnlyPages(m0, m, pages) && Freed(m, m', pages, left) && forall j | 0 <= j < |left| :: left[j] == 0
    ensures m'.count == m0.count && m'.held == m0.held
  {
    forall k | 0 <= k < TOTAL_PAGES ensures m'.count[k] == m0.count[k] && m'.held[k] == m0.held[k] {
      var f := k + LOW;
      assert f !in left && m'.Count(f) == m'.count[k] && m.Count(f) == m.count[k];
      assert m'.Held(f) == m'.held[k] && m0.Count(f) == m0.count[k] && m0.Held(f) == m0.held[k];
    }
  }

  /** A page that is no task's structure may change hands. */
  lemma SlotsOkHeld(r: Ram, held: Counts, held': Counts, ts: seq<TaskSlot>, high: nat, f: nat)
    requires SlotsOk(r, held, ts, high) && LOW <= f < FRAMES
    requires held' == held[f - LOW := held'[f - LOW]]
    requires forall s: nat {:trigger ts[s]} | 1 <= s < |ts| && ts[s].Task? :: ts[s].page != f
    ensures SlotsOk(r, held', ts, high)
  {
    forall s: nat | 1 <= s < NR_TASKS ensures SlotOk(r, held', ts[s], s, high) {
      assert SlotOk(r, held, ts[s], s, high);
    }
  }

  lemma SlotsOkNewPage(r: Ram, r': Ram, held: Counts, ts: seq<TaskSlot>, high: nat, f: nat)
    requires SlotsOk(r, held, ts, high) && LOW <= f < FRAMES && held[f - LOW] == 0
    requires forall d: nat | d < ENTRIES :: Dir(r', d) == Dir(r, d)
    ensures SlotsOk(r', held[f - LOW := 1], ts, high)
  {
    forall s: nat | 1 <= s < NR_TASKS ensures SlotOk(r', held[f - LOW := 1], ts[s], s, high) {
      assert SlotOk(r, held, ts[s], s, high);
    }
  }

  lemma SameButDirs(r0: Ram, r: Ram, d: nat, i: nat)
    requires SameBut(r0, r, d, i)
    ensures forall d': nat | d' < ENTRIES && d' != d :: Dir(r, d') == Dir(r0, d')
    ensures d < ENTRIES && Dir(r0, d).present ==> Dir(r, d) == Dir(r0, d)
  {
  }

  lemma SameDirectoryViews(r0: Ram, r: Ram, d: nat, i: nat)
    requires SameBut(r0, r, d, i) && r[0] == r0[0]
    ensures forall d': nat, i': nat {:trigger ViewOf(r, d', i')}
              | FIRST_USER <= d' < ENTRIES && i' < ENTRIES && (d' != d || i' != i) :: ViewOf(r, d', i') == ViewOf(r0, d', i')
  {
    forall d': nat, i': nat | FIRST_USER <= d' < ENTRIES && i' < ENTRIES && (d' != d || i' != i)
      ensures ViewOf(r, d', i') == ViewOf(r0, d', i')
    {
      assert Pte(r, d', i') == Pte(r0, d', i');
    }
  }

  /** A frame that was free, whatever it now holds, is seen by nobody. */
  lemma UnseenFrame(m: Mem, high: nat, f: nat, image: Frame)
    requires Inv(m, high) && LOW <= f < FRAMES && m.Count(f) == 0
    ensures AllSee(m.ram, m.ram[f := image])
    ensures forall d: nat | d < ENTRIES :: Dir(m.ram[f := image], d) == Dir(m.ram, d)
  {
    var r := m.ram[f := image];
    FreeIsUnheld(m, high, f);
    UnsharedIsUnmapped(m, high, f);
    UnreferencedFrameWrite(m, high, f, image);
    forall d: nat, i: nat | FIRST_USER <= d < ENTRIES && i < ENTRIES ensures SameSight(m.ram, r, d, i) {
      assert Pte(r, d, i) == Pte(m.ram, d, i);
    }
  }

  lemma TablesMonotone(code: nat, data: nat)
    requires code <= data <= TASK_SIZE
    ensures TablesOf(code) <= TablesOf(data) <= 16
  {
  }

  /** The child of a task that owns a table owns one. */
  lemma ChildOwns(r0: Ram, r: Ram, parent: nat, child: nat, n: nat)
    requires parent < NR_TASKS && child < NR_TASKS && n <= 16 && TablesCopied(r0, r, 16 * parent, 16 * child, n)
    requires if parent == 0 then Dir(r0, 0).present && n > 0 else Empty(r0, parent, n) && AnyTable(r0, parent)
    ensures AnyTable(r, child)
  {
    var d: nat :| 16 * parent <= d < 16 * parent + n && Dir(r0, d).present;
    assert Dir(r, d - 16 * parent + 16 * child).present;
  }
}
