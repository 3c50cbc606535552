/**
  Physical memory, page tables and frame reference counts as values, with the invariant of
  linux-0.11/mm/memory.c and the primitive steps its routines are made of.

  The page directory is frame 0 (memory.c:133, 182: `_pg_dir = 0`).  Task slot s owns directory
  entries 16*s .. 16*s+15, that is the 64MB at linear address s * 0x4000000.
*/
module PageTables {
  import opened PageWord
  import opened Sets

  const ENTRIES := 1024
  const FRAMES := 4096          // 16MB of physical memory
  const LOW := 256              // LOW_MEM >> 12
  const TOTAL_PAGES := 3840     // PAGING_MEMORY >> 12
  const FIRST_USER := 16        // first directory entry of task slot 1
  const ZERO_FRAME := seq(1024, _ => ZERO)

  type Frame = s: seq<Word> | |s| == 1024 witness ZERO_FRAME
  type Ram = r: seq<Frame> | |r| == 4096 witness seq(4096, _ => ZERO_FRAME)
  type Counts = c: seq<nat> | |c| == 3840 witness seq(3840, _ => 0)

  /**
    `count` is memory_map[] and `held` says how many of those references belong to the kernel
    outside the page tables (task structures, pipes, buffers, pages just allocated).
  */
  datatype Mem = Mem(ram: Ram, count: Counts, held: Counts) {
    function Count(f: nat): nat
      requires LOW <= f < FRAMES
    {
      count[f - LOW]
    }

    function Held(f: nat): nat
      requires LOW <= f < FRAMES
    {
      held[f - LOW]
    }
  }

  // ----- Reading the tables -----

  function Dir(r: Ram, d: nat): Word
    requires d < ENTRIES
  {
    r[0][d]
  }

  /** The page-table entry for 4KB page i of directory entry d; all zero when there is no table. */
  function Pte(r: Ram, d: nat, i: nat): Word
    requires d < ENTRIES && i < ENTRIES
  {
    var e := Dir(r, d);
    if e.present && e.page < FRAMES then r[e.page][i] else ZERO
  }

  predicate Maps(r: Ram, d: nat, i: nat, f: nat)
    requires d < ENTRIES && i < ENTRIES
  {
    Pte(r, d, i).present && Pte(r, d, i).page == f
  }

  /** What the user of page (d, i) sees; None when an access faults. */
  datatype View = Fault | Sees(page: Frame)

  function ViewOf(r: Ram, d: nat, i: nat): View
    requires d < ENTRIES && i < ENTRIES
  {
    var e := Pte(r, d, i);
    if e.present && e.page < FRAMES then Sees(r[e.page]) else Fault
  }

  /** The page is frame 0, the page directory: the one page kernel bookkeeping itself rewrites. */
  predicate ShowsDirectory(r: Ram, d: nat, i: nat)
    requires d < ENTRIES && i < ENTRIES
  {
    Pte(r, d, i).present && Pte(r, d, i).page == 0
  }

  // ----- Reference counting -----

  /** The page-table entries of task slots 1 and up, as (directory entry, table entry). */
  ghost function UserEntries(): (s: set<(nat, nat)>)
    ensures forall p: (nat, nat) :: p in s <==> FIRST_USER <= p.0 < ENTRIES && p.1 < ENTRIES
  {
    set d: nat, i: nat | FIRST_USER <= d < ENTRIES && i < ENTRIES :: (d, i)
  }

  ghost function PteRefs(r: Ram, f: nat): set<(nat, nat)> {
    set p | p in UserEntries() && Maps(r, p.0, p.1, f)
  }

  ghost function DirRefs(r: Ram, f: nat): set<nat> {
    set d: nat | FIRST_USER <= d < ENTRIES && Dir(r, d).present && Dir(r, d).page == f
  }

  /** memory_map[f] is exactly the number of entries naming f plus the kernel's own references. */
  ghost predicate Counted(m: Mem) {
    forall f: nat {:trigger m.Count(f)} | LOW <= f < FRAMES ::
      m.Count(f) == |PteRefs(m.ram, f)| + |DirRefs(m.ram, f)| + m.Held(f)
  }

  /** A page table lives in its own frame: no entry maps it and no other directory entry names it. */
  ghost predicate TablesOk(m: Mem, high: nat) {
    && (forall d: nat | FIRST_USER <= d < ENTRIES && Dir(m.ram, d).present ::
          LOW <= Dir(m.ram, d).page < high <= FRAMES && m.Held(Dir(m.ram, d).page) == 0)
    && (forall d: nat, d': nat | FIRST_USER <= d < d' < ENTRIES && Dir(m.ram, d).present && Dir(m.ram, d').present ::
          Dir(m.ram, d).page != Dir(m.ram, d').page)
    && (forall d: nat, d': nat, i: nat {:trigger Dir(m.ram, d), Pte(m.ram, d', i)}
          | FIRST_USER <= d < ENTRIES && FIRST_USER <= d' < ENTRIES && i < ENTRIES && Dir(m.ram, d).present
            && Pte(m.ram, d', i).present ::
          Pte(m.ram, d', i).page != Dir(m.ram, d).page)
  }

  /** Every mapped frame exists, is not in kernel hands, and is mapped at one task-relative place. */
  ghost predicate PagesOk(m: Mem, high: nat) {
    && (forall d: nat, i: nat {:trigger Pte(m.ram, d, i)}
          | FIRST_USER <= d < ENTRIES && i < ENTRIES && Pte(m.ram, d, i).present ::
          var f := Pte(m.ram, d, i).page; f < high <= FRAMES && (LOW <= f ==> m.Held(f) == 0))
    && (forall d: nat, i: nat, d': nat, i': nat {:trigger Pte(m.ram, d, i), Pte(m.ram, d', i')}
          | FIRST_USER <= d < ENTRIES && i < ENTRIES && FIRST_USER <= d' < ENTRIES && i' < ENTRIES
            && Pte(m.ram, d, i).present && Pte(m.ram, d', i').present
            && LOW <= Pte(m.ram, d, i).page == Pte(m.ram, d', i').page ::
          d % 16 == d' % 16 && i == i')
  }

  /** Copy on write: a writable entry is the only entry mapping its frame. */
  ghost predicate WritableUnshared(m: Mem) {
    forall d: nat, i: nat {:trigger Pte(m.ram, d, i)}
      | FIRST_USER <= d < ENTRIES && i < ENTRIES && Pte(m.ram, d, i).present && Pte(m.ram, d, i).writable ::
      && LOW <= Pte(m.ram, d, i).page
      && forall d': nat, i': nat {:trigger Pte(m.ram, d', i')}
           | FIRST_USER <= d' < ENTRIES && i' < ENTRIES && (d' != d || i' != i) && Pte(m.ram, d', i').present ::
           Pte(m.ram, d', i').page != Pte(m.ram, d, i).page
  }

  /** Task 0 runs on the kernel's identity map of low memory, whose first table is frame 1. */
  ghost predicate KernelOk(m: Mem, high: nat) {
    && LOW <= high <= FRAMES
    && Dir(m.ram, 0).present && Dir(m.ram, 0).page == 1
    && (forall i: nat {:trigger m.ram[1][i]} | i < 160 :: m.ram[1][i].page < LOW)
    && (forall f: nat {:trigger m.Held(f)} | high <= f < FRAMES && LOW <= f :: m.Held(f) > 0)
  }

  ghost predicate Inv(m: Mem, high: nat) {
    Counted(m) && TablesOk(m, high) && PagesOk(m, high) && WritableUnshared(m) && KernelOk(m, high)
  }

  // ----- Consequences of the invariant -----

  /** A frame mapped by a writable entry has memory_map count exactly 1. */
  lemma WritableCountIsOne(m: Mem, high: nat, d: nat, i: nat)
    requires Inv(m, high) && FIRST_USER <= d < ENTRIES && i < ENTRIES
    requires Pte(m.ram, d, i).present && Pte(m.ram, d, i).writable
    ensures LOW <= Pte(m.ram, d, i).page < FRAMES && m.Count(Pte(m.ram, d, i).page) == 1
  {
    var f := Pte(m.ram, d, i).page;
    assert PteRefs(m.ram, f) == {(d, i)};
    MappedIsNotTable(m, high, d, i);
  }

  lemma MappedIsNotTable(m: Mem, high: nat, d: nat, i: nat)
    requires Inv(m, high) && FIRST_USER <= d < ENTRIES && i < ENTRIES
    requires Pte(m.ram, d, i).present
    ensures DirRefs(m.ram, Pte(m.ram, d, i).page) == {}
  {
    var f := Pte(m.ram, d, i).page;
    assert forall d': nat | FIRST_USER <= d' < ENTRIES && Dir(m.ram, d').present :: Dir(m.ram, d').page != f;
  }

  /** Conversely a read-only mapping whose count is 1 is the only one. */
  lemma CountOneIsUnshared(m: Mem, high: nat, d: nat, i: nat, d': nat, i': nat)
    requires Inv(m, high) && FIRST_USER <= d < ENTRIES && i < ENTRIES
    requires Pte(m.ram, d, i).present && LOW <= Pte(m.ram, d, i).page < FRAMES && m.Count(Pte(m.ram, d, i).page) == 1
    requires FIRST_USER <= d' < ENTRIES && i' < ENTRIES && Maps(m.ram, d', i', Pte(m.ram, d, i).page)
    ensures d' == d && i' == i
  {
    var s := PteRefs(m.ram, Pte(m.ram, d, i).page);
    assert (d, i) in s && (d', i') in s;
    if (d', i') != (d, i) {
      assert {(d, i), (d', i')} <= s;
      SubsetCard({(d, i), (d', i')}, s);
    }
  }

  /** A free frame is in no table. */
  lemma FreeIsUnreferenced(m: Mem, high: nat, f: nat)
    requires Inv(m, high) && LOW <= f < FRAMES && m.Count(f) == 0
    ensures f < high && m.Held(f) == 0 && PteRefs(m.ram, f) == {} && DirRefs(m.ram, f) == {}
  {
    assert m.Count(f) == |PteRefs(m.ram, f)| + |DirRefs(m.ram, f)| + m.Held(f);
  }

  /** The byte counter cannot overflow: a frame is mapped at most once in each of the 63 slots. */
  lemma AtMostOnePerSlot(m: Mem, high: nat, f: nat)
    requires Inv(m, high) && LOW <= f < FRAMES
    ensures |PteRefs(m.ram, f)| <= 63
    ensures PteRefs(m.ram, f) != {} ==> m.Count(f) <= 63
  {
    var s := PteRefs(m.ram, f);
    if s != {} {
      var d, i :| (d, i) in s;
      assert Maps(m.ram, d, i, f);
      var places := Places(d % 16, i, 64);
      forall p | p in s ensures p in places {
        var (d', i') := p;
        assert Maps(m.ram, d', i', f);
        assert d' == 16 * (d' / 16) + d % 16;
      }
      SubsetCard(s, places);
      MappedIsNotTable(m, high, d, i);
      assert m.Count(f) == |s| + |DirRefs(m.ram, f)| + m.Held(f);
    }
  }

  ghost function Places(o: nat, i: nat, n: nat): (ps: set<(nat, nat)>)
    requires 1 <= n
    ensures |ps| <= n - 1
    ensures forall k: nat | 1 <= k < n :: (16 * k + o, i) in ps
  {
    if n == 1 then {} else Places(o, i, n - 1) + {(16 * (n - 1) + o, i)}
  }

  // ----- One write into a table -----

  function WritePte(r: Ram, d: nat, i: nat, w: Word): Ram
    requires d < ENTRIES && i < ENTRIES && Dir(r, d).present && Dir(r, d).page < FRAMES
  {
    var t := Dir(r, d).page;
    r[t := r[t][i := w]]
  }

  function WriteDir(r: Ram, d: nat, w: Word): Ram
    requires d < ENTRIES
  {
    r[0 := r[0][d := w]]
  }

  /** Tables do not overlap, so writing one entry changes that entry and no other. */
  lemma WritePteFrame(m: Mem, high: nat, d: nat, i: nat, w: Word)
    requires Inv(m, high) && FIRST_USER <= d < ENTRIES && i < ENTRIES && Dir(m.ram, d).present
    ensures var r := WritePte(m.ram, d, i, w);
      && (forall d': nat | d' < ENTRIES :: Dir(r, d') == Dir(m.ram, d'))
      && (forall d': nat, i': nat {:trigger Pte(r, d', i')} | FIRST_USER <= d' < ENTRIES && i' < ENTRIES ::
            Pte(r, d', i') == if d' == d && i' == i then w else Pte(m.ram, d', i'))
      && r[1] == m.ram[1]
      && (forall f: nat | f < FRAMES && f != Dir(m.ram, d).page :: r[f] == m.ram[f])
  {
  }

  /** When only entry (d, i) differs, the entries mapping f differ at most in (d, i). */
  lemma RefsDifferAtOne(r: Ram, r': Ram, d: nat, i: nat, f: nat)
    requires FIRST_USER <= d < ENTRIES && i < ENTRIES
    requires forall d': nat, i': nat {:trigger Pte(r', d', i')}
      | FIRST_USER <= d' < ENTRIES && i' < ENTRIES && (d' != d || i' != i) :: Pte(r', d', i') == Pte(r, d', i')
    ensures |PteRefs(r', f)| == |PteRefs(r, f)| - (if Maps(r, d, i, f) then 1 else 0) + (if Maps(r', d, i, f) then 1 else 0)
  {
    forall d': nat, i': nat | FIRST_USER <= d' < ENTRIES && i' < ENTRIES && (d' != d || i' != i) ensures Maps(r', d', i', f) == Maps(r, d', i', f) {
      assert Pte(r', d', i') == Pte(r, d', i');
    }
    RefsDifferInOne(r, r', d, i, f);
  }

  lemma RefsDifferInOne(r: Ram, r': Ram, d: nat, i: nat, f: nat)
    requires FIRST_USER <= d < ENTRIES && i < ENTRIES
    requires forall d': nat, i': nat {:trigger Maps(r', d', i', f)}
      | FIRST_USER <= d' < ENTRIES && i' < ENTRIES && (d' != d || i' != i) :: Maps(r', d', i', f) == Maps(r, d', i', f)
    ensures |PteRefs(r', f)| == |PteRefs(r, f)| - (if Maps(r, d, i, f) then 1 else 0) + (if Maps(r', d, i, f) then 1 else 0)
  {
    var before, after := PteRefs(r, f), PteRefs(r', f);
    forall p: (nat, nat) | p != (d, i) ensures p in before <==> p in after {
      if p in UserEntries() {
        assert Maps(r', p.0, p.1, f) == Maps(r, p.0, p.1, f);
      }
    }
    CardDifferAtOne(before, after, (d, i));
  }

  /** How the reference counts move when one page-table entry is written. */
  lemma WritePteRefs(m: Mem, high: nat, d: nat, i: nat, w: Word, f: nat)
    requires Inv(m, high) && FIRST_USER <= d < ENTRIES && i < ENTRIES && Dir(m.ram, d).present
    ensures var r := WritePte(m.ram, d, i, w);
      && DirRefs(r, f) == DirRefs(m.ram, f)
      && |PteRefs(r, f)| == |PteRefs(m.ram, f)| - (if Maps(m.ram, d, i, f) then 1 else 0)
                            + (if w.present && w.page == f then 1 else 0)
  {
    var r := WritePte(m.ram, d, i, w);
    WritePteFrame(m, high, d, i, w);
    RefsDifferAtOne(m.ram, r, d, i, f);
    assert Pte(r, d, i) == w;
    assert DirRefs(r, f) == DirRefs(m.ram, f);
  }

  /** Writing one entry leaves what every other entry shows as it was. */
  lemma WritePteViews(m: Mem, high: nat, d: nat, i: nat, w: Word)
    requires Inv(m, high) && FIRST_USER <= d < ENTRIES && i < ENTRIES && Dir(m.ram, d).present
    ensures forall d': nat, i': nat {:trigger ViewOf(m.ram, d', i')}
              | FIRST_USER <= d' < ENTRIES && i' < ENTRIES && (d' != d || i' != i) ::
              ViewOf(WritePte(m.ram, d, i, w), d', i') == ViewOf(m.ram, d', i')
  {
    var r := WritePte(m.ram, d, i, w);
    WritePteFrame(m, high, d, i, w);
    forall d': nat, i': nat | FIRST_USER <= d' < ENTRIES && i' < ENTRIES && (d' != d || i' != i)
      ensures ViewOf(r, d', i') == ViewOf(m.ram, d', i')
    {
      assert Pte(r, d', i') == Pte(m.ram, d', i');
      assert !Maps(m.ram, d', i', Dir(m.ram, d).page);
    }
  }

  // ----- The primitive steps keep the invariant -----

  function Ref(w: Word, f: nat): nat {
    if w.present && w.page == f then 1 else 0
  }

  /** What a new value w for entry (d, i) has to satisfy for its frame to be shared safely. */
  ghost predicate MayInstall(m: Mem, high: nat, d: nat, i: nat, w: Word)
    requires d < ENTRIES && i < ENTRIES
  {
    w.present ==>
      && w.page < high <= FRAMES
      && (w.writable ==> LOW <= w.page)
      && (LOW <= w.page ==> DirRefs(m.ram, w.page) == {})
      && forall d': nat, i': nat {:trigger Pte(m.ram, d', i')}
           | FIRST_USER <= d' < ENTRIES && i' < ENTRIES && (d' != d || i' != i)
             && Pte(m.ram, d', i').present && Pte(m.ram, d', i').page == w.page ::
           !w.writable && !Pte(m.ram, d', i').writable && (LOW <= w.page ==> d' % 16 == d % 16 && i' == i)
  }

  /**
    The one-entry step: entry (d, i) becomes w, the count of each frame moves with the references
    gained and lost, and the kernel gives up whatever it held of the frame now mapped.
  */
  lemma PteStep(m: Mem, m': Mem, high: nat, d: nat, i: nat, w: Word)
    requires Inv(m, high) && FIRST_USER <= d < ENTRIES && i < ENTRIES && Dir(m.ram, d).present
    requires MayInstall(m, high, d, i, w)
    requires m'.ram == WritePte(m.ram, d, i, w)
    requires forall f: nat {:trigger m'.Held(f)} | LOW <= f < FRAMES ::
               m'.Held(f) == if Ref(w, f) == 1 then 0 else m.Held(f)
    requires forall f: nat {:trigger m'.Count(f)} | LOW <= f < FRAMES ::
               m'.Count(f) == m.Count(f) - m.Held(f) + m'.Held(f) - Ref(Pte(m.ram, d, i), f) + Ref(w, f)
    ensures Inv(m', high)
  {
    WritePteFrame(m, high, d, i, w);
    PteStepCounted(m, m', high, d, i, w);
    PteStepTables(m, m', high, d, i, w);
    PteStepPages(m, m', high, d, i, w);
  }

  lemma PteStepCounted(m: Mem, m': Mem, high: nat, d: nat, i: nat, w: Word)
    requires Inv(m, high) && FIRST_USER <= d < ENTRIES && i < ENTRIES && Dir(m.ram, d).present
    requires m'.ram == WritePte(m.ram, d, i, w)
    requires forall f: nat {:trigger m'.Count(f)} | LOW <= f < FRAMES ::
               m'.Count(f) == m.Count(f) - m.Held(f) + m'.Held(f) - Ref(Pte(m.ram, d, i), f) + Ref(w, f)
    ensures Counted(m')
  {
    forall f: nat | LOW <= f < FRAMES
      ensures m'.Count(f) == |PteRefs(m'.ram, f)| + |DirRefs(m'.ram, f)| + m'.Held(f)
    {
      WritePteRefs(m, high, d, i, w, f);
      assert m.Count(f) == |PteRefs(m.ram, f)| + |DirRefs(m.ram, f)| + m.Held(f);
    }
  }

  lemma PteStepTables(m: Mem, m': Mem, high: nat, d: nat, i: nat, w: Word)
    requires Inv(m, high) && FIRST_USER <= d < ENTRIES && i < ENTRIES && Dir(m.ram, d).present
    requires MayInstall(m, high, d, i, w)
    requires m'.ram == WritePte(m.ram, d, i, w)
    requires forall f: nat {:trigger m'.Held(f)} | LOW <= f < FRAMES ::
               m'.Held(f) == if Ref(w, f) == 1 then 0 else m.Held(f)
    ensures TablesOk(m', high)
  {
    WritePteFrame(m, high, d, i, w);
    forall t: nat, d': nat, i': nat
      | FIRST_USER <= t < ENTRIES && FIRST_USER <= d' < ENTRIES && i' < ENTRIES && Dir(m'.ram, t).present
        && Pte(m'.ram, d', i').present
      ensures Pte(m'.ram, d', i').page != Dir(m'.ram, t).page
    {
      assert Pte(m'.ram, d', i') == if d' == d && i' == i then w else Pte(m.ram, d', i');
      assert t in DirRefs(m.ram, Dir(m.ram, t).page);
    }
  }

  lemma PteStepPages(m: Mem, m': Mem, high: nat, d: nat, i: nat, w: Word)
    requires Inv(m, high) && FIRST_USER <= d < ENTRIES && i < ENTRIES && Dir(m.ram, d).present
    requires MayInstall(m, high, d, i, w)
    requires m'.ram == WritePte(m.ram, d, i, w)
    requires forall f: nat {:trigger m'.Held(f)} | LOW <= f < FRAMES ::
               m'.Held(f) == if Ref(w, f) == 1 then 0 else m.Held(f)
    ensures PagesOk(m', high) && WritableUnshared(m') && KernelOk(m', high)
  {
    WritePteFrame(m, high, d, i, w);
  }

  /** Giving the kernel a free frame, zeroed or not. */
  lemma AllocStep(m: Mem, high: nat, f: nat, x: Frame)
    requires Inv(m, high) && LOW <= f < FRAMES && m.Count(f) == 0
    ensures var m' := Mem(m.ram[f := x], m.count[f - LOW := 1], m.held[f - LOW := 1]);
      && Inv(m', high)
      && (forall d: nat | d < ENTRIES :: Dir(m'.ram, d) == Dir(m.ram, d))
      && (forall d: nat, i: nat {:trigger Pte(m'.ram, d, i)} | FIRST_USER <= d < ENTRIES && i < ENTRIES ::
            Pte(m'.ram, d, i) == Pte(m.ram, d, i) && ViewOf(m'.ram, d, i) == ViewOf(m.ram, d, i))
  {
    hide TablesOk, PagesOk, WritableUnshared;
    var m' := Mem(m.ram[f := x], m.count[f - LOW := 1], m.held[f - LOW := 1]);
    FreeIsUnreferenced(m, high, f);
    UnreferencedFrameWrite(m, high, f, x);
    hide ViewOf, Pte;
    forall d: nat, i: nat | FIRST_USER <= d < ENTRIES && i < ENTRIES
      ensures Pte(m'.ram, d, i) == Pte(m.ram, d, i) && ViewOf(m'.ram, d, i) == ViewOf(m.ram, d, i)
    {
      assert Pte(m.ram[f := x], d, i) == Pte(m.ram, d, i);
    }
    ShapeKept(m, m', high, f);
    assert KernelOk(m', high) by {
      forall g: nat | high <= g < FRAMES ensures m'.Held(g) > 0 {
        assert m.Held(g) > 0;
      }
    }
    assert Counted(m') by {
      forall g: nat | LOW <= g < FRAMES
        ensures m'.Count(g) == |PteRefs(m'.ram, g)| + |DirRefs(m'.ram, g)| + m'.Held(g)
      {
        SameRefs(m.ram, m'.ram, g);
        assert m.Count(g) == |PteRefs(m.ram, g)| + |DirRefs(m.ram, g)| + m.Held(g);
      }
    }
  }

  /** The kernel's hold on a frame that no table names does not matter to the tables. */
  lemma ShapeKept(m: Mem, m': Mem, high: nat, f: nat)
    requires TablesOk(m, high) && PagesOk(m, high) && WritableUnshared(m) && LOW <= f < FRAMES
    requires forall d: nat | d < ENTRIES :: Dir(m'.ram, d) == Dir(m.ram, d)
    requires forall d: nat, i: nat {:trigger Pte(m'.ram, d, i)} | FIRST_USER <= d < ENTRIES && i < ENTRIES ::
               Pte(m'.ram, d, i) == Pte(m.ram, d, i) && (Pte(m.ram, d, i).present ==> Pte(m.ram, d, i).page != f)
    requires forall d: nat | FIRST_USER <= d < ENTRIES && Dir(m.ram, d).present :: Dir(m.ram, d).page != f
    requires forall g: nat {:trigger m'.Held(g)} | LOW <= g < FRAMES && g != f :: m'.Held(g) == m.Held(g)
    ensures TablesOk(m', high) && PagesOk(m', high) && WritableUnshared(m')
  {
  }

  /** Filling a frame no table names changes no entry and no view. */
  lemma UnreferencedFrameWrite(m: Mem, high: nat, f: nat, x: Frame)
    requires Inv(m, high) && LOW <= f < FRAMES && PteRefs(m.ram, f) == {} && DirRefs(m.ram, f) == {}
    ensures var r := m.ram[f := x];
      && (forall d: nat | d < ENTRIES :: Dir(r, d) == Dir(m.ram, d))
      && (forall d: nat | FIRST_USER <= d < ENTRIES && Dir(m.ram, d).present :: Dir(m.ram, d).page != f)
      && (forall d: nat, i: nat {:trigger Pte(r, d, i)} | FIRST_USER <= d < ENTRIES && i < ENTRIES ::
            && Pte(r, d, i) == Pte(m.ram, d, i) && ViewOf(r, d, i) == ViewOf(m.ram, d, i)
            && (Pte(m.ram, d, i).present ==> Pte(m.ram, d, i).page != f))
      && r[1] == m.ram[1]
  {
    var r := m.ram[f := x];
    forall d: nat | FIRST_USER <= d < ENTRIES && Dir(m.ram, d).present ensures Dir(m.ram, d).page != f {
      assert d !in DirRefs(m.ram, f);
    }
    forall d: nat, i: nat | FIRST_USER <= d < ENTRIES && i < ENTRIES
      ensures Pte(r, d, i) == Pte(m.ram, d, i) && ViewOf(r, d, i) == ViewOf(m.ram, d, i)
      ensures Pte(m.ram, d, i).present ==> Pte(m.ram, d, i).page != f
    {
      assert (d, i) !in PteRefs(m.ram, f);
    }
  }

  lemma SameRefs(r: Ram, r': Ram, f: nat)
    requires forall d: nat | FIRST_USER <= d < ENTRIES :: Dir(r', d) == Dir(r, d)
    requires forall d: nat, i: nat {:trigger Pte(r', d, i)} | FIRST_USER <= d < ENTRIES && i < ENTRIES ::
               Pte(r', d, i).present == Pte(r, d, i).present && Pte(r', d, i).page == Pte(r, d, i).page
    ensures PteRefs(r', f) == PteRefs(r, f) && DirRefs(r', f) == DirRefs(r, f)
  {
    forall p | p in UserEntries() ensures Maps(r', p.0, p.1, f) == Maps(r, p.0, p.1, f) {
      assert Pte(r', p.0, p.1).present == Pte(r, p.0, p.1).present;
    }
  }

  lemma ReleaseStep(m: Mem, high: nat, f: nat)
    requires Inv(m, high) && LOW <= f < high && m.Held(f) > 0
    ensures m.Count(f) > 0
    ensures Inv(Mem(m.ram, m.count[f - LOW := m.Count(f) - 1], m.held[f - LOW := m.Held(f) - 1]), high)
  {
    hide WritableUnshared;
    assert m.Count(f) == |PteRefs(m.ram, f)| + |DirRefs(m.ram, f)| + m.Held(f);
    var m' := Mem(m.ram, m.count[f - LOW := m.Count(f) - 1], m.held[f - LOW := m.Held(f) - 1]);
    HeldIsUnnamed(m, high, f);
    hide TablesOk, PagesOk;
    ShapeKept(m, m', high, f);
    assert KernelOk(m', high) by {
      forall g: nat | high <= g < FRAMES ensures m'.Held(g) > 0 {
        assert m.Held(g) > 0;
      }
    }
    assert Counted(m') by {
      forall g: nat | LOW <= g < FRAMES
        ensures m'.Count(g) == |PteRefs(m'.ram, g)| + |DirRefs(m'.ram, g)| + m'.Held(g)
      {
        assert m.Count(g) == |PteRefs(m.ram, g)| + |DirRefs(m.ram, g)| + m.Held(g);
      }
    }
  }

  lemma HeldIsUnnamed(m: Mem, high: nat, f: nat)
    requires TablesOk(m, high) && PagesOk(m, high) && LOW <= f < FRAMES && m.Held(f) > 0
    ensures forall d: nat, i: nat {:trigger Pte(m.ram, d, i)} | FIRST_USER <= d < ENTRIES && i < ENTRIES && Pte(m.ram, d, i).present ::
              Pte(m.ram, d, i).page != f
    ensures forall d: nat | FIRST_USER <= d < ENTRIES && Dir(m.ram, d).present :: Dir(m.ram, d).page != f
  {
  }

  /** A zeroed frame held by the kernel becomes the page table of directory entry d. */
  lemma InstallTableStep(m: Mem, high: nat, d: nat, t: nat)
    requires Inv(m, high) && FIRST_USER <= d < ENTRIES && !Dir(m.ram, d).present
    requires LOW <= t < high && m.Count(t) == 1 == m.Held(t) && m.ram[t] == ZERO_FRAME
    ensures var m' := Mem(WriteDir(m.ram, d, UserPage(t)), m.count, m.held[t - LOW := 0]);
      Inv(m', high) && OnlyDirChanged(m.ram, m'.ram, d)
  {
    hide Counted, TablesOk, PagesOk, WritableUnshared;
    var m' := Mem(WriteDir(m.ram, d, UserPage(t)), m.count, m.held[t - LOW := 0]);
    WriteDirFrame(m, high, d, UserPage(t));
    forall g: nat | high <= g < FRAMES ensures m'.Held(g) > 0 {
      assert m.Held(g) > 0;
    }
    InstallTableCounted(m, m', high, d, t);
    InstalledDirKeepsShape(m, m', high, d, t);
  }

  lemma InstallTableCounted(m: Mem, m': Mem, high: nat, d: nat, t: nat)
    requires Inv(m, high) && FIRST_USER <= d < ENTRIES && !Dir(m.ram, d).present
    requires LOW <= t < high && m.Count(t) == 1 == m.Held(t) && m.ram[t] == ZERO_FRAME
    requires m' == Mem(WriteDir(m.ram, d, UserPage(t)), m.count, m.held[t - LOW := 0])
    ensures Counted(m')
  {
    forall g: nat | LOW <= g < FRAMES
      ensures m'.Count(g) == |PteRefs(m'.ram, g)| + |DirRefs(m'.ram, g)| + m'.Held(g)
    {
      assert m.Count(g) == |PteRefs(m.ram, g)| + |DirRefs(m.ram, g)| + m.Held(g);
      DirRefsStep(m, high, d, UserPage(t), g);
    }
  }

  lemma InstalledDirKeepsShape(m: Mem, m': Mem, high: nat, d: nat, t: nat)
    requires Inv(m, high) && FIRST_USER <= d < ENTRIES && OnlyDirChanged(m.ram, m'.ram, d)
    requires LOW <= t < high && m.Count(t) == m.Held(t) && Dir(m'.ram, d) == UserPage(t) && m'.held == m.held[t - LOW := 0]
    ensures TablesOk(m', high) && PagesOk(m', high) && WritableUnshared(m')
  {
    hide OnlyDirChanged, TablesOk, PagesOk, WritableUnshared;
    UnsharedIsUnmapped(m, high, t);
    InstalledDirTables(m, m', high, d, t);
    DirKeepsPages(m, m', high, d);
  }

  lemma InstalledDirTables(m: Mem, m': Mem, high: nat, d: nat, t: nat)
    requires Inv(m, high) && FIRST_USER <= d < ENTRIES && OnlyDirChanged(m.ram, m'.ram, d)
    requires LOW <= t < high && Dir(m'.ram, d) == UserPage(t) && m'.held == m.held[t - LOW := 0]
    requires forall d': nat | FIRST_USER <= d' < ENTRIES && Dir(m.ram, d').present :: Dir(m.ram, d').page != t
    requires forall d': nat, i: nat {:trigger Pte(m.ram, d', i)} | FIRST_USER <= d' < ENTRIES && i < ENTRIES && Pte(m.ram, d', i).present ::
               Pte(m.ram, d', i).page != t
    ensures TablesOk(m', high)
  {
    hide PagesOk, WritableUnshared, Counted;
  }

  /** Entries only go away with a directory entry, and the kernel gives up what it holds, if anything. */
  lemma DirKeepsPages(m: Mem, m': Mem, high: nat, d: nat)
    requires PagesOk(m, high) && WritableUnshared(m) && FIRST_USER <= d < ENTRIES && OnlyDirChanged(m.ram, m'.ram, d)
    requires forall f: nat {:trigger m'.Held(f)} | LOW <= f < FRAMES :: m'.Held(f) == 0 || m'.Held(f) == m.Held(f)
    ensures PagesOk(m', high) && WritableUnshared(m')
  {
    forall d': nat, i: nat | FIRST_USER <= d' < ENTRIES && i < ENTRIES && Pte(m'.ram, d', i).present
      ensures Pte(m'.ram, d', i) == Pte(m.ram, d', i)
    {
    }
  }

  /** Nothing but directory entry d and its (empty) table changed. */
  ghost predicate OnlyDirChanged(r: Ram, r': Ram, d: nat)
    requires d < ENTRIES
  {
    && (forall d': nat | d' < ENTRIES && d' != d :: Dir(r', d') == Dir(r, d'))
    && (forall d': nat, i: nat {:trigger Pte(r', d', i)} | FIRST_USER <= d' < ENTRIES && i < ENTRIES ::
          Pte(r', d', i) == if d' == d then ZERO else Pte(r, d', i))
    && (forall f: nat | 0 < f < FRAMES :: r'[f] == r[f])
  }

  lemma WriteDirFrame(m: Mem, high: nat, d: nat, w: Word)
    requires Inv(m, high) && FIRST_USER <= d < ENTRIES
    requires forall i: nat {:trigger Pte(m.ram, d, i)} | i < ENTRIES :: !Pte(m.ram, d, i).present
    requires w == ZERO || (LOW <= w.page < FRAMES && m.ram[w.page] == ZERO_FRAME)
    ensures OnlyDirChanged(m.ram, WriteDir(m.ram, d, w), d)
  {
    assert forall i: nat | i < ENTRIES :: ZERO_FRAME[i] == ZERO;
  }

  lemma DirRefsStep(m: Mem, high: nat, d: nat, w: Word, f: nat)
    requires Inv(m, high) && FIRST_USER <= d < ENTRIES
    requires forall i: nat {:trigger Pte(m.ram, d, i)} | i < ENTRIES :: !Pte(m.ram, d, i).present
    requires w == ZERO || (LOW <= w.page < FRAMES && m.ram[w.page] == ZERO_FRAME)
    ensures var r := WriteDir(m.ram, d, w);
      && PteRefs(r, f) == PteRefs(m.ram, f)
      && |DirRefs(r, f)| == |DirRefs(m.ram, f)| - Ref(Dir(m.ram, d), f) + Ref(w, f)
  {
    var r := WriteDir(m.ram, d, w);
    WriteDirFrame(m, high, d, w);
    forall p | p in UserEntries() ensures Maps(r, p.0, p.1, f) == Maps(m.ram, p.0, p.1, f) {
      assert Pte(r, p.0, p.1) == if p.0 == d then ZERO else Pte(m.ram, p.0, p.1);
    }
    assert PteRefs(r, f) == PteRefs(m.ram, f);
    forall d': nat | d' != d ensures d' in DirRefs(r, f) <==> d' in DirRefs(m.ram, f) {
    }
    CardDifferAtOne(DirRefs(m.ram, f), DirRefs(r, f), d);
  }

  /** An emptied page table is unlinked and its frame goes back to the free pool. */
  lemma RemoveTableStep(m: Mem, high: nat, d: nat)
    requires Inv(m, high) && FIRST_USER <= d < ENTRIES && Dir(m.ram, d).present
    requires forall i: nat {:trigger Pte(m.ram, d, i)} | i < ENTRIES :: !Pte(m.ram, d, i).present
    ensures var t := Dir(m.ram, d).page;
      && LOW <= t < high && m.Count(t) == 1
      && var m' := Mem(WriteDir(m.ram, d, ZERO), m.count[t - LOW := 0], m.held);
         Inv(m', high) && OnlyDirChanged(m.ram, m'.ram, d) && HeldKept(m, m') && CountsFall(m, m') && m'.Count(t) == 0
  {
    RemoveTableKeepsHeld(m, high, d);
    hide Counted, TablesOk, PagesOk, WritableUnshared;
    TableCountIsOne(m, high, d);
    var t := Dir(m.ram, d).page;
    var m' := Mem(WriteDir(m.ram, d, ZERO), m.count[t - LOW := 0], m.held);
    WriteDirFrame(m, high, d, ZERO);
    forall g: nat | high <= g < FRAMES ensures m'.Held(g) > 0 {
      assert m.Held(g) > 0;
    }
    RemoveTableCounted(m, m', high, d);
    RemovedDirKeepsShape(m, m', high, d);
  }

  lemma RemoveTableKeepsHeld(m: Mem, high: nat, d: nat)
    requires Inv(m, high) && FIRST_USER <= d < ENTRIES && Dir(m.ram, d).present
    ensures var t := Dir(m.ram, d).page;
      && LOW <= t < high <= FRAMES
      && var m' := Mem(WriteDir(m.ram, d, ZERO), m.count[t - LOW := 0], m.held);
         HeldKept(m, m') && CountsFall(m, m') && m'.Count(t) == 0
  {
  }

  lemma TableCountIsOne(m: Mem, high: nat, d: nat)
    requires Inv(m, high) && FIRST_USER <= d < ENTRIES && Dir(m.ram, d).present
    ensures LOW <= Dir(m.ram, d).page < high && m.Count(Dir(m.ram, d).page) == 1
  {
    var t := Dir(m.ram, d).page;
    assert PteRefs(m.ram, t) == {};
    assert DirRefs(m.ram, t) == {d};
    assert m.Count(t) == |PteRefs(m.ram, t)| + |DirRefs(m.ram, t)| + m.Held(t);
  }

  lemma RemovedDirKeepsShape(m: Mem, m': Mem, high: nat, d: nat)
    requires Inv(m, high) && FIRST_USER <= d < ENTRIES && Dir(m.ram, d).present
    requires OnlyDirChanged(m.ram, m'.ram, d) && !Dir(m'.ram, d).present && m'.held == m.held
    ensures TablesOk(m', high) && PagesOk(m', high) && WritableUnshared(m')
  {
    hide Counted, KernelOk, PagesOk, WritableUnshared;
    DirKeepsPages(m, m', high, d);
  }

  lemma RemoveTableCounted(m: Mem, m': Mem, high: nat, d: nat)
    requires Inv(m, high) && FIRST_USER <= d < ENTRIES && Dir(m.ram, d).present
    requires forall i: nat {:trigger Pte(m.ram, d, i)} | i < ENTRIES :: !Pte(m.ram, d, i).present
    requires var t := Dir(m.ram, d).page; m.Count(t) == 1 && m' == Mem(WriteDir(m.ram, d, ZERO), m.count[t - LOW := 0], m.held)
    ensures Counted(m')
  {
    forall g: nat | LOW <= g < FRAMES
      ensures m'.Count(g) == |PteRefs(m'.ram, g)| + |DirRefs(m'.ram, g)| + m'.Held(g)
    {
      assert m.Count(g) == |PteRefs(m.ram, g)| + |DirRefs(m.ram, g)| + m.Held(g);
      DirRefsStep(m, high, d, ZERO, g);
    }
  }

  // ----- What the steps leave alone -----

  /** Outside directory entries lo..hi-1, no entry changed, nor what it shows (frame 0 is the directory itself). */
  ghost predicate SameOutside(r0: Ram, r: Ram, lo: nat, hi: nat) {
    && (forall d: nat | d < ENTRIES && !(lo <= d < hi) :: Dir(r, d) == Dir(r0, d))
    && (forall d: nat, i: nat {:trigger Pte(r, d, i)} | FIRST_USER <= d < ENTRIES && !(lo <= d < hi) && i < ENTRIES ::
          Pte(r, d, i) == Pte(r0, d, i) && (!ShowsDirectory(r0, d, i) ==> ViewOf(r, d, i) == ViewOf(r0, d, i)))
    && (forall f: nat | 0 < f < LOW :: r[f] == r0[f])
  }

  /** Frames in kernel hands keep their contents and their count. */
  ghost predicate HeldKept(m0: Mem, m: Mem) {
    forall f: nat {:trigger m.Count(f)} {:trigger m.ram[f]} | LOW <= f < FRAMES && m0.Held(f) > 0 ::
      m.Count(f) == m0.Count(f) && m.ram[f] == m0.ram[f]
  }

  /** No count goes up. */
  ghost predicate CountsFall(m0: Mem, m: Mem) {
    forall f: nat {:trigger m.Count(f)} | LOW <= f < FRAMES :: m.Count(f) <= m0.Count(f)
  }

  lemma KeptRefl(m: Mem)
    ensures HeldKept(m, m) && CountsFall(m, m)
  {
  }

  lemma FreedStayFree(m: Mem, m': Mem)
    requires CountsFall(m, m')
    ensures forall f: nat {:trigger m'.Count(f)} | LOW <= f < FRAMES && m.Count(f) == 0 :: m'.Count(f) == 0
  {
  }

  lemma HeldIsNotTable(m: Mem, high: nat, d: nat)
    requires Inv(m, high) && FIRST_USER <= d < ENTRIES && Dir(m.ram, d).present
    ensures LOW <= Dir(m.ram, d).page < FRAMES && m.Held(Dir(m.ram, d).page) == 0
  {
  }

  /** A page frame the kernel holds is not the table that an entry is written into. */
  lemma EntryKeepsHeld(m0: Mem, m: Mem, high: nat, d: nat, i: nat, w: Word, held: Counts)
    requires Inv(m, high) && FIRST_USER <= d < ENTRIES && i < ENTRIES && Dir(m.ram, d).present
    requires HeldKept(m0, m) && m0.held == m.held
    ensures Dir(m.ram, d).page < FRAMES && HeldKept(m0, Mem(WritePte(m.ram, d, i, w), m.count, held))
  {
    hide Inv;
    HeldIsNotTable(m, high, d);
    var m' := Mem(WritePte(m.ram, d, i, w), m.count, held);
    forall f: nat | LOW <= f < FRAMES && m0.Held(f) > 0 ensures m'.Count(f) == m0.Count(f) && m'.ram[f] == m0.ram[f] {
      assert m.Held(f) > 0 && m.Count(f) == m0.Count(f) && m.ram[f] == m0.ram[f];
    }
  }

  lemma KeptTrans(m0: Mem, m1: Mem, m2: Mem)
    requires HeldKept(m0, m1) && HeldKept(m1, m2) && CountsFall(m0, m1) && CountsFall(m1, m2) && m1.held == m0.held
    ensures HeldKept(m0, m2) && CountsFall(m0, m2)
  {
    forall f: nat | LOW <= f < FRAMES
      ensures m2.Count(f) <= m0.Count(f) && (m0.Held(f) > 0 ==> m2.Count(f) == m0.Count(f) && m2.ram[f] == m0.ram[f])
    {
      assert m1.Count(f) <= m0.Count(f) && m1.Held(f) == m0.Held(f);
    }
  }

  lemma SameOutsideRefl(r: Ram, lo: nat, hi: nat)
    ensures SameOutside(r, r, lo, hi)
  {
  }

  lemma SameOutsideTrans(r0: Ram, r1: Ram, r2: Ram, lo: nat, hi: nat, lo': nat, hi': nat)
    requires SameOutside(r0, r1, lo, hi) && SameOutside(r1, r2, lo', hi') && lo <= lo' && hi' <= hi
    ensures SameOutside(r0, r2, lo, hi)
  {
    forall d: nat, i: nat | FIRST_USER <= d < ENTRIES && !(lo <= d < hi) && i < ENTRIES
      ensures Pte(r2, d, i) == Pte(r0, d, i)
      ensures !ShowsDirectory(r0, d, i) ==> ViewOf(r2, d, i) == ViewOf(r0, d, i)
    {
      assert Pte(r1, d, i) == Pte(r0, d, i);
    }
    forall d: nat | d < ENTRIES && !(lo <= d < hi) ensures Dir(r2, d) == Dir(r0, d) {
      assert Dir(r1, d) == Dir(r0, d);
    }
  }

  lemma OnlyDirIsSameOutside(r: Ram, r': Ram, d: nat)
    requires d < ENTRIES && OnlyDirChanged(r, r', d)
    ensures SameOutside(r, r', d, d + 1)
  {
    forall d': nat, i: nat | FIRST_USER <= d' < ENTRIES && d' != d && i < ENTRIES
      ensures Pte(r', d', i) == Pte(r, d', i)
      ensures !ShowsDirectory(r, d', i) ==> ViewOf(r', d', i) == ViewOf(r, d', i)
    {
      assert Pte(r', d', i) == Pte(r, d', i);
      assert 0 < Pte(r, d', i).page < FRAMES ==> r'[Pte(r, d', i).page] == r[Pte(r, d', i).page];
    }
  }

  /** memory.c:139-141: an entry is dropped and the count of the frame it named goes down. */
  function Unmap(m: Mem, d: nat, i: nat): Mem
    requires d < ENTRIES && i < ENTRIES && Dir(m.ram, d).present && Dir(m.ram, d).page < FRAMES
    requires var w := Pte(m.ram, d, i); w.present && LOW <= w.page ==> w.page < FRAMES && m.Count(w.page) > 0
  {
    var w := Pte(m.ram, d, i);
    Mem(WritePte(m.ram, d, i, ZERO),
        if w.present && LOW <= w.page then m.count[w.page - LOW := m.Count(w.page) - 1] else m.count,
        m.held)
  }

  lemma PageIsNotTable(m: Mem, high: nat, d: nat, i: nat, d': nat)
    requires Inv(m, high) && FIRST_USER <= d < ENTRIES && i < ENTRIES && Pte(m.ram, d, i).present
    requires FIRST_USER <= d' < ENTRIES && Dir(m.ram, d').present
    ensures Pte(m.ram, d, i).page != Dir(m.ram, d').page
  {
  }

  lemma TableInRange(m: Mem, high: nat, d: nat)
    requires Inv(m, high) && FIRST_USER <= d < ENTRIES && Dir(m.ram, d).present
    ensures LOW <= Dir(m.ram, d).page < high <= FRAMES
  {
  }

  /** A free frame, or one the kernel alone holds, is in no entry. */
  lemma UnsharedIsUnmapped(m: Mem, high: nat, f: nat)
    requires Inv(m, high) && LOW <= f < FRAMES && m.Count(f) == m.Held(f)
    ensures forall d: nat | FIRST_USER <= d < ENTRIES && Dir(m.ram, d).present :: LOW <= Dir(m.ram, d).page != f
    ensures forall d: nat, i: nat {:trigger Pte(m.ram, d, i)} | FIRST_USER <= d < ENTRIES && i < ENTRIES && Pte(m.ram, d, i).present ::
              Pte(m.ram, d, i).page != f
    ensures PteRefs(m.ram, f) == {} && DirRefs(m.ram, f) == {}
  {
    assert m.Count(f) == |PteRefs(m.ram, f)| + |DirRefs(m.ram, f)| + m.Held(f);
    UnreferencedFrameWrite(m, high, f, ZERO_FRAME);
    assert forall d: nat, i: nat {:trigger Pte(m.ram, d, i)} | FIRST_USER <= d < ENTRIES && i < ENTRIES ::
        Pte(m.ram[f := ZERO_FRAME], d, i) == Pte(m.ram, d, i);
  }

  lemma FreeIsUnheld(m: Mem, high: nat, f: nat)
    requires Inv(m, high) && LOW <= f < FRAMES && m.Count(f) == 0
    ensures m.Held(f) == 0
  {
    FreeIsUnreferenced(m, high, f);
  }

  lemma KernelTable(m: Mem, high: nat)
    requires Inv(m, high)
    ensures LOW <= high <= FRAMES && Dir(m.ram, 0).present && Dir(m.ram, 0).page == 1
    ensures forall i: nat {:trigger m.ram[1][i]} | i < 160 :: m.ram[1][i].page < LOW
  {
  }

  lemma MappedIsCounted(m: Mem, high: nat, d: nat, i: nat)
    requires Inv(m, high) && FIRST_USER <= d < ENTRIES && i < ENTRIES && Pte(m.ram, d, i).present
    ensures Pte(m.ram, d, i).page < high
    ensures LOW <= Pte(m.ram, d, i).page ==> m.Count(Pte(m.ram, d, i).page) > 0
  {
    var f := Pte(m.ram, d, i).page;
    if LOW <= f {
      assert (d, i) in PteRefs(m.ram, f);
      assert m.Count(f) == |PteRefs(m.ram, f)| + |DirRefs(m.ram, f)| + m.Held(f);
    }
  }

  lemma UnmapKeepsHeld(m: Mem, high: nat, d: nat, i: nat)
    requires Inv(m, high) && FIRST_USER <= d < ENTRIES && i < ENTRIES && Dir(m.ram, d).present
    requires var w := Pte(m.ram, d, i); w.present ==> w.page < high && (LOW <= w.page ==> m.Count(w.page) > 0)
    ensures HeldKept(m, Unmap(m, d, i)) && CountsFall(m, Unmap(m, d, i))
  {
  }

  lemma UnmapStep(m: Mem, high: nat, d: nat, i: nat)
    requires Inv(m, high) && FIRST_USER <= d < ENTRIES && i < ENTRIES && Dir(m.ram, d).present
    ensures var w := Pte(m.ram, d, i); w.present ==> w.page < high && (LOW <= w.page ==> m.Count(w.page) > 0)
    ensures var m' := Unmap(m, d, i);
      && Inv(m', high) && SameOutside(m.ram, m'.ram, d, d + 1)
      && (forall d': nat | d' < ENTRIES :: Dir(m'.ram, d') == Dir(m.ram, d'))
      && (forall i': nat {:trigger Pte(m'.ram, d, i')} | i' < ENTRIES ::
            Pte(m'.ram, d, i') == if i' == i then ZERO else Pte(m.ram, d, i'))
      && HeldKept(m, m') && CountsFall(m, m')
  {
    if Pte(m.ram, d, i).present {
      MappedIsCounted(m, high, d, i);
    }
    var m' := Unmap(m, d, i);
    UnmapKeepsHeld(m, high, d, i);
    WritePteFrame(m, high, d, i, ZERO);
    WritePteViews(m, high, d, i, ZERO);
    PteStep(m, m', high, d, i, ZERO);
  }
}
