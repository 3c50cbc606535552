/**
  What copy_page_tables (linux-0.11/mm/memory.c:169-244) does to the tables, entry by entry, and why
  each entry copied keeps the reference counts exact and shares no writable page.
*/
module Fork {
  import opened PageWord
  import opened PageTables

  function ReadOnly(w: Word): Word {
    w.(writable := false)
  }

  /** What copy_page_tables leaves in the parent's table for a parent entry w (memory.c:214-238). */
  function ParentEntry(w: Word): Word {
    if w.present && w.page >= LOW then ReadOnly(w) else w
  }

  /** What it puts in the child's table. */
  function ChildEntry(w: Word): Word {
    if w.present then ReadOnly(w) else ZERO
  }

  /** Entry i of the k-th table has been copied when the loops stand at (kNow, iNow). */
  predicate Done(k: int, i: nat, kNow: nat, iNow: nat, nr: nat) {
    i < nr && (k < kNow || (k == kNow && i < iNow))
  }

  /** The page tables after copy_page_tables has reached (kNow, iNow), against those before. */
  ghost predicate CopiedUpTo(r0: Ram, r: Ram, from: nat, to: nat, n: nat, kNow: nat, iNow: nat, nr: nat)
    requires from + n <= ENTRIES && to + n <= ENTRIES && nr <= ENTRIES
  {
    && (forall d: nat | d < ENTRIES && !(to <= d < to + n) :: Dir(r, d) == Dir(r0, d))
    && (forall d: nat | to + kNow < d < to + n :: !Dir(r, d).present)
    && (forall d: nat, i: nat {:trigger Pte(r, d, i)} | FIRST_USER <= d < ENTRIES && i < ENTRIES ::
          Pte(r, d, i) ==
            if from <= d < from + n && Done(d - from, i, kNow, iNow, nr) then ParentEntry(Pte(r0, d, i))
            else if to <= d < to + n && Done(d - to, i, kNow, iNow, nr) then ChildEntry(Pte(r0, d - to + from, i))
            else Pte(r0, d, i))
    && KeepsPages(r0, r)
  }

  /** Every page mapped before holds what it held, and so does kernel memory other than the directory. */
  ghost predicate KeepsPages(r0: Ram, r: Ram) {
    && (forall d: nat, i: nat {:trigger Pte(r0, d, i)} | FIRST_USER <= d < ENTRIES && i < ENTRIES && Pte(r0, d, i).present
          && 0 < Pte(r0, d, i).page < FRAMES :: r[Pte(r0, d, i).page] == r0[Pte(r0, d, i).page])
    && (forall f: nat | 0 < f < LOW :: r[f] == r0[f])
  }

  // ----- One entry -----

  /** memory.c:214-237: entry i of table fd is shared into table td. */
  function CopyEntry(m: Mem, fd: nat, td: nat, i: nat): Mem
    requires fd < ENTRIES && td < ENTRIES && i < ENTRIES
    requires Dir(m.ram, fd).present && Dir(m.ram, fd).page < FRAMES
    requires Dir(m.ram, td).present && 0 < Dir(m.ram, td).page < FRAMES
    requires Pte(m.ram, fd, i).page < FRAMES
  {
    var w := Pte(m.ram, fd, i);
    if !w.present then m
    else if w.page < LOW then Mem(WritePte(m.ram, td, i, ReadOnly(w)), m.count, m.held)
    else Mem(WritePte(WritePte(m.ram, td, i, ReadOnly(w)), fd, i, ReadOnly(w)),
             m.count[w.page - LOW := m.Count(w.page) + 1], m.held)
  }

  /** The two tables of one round of the outer loop. */
  ghost predicate Pair(m: Mem, fd: nat, td: nat) {
    && FIRST_USER <= td < ENTRIES && fd < ENTRIES && fd != td
    && (fd == 0 || (FIRST_USER <= fd && fd % 16 == td % 16))
    && Dir(m.ram, fd).present && Dir(m.ram, td).present
  }

  lemma CopyEntryInRange(m: Mem, high: nat, fd: nat, td: nat, i: nat)
    requires Inv(m, high) && Pair(m, fd, td) && i < if fd == 0 then 160 else ENTRIES
    ensures Dir(m.ram, fd).page < FRAMES && LOW <= Dir(m.ram, td).page < FRAMES
    ensures Pte(m.ram, fd, i).present ==> Pte(m.ram, fd, i).page < FRAMES && (fd == 0 ==> Pte(m.ram, fd, i).page < LOW)
  {
    assert fd == 0 ==> m.ram[1][i].page < LOW;
  }

  /** Sharing one entry keeps the invariant, and the byte counter stays below 64. */
  lemma CopyEntryStep(m: Mem, high: nat, fd: nat, td: nat, i: nat)
    requires Inv(m, high) && Pair(m, fd, td) && i < if fd == 0 then 160 else ENTRIES
    requires !Pte(m.ram, td, i).present && Pte(m.ram, fd, i).present
    ensures Dir(m.ram, fd).page < FRAMES && 0 < Dir(m.ram, td).page < FRAMES && Pte(m.ram, fd, i).page < FRAMES
    ensures var m' := CopyEntry(m, fd, td, i);
      && Inv(m', high)
      && (LOW <= Pte(m.ram, fd, i).page ==> m'.Count(Pte(m.ram, fd, i).page) <= 63)
      && EntryCopied(m, m', fd, td, i)
  {
    CopyEntryInRange(m, high, fd, td, i);
    var w := Pte(m.ram, fd, i);
    if w.page < LOW {
      CopyLowEntryStep(m, high, fd, td, i);
    } else {
      ShareEntryStep(m, high, fd, td, i);
    }
  }

  ghost predicate EntryCopied(m: Mem, m': Mem, fd: nat, td: nat, i: nat)
    requires fd < ENTRIES && td < ENTRIES && i < ENTRIES
  {
    && (forall d: nat | d < ENTRIES :: Dir(m'.ram, d) == Dir(m.ram, d))
    && (forall d: nat, j: nat {:trigger Pte(m'.ram, d, j)} | FIRST_USER <= d < ENTRIES && j < ENTRIES ::
          Pte(m'.ram, d, j) == if d == td && j == i then ChildEntry(Pte(m.ram, fd, i))
                               else if d == fd && j == i then ParentEntry(Pte(m.ram, fd, i))
                               else Pte(m.ram, d, j))
    && KeepsPages(m.ram, m'.ram)
  }

  lemma CopyLowEntryStep(m: Mem, high: nat, fd: nat, td: nat, i: nat)
    requires Inv(m, high) && Pair(m, fd, td) && i < if fd == 0 then 160 else ENTRIES
    requires !Pte(m.ram, td, i).present && Pte(m.ram, fd, i).present && Pte(m.ram, fd, i).page < LOW
    ensures Dir(m.ram, fd).page < FRAMES && 0 < Dir(m.ram, td).page < FRAMES
    ensures Inv(CopyEntry(m, fd, td, i), high) && EntryCopied(m, CopyEntry(m, fd, td, i), fd, td, i)
  {
    CopyEntryInRange(m, high, fd, td, i);
    var w := ReadOnly(Pte(m.ram, fd, i));
    var m' := CopyEntry(m, fd, td, i);
    LowMayInstall(m, high, td, i, w);
    PteStep(m, m', high, td, i, w);
    WritePteFrame(m, high, td, i, w);
    TablesKeepPages(m, high, td, i, w);
  }

  lemma LowMayInstall(m: Mem, high: nat, d: nat, i: nat, w: Word)
    requires Inv(m, high) && FIRST_USER <= d < ENTRIES && i < ENTRIES
    requires w.present && !w.writable && w.page < LOW
    ensures MayInstall(m, high, d, i, w)
  {
  }

  lemma TablesKeepPages(m: Mem, high: nat, d: nat, i: nat, w: Word)
    requires Inv(m, high) && FIRST_USER <= d < ENTRIES && i < ENTRIES && Dir(m.ram, d).present
    ensures KeepsPages(m.ram, WritePte(m.ram, d, i, w))
  {
  }

  lemma ShareEntryStep(m: Mem, high: nat, fd: nat, td: nat, i: nat)
    requires Inv(m, high) && Pair(m, fd, td) && FIRST_USER <= fd && i < ENTRIES
    requires !Pte(m.ram, td, i).present && Pte(m.ram, fd, i).present && LOW <= Pte(m.ram, fd, i).page
    ensures Dir(m.ram, fd).page < FRAMES && 0 < Dir(m.ram, td).page < FRAMES && Pte(m.ram, fd, i).page < FRAMES
    ensures var m' := CopyEntry(m, fd, td, i);
      && Inv(m', high) && m'.Count(Pte(m.ram, fd, i).page) <= 63 && EntryCopied(m, m', fd, td, i)
  {
    hide Inv;
    CopyEntryInRange(m, high, fd, td, i);
    var w := ReadOnly(Pte(m.ram, fd, i));
    var m1 := Mem(WritePte(m.ram, fd, i, w), m.count, m.held);
    ProtectStep(m, high, fd, i);
    CopyEntryInRange(m1, high, fd, td, i);
    var m2 := Mem(WritePte(m1.ram, td, i, w), m.count[w.page - LOW := m.Count(w.page) + 1], m.held);
    ShareReadOnlyStep(m1, m2, high, fd, td, i);
    TablesDistinct(m, high, fd, td);
    assert m2.ram == CopyEntry(m, fd, td, i).ram;
    KeepsPagesTrans(m.ram, m1.ram, m2.ram);
    AtMostOnePerSlot(m2, high, w.page);
    assert (td, i) in PteRefs(m2.ram, w.page);
  }

  lemma KeepsPagesTrans(r0: Ram, r1: Ram, r2: Ram)
    requires KeepsPages(r0, r1) && KeepsPages(r1, r2)
    requires forall d: nat, i: nat {:trigger Pte(r1, d, i)} | FIRST_USER <= d < ENTRIES && i < ENTRIES && Pte(r0, d, i).present ::
               Pte(r1, d, i).present && Pte(r1, d, i).page == Pte(r0, d, i).page
    ensures KeepsPages(r0, r2)
  {
    forall d: nat, i: nat | FIRST_USER <= d < ENTRIES && i < ENTRIES && Pte(r0, d, i).present && 0 < Pte(r0, d, i).page < FRAMES
      ensures r2[Pte(r0, d, i).page] == r0[Pte(r0, d, i).page]
    {
      assert Pte(r1, d, i).present && Pte(r1, d, i).page == Pte(r0, d, i).page;
    }
  }

  lemma TablesDistinct(m: Mem, high: nat, d: nat, d': nat)
    requires Inv(m, high) && FIRST_USER <= d < ENTRIES && FIRST_USER <= d' < ENTRIES && d != d'
    requires Dir(m.ram, d).present && Dir(m.ram, d').present
    ensures Dir(m.ram, d).page != Dir(m.ram, d').page
  {
  }

  /** Taking write access away from an entry (memory.c:220, 233 and 402). */
  lemma ProtectStep(m: Mem, high: nat, d: nat, i: nat)
    requires Inv(m, high) && FIRST_USER <= d < ENTRIES && i < ENTRIES && Dir(m.ram, d).present
    requires Pte(m.ram, d, i).present && LOW <= Pte(m.ram, d, i).page
    ensures Dir(m.ram, d).page < FRAMES
    ensures var r := WritePte(m.ram, d, i, ReadOnly(Pte(m.ram, d, i)));
      && Inv(Mem(r, m.count, m.held), high)
      && (forall d': nat | d' < ENTRIES :: Dir(r, d') == Dir(m.ram, d'))
      && (forall d': nat, i': nat {:trigger Pte(r, d', i')} | FIRST_USER <= d' < ENTRIES && i' < ENTRIES ::
            Pte(r, d', i') == if d' == d && i' == i then ReadOnly(Pte(m.ram, d, i)) else Pte(m.ram, d', i'))
      && KeepsPages(m.ram, r)
      && (forall d': nat, i': nat {:trigger Pte(r, d', i')} | FIRST_USER <= d' < ENTRIES && i' < ENTRIES
            && Pte(r, d', i').present && Pte(r, d', i').page == Pte(m.ram, d, i).page :: !Pte(r, d', i').writable)
  {
    var w := ReadOnly(Pte(m.ram, d, i));
    MappedIsNotTable(m, high, d, i);
    var m' := Mem(WritePte(m.ram, d, i, w), m.count, m.held);
    WritePteFrame(m, high, d, i, w);
    TablesKeepPages(m, high, d, i, w);
    PteStep(m, m', high, d, i, w);
  }

  /** A page all of whose mappings are read only gains one more of them, and one more reference. */
  lemma ShareReadOnlyStep(m: Mem, m': Mem, high: nat, fd: nat, td: nat, i: nat)
    requires Inv(m, high) && Pair(m, fd, td) && FIRST_USER <= fd && i < ENTRIES
    requires Dir(m.ram, td).page < FRAMES
    requires !Pte(m.ram, td, i).present && Pte(m.ram, fd, i).present && LOW <= Pte(m.ram, fd, i).page < FRAMES
    requires forall d': nat, i': nat {:trigger Pte(m.ram, d', i')} | FIRST_USER <= d' < ENTRIES && i' < ENTRIES
            && Pte(m.ram, d', i').present && Pte(m.ram, d', i').page == Pte(m.ram, fd, i).page :: !Pte(m.ram, d', i').writable
    requires var w := Pte(m.ram, fd, i);
      m' == Mem(WritePte(m.ram, td, i, w), m.count[w.page - LOW := m.Count(w.page) + 1], m.held)
    ensures Inv(m', high)
    ensures forall d: nat | d < ENTRIES :: Dir(m'.ram, d) == Dir(m.ram, d)
    ensures forall d': nat, i': nat {:trigger Pte(m'.ram, d', i')} | FIRST_USER <= d' < ENTRIES && i' < ENTRIES ::
              Pte(m'.ram, d', i') == if d' == td && i' == i then Pte(m.ram, fd, i) else Pte(m.ram, d', i')
    ensures KeepsPages(m.ram, m'.ram)
  {
    var w := Pte(m.ram, fd, i);
    MappedIsNotTable(m, high, fd, i);
    WritePteFrame(m, high, td, i, w);
    TablesKeepPages(m, high, td, i, w);
    PteStep(m, m', high, td, i, w);
  }

  // ----- The loops -----

  /** The directory entries copy_page_tables is asked to copy (memory.c:178, 191-193, 212). */
  predicate Ranges(from: nat, to: nat, n: nat) {
    && (from == 0 ==> n <= 1)
    && (from != 0 ==> FIRST_USER <= from) && from + n <= ENTRIES
    && FIRST_USER <= to && to + n <= ENTRIES
    && from % 16 == 0 == to % 16 && n <= 16 && from != to
  }

  function EntriesPerTable(from: nat): nat {
    if from == 0 then 160 else ENTRIES
  }

  lemma CopyStarts(r0: Ram, from: nat, to: nat, n: nat)
    requires Ranges(from, to, n)
    requires forall d: nat | to <= d < to + n :: !Dir(r0, d).present
    ensures CopiedUpTo(r0, r0, from, to, n, 0, 0, EntriesPerTable(from))
  {
  }

  /** The inner loop: one more entry. */
  lemma CopyNextEntry(r0: Ram, m: Mem, m': Mem, from: nat, to: nat, n: nat, k: nat, i: nat)
    requires Ranges(from, to, n) && k < n && i < EntriesPerTable(from)
    requires CopiedUpTo(r0, m.ram, from, to, n, k, i, EntriesPerTable(from))
    requires forall d: nat | to <= d < to + n :: !Dir(r0, d).present
    requires from == 0 ==> m.ram[1] == r0[1] && Dir(r0, 0).present && Dir(r0, 0).page == 1 && r0[1][i].page < LOW
    requires EntryCopied(m, m', from + k, to + k, i) || (m' == m && !Pte(m.ram, from + k, i).present)
    ensures CopiedUpTo(r0, m'.ram, from, to, n, k, i + 1, EntriesPerTable(from))
  {
    var nr := EntriesPerTable(from);
    forall d: nat, j: nat | FIRST_USER <= d < ENTRIES && j < ENTRIES
      ensures Pte(m'.ram, d, j) ==
            if from <= d < from + n && Done(d - from, j, k, i + 1, nr) then ParentEntry(Pte(r0, d, j))
            else if to <= d < to + n && Done(d - to, j, k, i + 1, nr) then ChildEntry(Pte(r0, d - to + from, j))
            else Pte(r0, d, j)
    {
      CopyNextEntryAt(r0, m, m', from, to, n, k, i, d, j);
    }
    CopiedKeepsPresent(r0, m.ram, from, to, n, k, i);
    KeepsPagesTrans(r0, m.ram, m'.ram);
  }

  /** An entry the parent had is still there, for the same page. */
  lemma CopiedKeepsPresent(r0: Ram, r: Ram, from: nat, to: nat, n: nat, k: nat, i: nat)
    requires Ranges(from, to, n) && CopiedUpTo(r0, r, from, to, n, k, i, EntriesPerTable(from))
    requires forall d: nat | to <= d < to + n :: !Dir(r0, d).present
    ensures forall d: nat, j: nat {:trigger Pte(r, d, j)} | FIRST_USER <= d < ENTRIES && j < ENTRIES && Pte(r0, d, j).present ::
              Pte(r, d, j).present && Pte(r, d, j).page == Pte(r0, d, j).page
  {
    var nr := EntriesPerTable(from);
    forall d: nat, j: nat | FIRST_USER <= d < ENTRIES && j < ENTRIES && Pte(r0, d, j).present
      ensures Pte(r, d, j).present && Pte(r, d, j).page == Pte(r0, d, j).page
    {
      CopiedPte(r0, r, from, to, n, k, i, nr, d, j);
    }
  }

  lemma CopyNextEntryAt(r0: Ram, m: Mem, m': Mem, from: nat, to: nat, n: nat, k: nat, i: nat, d: nat, j: nat)
    requires Ranges(from, to, n) && k < n && i < EntriesPerTable(from)
    requires CopiedUpTo(r0, m.ram, from, to, n, k, i, EntriesPerTable(from))
    requires from == 0 ==> m.ram[1] == r0[1] && Dir(r0, 0).present && Dir(r0, 0).page == 1 && r0[1][i].page < LOW
    requires EntryCopied(m, m', from + k, to + k, i) || (m' == m && !Pte(m.ram, from + k, i).present)
    requires FIRST_USER <= d < ENTRIES && j < ENTRIES
    requires forall d: nat | to <= d < to + n :: !Dir(r0, d).present
    ensures Pte(m'.ram, d, j) ==
            if from <= d < from + n && Done(d - from, j, k, i + 1, EntriesPerTable(from)) then ParentEntry(Pte(r0, d, j))
            else if to <= d < to + n && Done(d - to, j, k, i + 1, EntriesPerTable(from)) then ChildEntry(Pte(r0, d - to + from, j))
            else Pte(r0, d, j)
  {
    hide EntryCopied;
    var nr := EntriesPerTable(from);
    CopiedPte(r0, m.ram, from, to, n, k, i, nr, d, j);
    CopiedNotYet(r0, m.ram, from, to, n, k, i);
    hide CopiedUpTo, Pte, ParentEntry, ChildEntry;
    if EntryCopied(m, m', from + k, to + k, i) {
      EntryPte(m, m', from + k, to + k, i, d, j);
    }
    DoneNext(d - from, j, k, i, nr);
    DoneNext(d - to, j, k, i, nr);
    hide Done, Dir;
    AbsentEntries(Pte(r0, from + k, i));
    if j == i && (d == from + k || d == to + k) {
      FarApart(from, to, n, k);
    } else {
      assert Pte(m'.ram, d, j) == Pte(m.ram, d, j);
    }
  }

  /** A directory entry of the parent's range is not one of the child's. */
  lemma FarApart(from: nat, to: nat, n: nat, k: nat)
    requires Ranges(from, to, n) && k < n
    ensures !(from <= to + k < from + n) && !(to <= from + k < to + n)
  {
  }

  /** An entry that is not there is copied as one that is not there. */
  lemma AbsentEntries(w: Word)
    ensures !w.present ==> ParentEntry(w) == w && ChildEntry(w) == ZERO
  {
  }

  lemma DoneNext(k0: int, j: nat, k: nat, i: nat, nr: nat)
    requires i < nr
    ensures Done(k0, j, k, i + 1, nr) <==> Done(k0, j, k, i, nr) || (k0 == k && j == i)
    ensures !Done(k, i, k, i, nr)
  {
  }

  /** The entry the loops stand at is as it was, on both sides. */
  lemma CopiedNotYet(r0: Ram, r: Ram, from: nat, to: nat, n: nat, k: nat, i: nat)
    requires Ranges(from, to, n) && k < n && i < EntriesPerTable(from) && CopiedUpTo(r0, r, from, to, n, k, i, EntriesPerTable(from))
    requires from == 0 ==> r[1] == r0[1] && Dir(r0, 0).present && Dir(r0, 0).page == 1
    requires forall d: nat | to <= d < to + n :: !Dir(r0, d).present
    ensures Pte(r, from + k, i) == Pte(r0, from + k, i)
    ensures forall d: nat, j: nat | to <= d < to + n && j < ENTRIES :: Pte(r0, d, j) == ZERO
  {
    if from != 0 {
      CopiedPte(r0, r, from, to, n, k, i, EntriesPerTable(from), from + k, i);
    }
  }

  lemma CopiedPte(r0: Ram, r: Ram, from: nat, to: nat, n: nat, k: nat, i: nat, nr: nat, d: nat, j: nat)
    requires from + n <= ENTRIES && to + n <= ENTRIES && nr <= ENTRIES && CopiedUpTo(r0, r, from, to, n, k, i, nr)
    requires FIRST_USER <= d < ENTRIES && j < ENTRIES
    ensures Pte(r, d, j) ==
            if from <= d < from + n && Done(d - from, j, k, i, nr) then ParentEntry(Pte(r0, d, j))
            else if to <= d < to + n && Done(d - to, j, k, i, nr) then ChildEntry(Pte(r0, d - to + from, j))
            else Pte(r0, d, j)
  {
  }

  lemma EntryPte(m: Mem, m': Mem, fd: nat, td: nat, i: nat, d: nat, j: nat)
    requires fd < ENTRIES && td < ENTRIES && i < ENTRIES && EntryCopied(m, m', fd, td, i) && FIRST_USER <= d < ENTRIES && j < ENTRIES
    ensures Pte(m'.ram, d, j) ==
            if d == td && j == i then ChildEntry(Pte(m.ram, fd, i))
            else if d == fd && j == i then ParentEntry(Pte(m.ram, fd, i))
            else Pte(m.ram, d, j)
  {
  }

  /** The outer loop: the k-th table is finished, or there was none to copy. */
  lemma CopyNextTable(r0: Ram, r: Ram, from: nat, to: nat, n: nat, k: nat, i: nat)
    requires Ranges(from, to, n) && k < n && CopiedUpTo(r0, r, from, to, n, k, i, EntriesPerTable(from))
    requires i == EntriesPerTable(from) || !Dir(r0, from + k).present
    requires forall d: nat | to <= d < to + n :: !Dir(r0, d).present
    ensures CopiedUpTo(r0, r, from, to, n, k + 1, 0, EntriesPerTable(from))
  {
    var nr := EntriesPerTable(from);
    forall d: nat, j: nat | FIRST_USER <= d < ENTRIES && j < ENTRIES
      ensures Pte(r, d, j) ==
            if from <= d < from + n && Done(d - from, j, k + 1, 0, nr) then ParentEntry(Pte(r0, d, j))
            else if to <= d < to + n && Done(d - to, j, k + 1, 0, nr) then ChildEntry(Pte(r0, d - to + from, j))
            else Pte(r0, d, j)
    {
      if !Dir(r0, from + k).present {
        assert Pte(r0, from + k, j) == ZERO;
      }
    }
  }

  /** A page is allocated and linked in as the child's next table. */
  lemma CopyNewTable(r0: Ram, r1: Ram, r: Ram, from: nat, to: nat, n: nat, k: nat, f: nat)
    requires Ranges(from, to, n) && k < n && CopiedUpTo(r0, r1, from, to, n, k, 0, EntriesPerTable(from))
    requires forall d: nat | to <= d < to + n :: !Dir(r0, d).present
    requires forall d: nat | to + k <= d < to + n :: !Dir(r1, d).present
    requires LOW <= f < FRAMES && r == WriteDir(r1[f := ZERO_FRAME], to + k, UserPage(f))
    requires forall d: nat | FIRST_USER <= d < ENTRIES && Dir(r1, d).present :: LOW <= Dir(r1, d).page != f
    requires forall d: nat, i: nat {:trigger Pte(r1, d, i)} | FIRST_USER <= d < ENTRIES && i < ENTRIES && Pte(r1, d, i).present ::
               Pte(r1, d, i).page != f
    requires Dir(r0, 0).present && Dir(r0, 0).page == 1
    ensures CopiedUpTo(r0, r, from, to, n, k, 0, EntriesPerTable(from))
  {
    forall d: nat | d < ENTRIES ensures Dir(r, d) == if d == to + k then UserPage(f) else Dir(r1, d) {
    }
    forall d: nat, j: nat | FIRST_USER <= d < ENTRIES && j < ENTRIES ensures Pte(r, d, j) == Pte(r1, d, j) {
      if d == to + k {
        assert r[f] == ZERO_FRAME && ZERO_FRAME[j] == ZERO;
        assert Pte(r, d, j) == r[f][j];
      } else if Dir(r1, d).present {
        assert Dir(r, d) == Dir(r1, d);
      }
    }
    CopiedKeepsPresent(r0, r1, from, to, n, k, 0);
    KeepsPagesTrans(r0, r1, r);
  }

  /** Where the parent has one of its first k tables, the child has one too. */
  ghost predicate TablesCopied(r0: Ram, r: Ram, from: nat, to: nat, k: nat)
    requires from + k <= ENTRIES && to + k <= ENTRIES
  {
    forall d: nat | from <= d < from + k && Dir(r0, d).present :: Dir(r, d - from + to).present
  }

  ghost predicate SameDirs(r0: Ram, r: Ram, but: nat) {
    forall d: nat | d < ENTRIES && d != but :: Dir(r, d) == Dir(r0, d)
  }

  lemma NoTablesCopied(r: Ram, from: nat, to: nat)
    requires from <= ENTRIES && to <= ENTRIES
    ensures TablesCopied(r, r, from, to, 0)
  {
  }

  lemma SameDirsRefl(r: Ram, but: nat)
    ensures SameDirs(r, r, but)
  {
  }

  lemma SameDirsTrans(r0: Ram, r1: Ram, r: Ram, but: nat)
    requires SameDirs(r0, r1, but) && SameDirs(r1, r, but)
    ensures SameDirs(r0, r, but)
  {
  }

  lemma CopiedSameDirs(m: Mem, m': Mem, fd: nat, td: nat, i: nat)
    requires fd < ENTRIES && td < ENTRIES && i < ENTRIES && EntryCopied(m, m', fd, td, i)
    ensures SameDirs(m.ram, m'.ram, td)
  {
  }

  lemma TablesCopiedNext(r0: Ram, r1: Ram, r: Ram, from: nat, to: nat, k: nat)
    requires from + k < ENTRIES && to + k < ENTRIES && TablesCopied(r0, r1, from, to, k) && SameDirs(r1, r, to + k)
    requires Dir(r0, from + k).present ==> Dir(r, to + k).present
    ensures TablesCopied(r0, r, from, to, k + 1)
  {
    forall d: nat | from <= d < from + k + 1 && Dir(r0, d).present ensures Dir(r, d - from + to).present {
      if d < from + k {
        assert Dir(r1, d - from + to).present;
      }
    }
  }

  /** What the loops read off the relation. */
  lemma CopiedDirs(r0: Ram, r: Ram, from: nat, to: nat, n: nat, k: nat, i: nat)
    requires Ranges(from, to, n) && CopiedUpTo(r0, r, from, to, n, k, i, EntriesPerTable(from))
    ensures forall d: nat | d < ENTRIES && !(to <= d < to + n) :: Dir(r, d) == Dir(r0, d)
    ensures forall d: nat | to + k < d < to + n :: !Dir(r, d).present
    ensures forall j: nat {:trigger Dir(r, from + j)} | j < n :: Dir(r, from + j) == Dir(r0, from + j)
    ensures r[1] == r0[1]
  {
  }

  lemma CopiedAt(r0: Ram, r: Ram, from: nat, to: nat, n: nat, k: nat, i: nat)
    requires Ranges(from, to, n) && k < n && i < EntriesPerTable(from)
    requires CopiedUpTo(r0, r, from, to, n, k, i, EntriesPerTable(from))
    requires forall d: nat | to <= d < to + n :: !Dir(r0, d).present
    ensures r[1] == r0[1] && Dir(r, from + k) == Dir(r0, from + k)
    ensures !Pte(r, to + k, i).present
  {
    assert Pte(r, to + k, i) == Pte(r0, to + k, i) == ZERO;
  }

  lemma RangesPair(m: Mem, from: nat, to: nat, n: nat, k: nat)
    requires Ranges(from, to, n) && k < n && Dir(m.ram, from + k).present && Dir(m.ram, to + k).present
    ensures Pair(m, from + k, to + k)
  {
  }
}
