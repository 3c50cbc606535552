/**
  What the page-table relations mean for whole address spaces: task slot s owns directory entries
  16*s .. 16*s+15, and sees page (d, i) through its entry.
*/
module AddressSpaces {
  import opened PageWord
  import opened PageTables
  import opened Fork
  import opened Faults

  /** Page (d, i) is mapped as it was, apart from write access, and shows what it showed, unless that is the directory itself. */
  predicate SameSight(r0: Ram, r: Ram, d: nat, i: nat)
    requires d < ENTRIES && i < ENTRIES
  {
    ReadOnly(Pte(r, d, i)) == ReadOnly(Pte(r0, d, i)) && (!ShowsDirectory(r0, d, i) ==> ViewOf(r, d, i) == ViewOf(r0, d, i))
  }

  /** Every task other than s sees what it saw. */
  ghost predicate OthersSee(r0: Ram, r: Ram, s: nat) {
    forall d: nat, i: nat {:trigger SameSight(r0, r, d, i)} {:trigger ViewOf(r, d, i)}
      | FIRST_USER <= d < ENTRIES && i < ENTRIES && d / 16 != s :: SameSight(r0, r, d, i)
  }

  /** Nobody sees any difference. */
  ghost predicate AllSee(r0: Ram, r: Ram) {
    forall d: nat, i: nat {:trigger SameSight(r0, r, d, i)} {:trigger ViewOf(r, d, i)}
      | FIRST_USER <= d < ENTRIES && i < ENTRIES :: SameSight(r0, r, d, i)
  }

  /** Nobody sees any difference but at entry (d, i). */
  ghost predicate AllSeeBut(r0: Ram, r: Ram, d: nat, i: nat) {
    forall d': nat, i': nat {:trigger SameSight(r0, r, d', i')} {:trigger ViewOf(r, d', i')}
      | FIRST_USER <= d' < ENTRIES && i' < ENTRIES && (d' != d || i' != i) :: SameSight(r0, r, d', i')
  }

  lemma AllButMeansOthersSee(r0: Ram, r: Ram, d: nat, i: nat)
    requires AllSeeBut(r0, r, d, i)
    ensures OthersSee(r0, r, d / 16)
  {
  }

  lemma AllThenOthersSee(r0: Ram, r1: Ram, r2: Ram, s: nat)
    requires AllSee(r0, r1) && OthersSee(r1, r2, s)
    ensures OthersSee(r0, r2, s)
  {
    forall d: nat, i: nat | FIRST_USER <= d < ENTRIES && i < ENTRIES && d / 16 != s ensures SameSight(r0, r2, d, i) {
      assert SameSight(r0, r1, d, i) && SameSight(r1, r2, d, i);
    }
  }

  lemma OthersSeeTrans(r0: Ram, r1: Ram, r2: Ram, s: nat)
    requires OthersSee(r0, r1, s) && OthersSee(r1, r2, s)
    ensures OthersSee(r0, r2, s)
  {
    forall d: nat, i: nat | FIRST_USER <= d < ENTRIES && i < ENTRIES && d / 16 != s ensures SameSight(r0, r2, d, i) {
      assert SameSight(r0, r1, d, i) && SameSight(r1, r2, d, i);
    }
  }

  lemma SameButMeansAllSeeBut(r0: Ram, r: Ram, d: nat, i: nat)
    requires SameBut(r0, r, d, i)
    ensures AllSeeBut(r0, r, d, i) && OthersSee(r0, r, d / 16)
  {
    forall d': nat, i': nat | FIRST_USER <= d' < ENTRIES && i' < ENTRIES && (d' != d || i' != i) ensures SameSight(r0, r, d', i') {
      assert Pte(r, d', i') == Pte(r0, d', i');
    }
    AllButMeansOthersSee(r0, r, d, i);
  }

  lemma SharedMeansAllSeeBut(r0: Ram, r: Ram, fd: nat, td: nat, i: nat)
    requires FIRST_USER <= fd < ENTRIES && FIRST_USER <= td < ENTRIES && i < ENTRIES && fd != td
    requires SharedBetween(r0, r, fd, td, i)
    requires Pte(r, fd, i) == ReadOnly(Pte(r0, fd, i)) && Pte(r0, fd, i).page != 0
    ensures forall d: nat | d < ENTRIES && d != td :: Dir(r, d) == Dir(r0, d)
    ensures AllSeeBut(r0, r, td, i) && OthersSee(r0, r, td / 16)
    ensures ViewOf(r, td, i) == ViewOf(r0, fd, i)
  {
    forall d: nat, j: nat | FIRST_USER <= d < ENTRIES && j < ENTRIES && (d != td || j != i) ensures SameSight(r0, r, d, j) {
      if d == fd && j == i {
        assert ViewOf(r, fd, i) == ViewOf(r0, fd, i);
      } else {
        assert Pte(r, d, j) == Pte(r0, d, j);
      }
    }
    AllButMeansOthersSee(r0, r, td, i);
  }

  ghost predicate Empty(r: Ram, s: nat, from: nat)
    requires s < 64
  {
    forall d: nat | 16 * s + from <= d < 16 * s + 16 :: !Dir(r, d).present
  }

  /** What task slot s sees at page i of its k-th 4MB. */
  function SlotView(r: Ram, s: nat, k: nat, i: nat): View
    requires s < 64 && k < 16 && i < ENTRIES
  {
    ViewOf(r, 16 * s + k, i)
  }

  function SlotPte(r: Ram, s: nat, k: nat, i: nat): Word
    requires s < 64 && k < 16 && i < ENTRIES
  {
    Pte(r, 16 * s + k, i)
  }

  /** After fork, the child has the parent's pages, read only, and sees at each place what the parent saw there. */
  ghost predicate ChildSees(r0: Ram, r: Ram, parent: nat, child: nat)
    requires parent < 64 && child < 64
  {
    && (forall k: nat, i: nat {:trigger SlotView(r, child, k, i)}
      | k < 16 && i < ENTRIES && (parent == 0 ==> k == 0 && i < 160) && !ShowsDirectory(r0, 16 * parent + k, i) ::
          SlotView(r, child, k, i) == SlotView(r0, parent, k, i))
    && (forall k: nat, i: nat {:trigger SlotPte(r, child, k, i)}
      | k < 16 && i < ENTRIES && (parent == 0 ==> k == 0 && i < 160) ::
          SlotPte(r, child, k, i) == ChildEntry(SlotPte(r0, parent, k, i)))
  }

  lemma CopiedMeansChildSees(m0: Mem, m: Mem, high: nat, parent: nat, child: nat, n: nat)
    requires parent < 64 && 1 <= child < 64 && Ranges(16 * parent, 16 * child, n) && (parent == 0 ==> n == 1)
    requires Inv(m0, high) && Inv(m, high)
    requires Empty(m0.ram, child, 0) && (parent != 0 ==> Empty(m0.ram, parent, n))
    requires CopiedUpTo(m0.ram, m.ram, 16 * parent, 16 * child, n, n, 0, EntriesPerTable(16 * parent))
    ensures ChildSees(m0.ram, m.ram, parent, child)
    ensures OthersSee(m0.ram, m.ram, child)
    ensures Empty(m.ram, child, n)
  {
    var r0, r := m0.ram, m.ram;
    forall k: nat, i: nat | k < 16 && i < ENTRIES && (parent == 0 ==> k == 0 && i < 160)
      ensures !ShowsDirectory(r0, 16 * parent + k, i) ==> SlotView(r, child, k, i) == SlotView(r0, parent, k, i)
      ensures SlotPte(r, child, k, i) == ChildEntry(SlotPte(r0, parent, k, i))
    {
      ChildSeesAt(m0, m, high, parent, child, n, k, i);
    }
    forall d: nat, i: nat | FIRST_USER <= d < ENTRIES && i < ENTRIES && d / 16 != child ensures SameSight(r0, r, d, i)
    {
      assert Pte(r, d, i).page == Pte(r0, d, i).page && Pte(r, d, i).present == Pte(r0, d, i).present;
    }
    forall d: nat | 16 * child + n <= d < 16 * child + 16 ensures !Dir(r, d).present {
      assert Dir(r, d) == Dir(r0, d);
    }
  }

  lemma ChildSeesAt(m0: Mem, m: Mem, high: nat, parent: nat, child: nat, n: nat, k: nat, i: nat)
    requires parent < 64 && 1 <= child < 64 && Ranges(16 * parent, 16 * child, n) && (parent == 0 ==> n == 1)
    requires Inv(m0, high) && Inv(m, high) && k < 16 && i < ENTRIES && (parent == 0 ==> k == 0 && i < 160)
    requires Empty(m0.ram, child, 0) && (parent != 0 ==> Empty(m0.ram, parent, n))
    requires CopiedUpTo(m0.ram, m.ram, 16 * parent, 16 * child, n, n, 0, EntriesPerTable(16 * parent))
    ensures !ShowsDirectory(m0.ram, 16 * parent + k, i) ==> ViewOf(m.ram, 16 * child + k, i) == ViewOf(m0.ram, 16 * parent + k, i)
    ensures Pte(m.ram, 16 * child + k, i) == ChildEntry(Pte(m0.ram, 16 * parent + k, i))
  {
    var r0, r := m0.ram, m.ram;
    var w := Pte(r0, 16 * parent + k, i);
    if k < n {
      assert Pte(r, 16 * child + k, i) == ChildEntry(w);
      if parent == 0 {
        assert w == r0[1][i];
      }
    } else {
      assert !Dir(r0, 16 * child + k).present && !Dir(r0, 16 * parent + k).present;
    }
  }

  /** memory.c:236: each page the child now shares has gained exactly one reference. */
  lemma ForkCounts(m0: Mem, m: Mem, high: nat, from: nat, to: nat, n: nat, k: nat, i: nat)
    requires Ranges(from, to, n) && from != 0 && k < n && i < ENTRIES
    requires Inv(m0, high) && Inv(m, high) && m.held == m0.held
    requires forall d: nat | to <= d < to + n :: !Dir(m0.ram, d).present
    requires CopiedUpTo(m0.ram, m.ram, from, to, n, n, 0, ENTRIES)
    requires var w := Pte(m0.ram, from + k, i); w.present && LOW <= w.page
    ensures var f := Pte(m0.ram, from + k, i).page; f < FRAMES && m.Count(f) == m0.Count(f) + 1
  {
    var r0, r := m0.ram, m.ram;
    var f := Pte(r0, from + k, i).page;
    MappedIsCounted(m0, high, from + k, i);
    ForkCountsRefs(m0, m, high, from, to, n, k, i);
    assert m.Count(f) == |PteRefs(r, f)| + |DirRefs(r, f)| + m.Held(f);
    assert m0.Count(f) == |PteRefs(r0, f)| + |DirRefs(r0, f)| + m0.Held(f);
  }

  lemma ForkCountsRefs(m0: Mem, m: Mem, high: nat, from: nat, to: nat, n: nat, k: nat, i: nat)
    requires Ranges(from, to, n) && from != 0 && k < n && i < ENTRIES
    requires Inv(m0, high) && Inv(m, high)
    requires forall d: nat | to <= d < to + n :: !Dir(m0.ram, d).present
    requires CopiedUpTo(m0.ram, m.ram, from, to, n, n, 0, ENTRIES)
    requires var w := Pte(m0.ram, from + k, i); w.present && LOW <= w.page
    ensures var f := Pte(m0.ram, from + k, i).page;
      && |PteRefs(m.ram, f)| == |PteRefs(m0.ram, f)| + 1
      && DirRefs(m0.ram, f) == {} && DirRefs(m.ram, f) == {}
  {
    hide Inv, CopiedUpTo, PteRefs, DirRefs, Maps, Pte, Dir;
    var r0, r := m0.ram, m.ram;
    var f := Pte(r0, from + k, i).page;
    MappedIsNotTable(m0, high, from + k, i);
    ForkShares(m0, m, from, to, n, k, i);
    MappedIsNotTable(m, high, from + k, i);
    forall d: nat, j: nat | FIRST_USER <= d < ENTRIES && j < ENTRIES && (d != to + k || j != i) ensures Maps(r, d, j, f) == Maps(r0, d, j, f) {
      ForkMapsAt(m0, m, high, from, to, n, k, i, d, j);
    }
    RefsDifferInOne(r0, r, to + k, i, f);
  }

  /** The page is now mapped by the parent, as before, and by the child. */
  lemma ForkShares(m0: Mem, m: Mem, from: nat, to: nat, n: nat, k: nat, i: nat)
    requires Ranges(from, to, n) && from != 0 && k < n && i < ENTRIES
    requires forall d: nat | to <= d < to + n :: !Dir(m0.ram, d).present
    requires CopiedUpTo(m0.ram, m.ram, from, to, n, n, 0, ENTRIES) && Pte(m0.ram, from + k, i).present
    ensures var f := Pte(m0.ram, from + k, i).page;
      && Pte(m.ram, from + k, i).present && Pte(m.ram, from + k, i).page == f
      && Maps(m.ram, to + k, i, f) && !Maps(m0.ram, to + k, i, f)
  {
    CopiedPte(m0.ram, m.ram, from, to, n, n, 0, ENTRIES, from + k, i);
    CopiedPte(m0.ram, m.ram, from, to, n, n, 0, ENTRIES, to + k, i);
    hide CopiedUpTo;
    assert !Dir(m0.ram, to + k).present;
  }

  lemma ForkMapsAt(m0: Mem, m: Mem, high: nat, from: nat, to: nat, n: nat, k: nat, i: nat, d: nat, j: nat)
    requires Ranges(from, to, n) && from != 0 && k < n && i < ENTRIES
    requires Inv(m, high)
    requires forall d: nat | to <= d < to + n :: !Dir(m0.ram, d).present
    requires CopiedUpTo(m0.ram, m.ram, from, to, n, n, 0, ENTRIES)
    requires var w := Pte(m0.ram, from + k, i); w.present && LOW <= w.page
    requires FIRST_USER <= d < ENTRIES && j < ENTRIES && (d != to + k || j != i)
    ensures var f := Pte(m0.ram, from + k, i).page; Maps(m.ram, d, j, f) == Maps(m0.ram, d, j, f)
  {
    hide Counted, TablesOk, WritableUnshared, KernelOk;
    var f := Pte(m0.ram, from + k, i).page;
    assert Pte(m.ram, from + k, i).present && Pte(m.ram, from + k, i).page == f;
    if to <= d < to + n {
      OffsetInSlot(from, k);
      OffsetInSlot(to, d - to);
      assert Pte(m0.ram, d, j) == ZERO;
      // a mapping of f sits at one task-relative place only
      if Pte(m.ram, d, j).present {
        OnePlace(m, high, from + k, i, d, j);
      }
    } else {
      assert Pte(m.ram, d, j).present == Pte(m0.ram, d, j).present && Pte(m.ram, d, j).page == Pte(m0.ram, d, j).page;
    }
  }

  lemma OffsetInSlot(base: nat, k: nat)
    requires base % 16 == 0 && k < 16
    ensures (base + k) % 16 == k
  {
  }

  lemma OnePlace(m: Mem, high: nat, d: nat, i: nat, d': nat, i': nat)
    requires Inv(m, high) && FIRST_USER <= d < ENTRIES && i < ENTRIES && FIRST_USER <= d' < ENTRIES && i' < ENTRIES
    requires Pte(m.ram, d, i).present && Pte(m.ram, d', i').present && LOW <= Pte(m.ram, d, i).page
    ensures Pte(m.ram, d', i').page == Pte(m.ram, d, i).page ==> d % 16 == d' % 16 && i == i'
  {
  }

  /**
    A fork that ran out of memory and was rolled back: every reference count is what it was, although
    the parent's pages are now write protected (kernel/fork.c:69-73).
  */
  lemma RollbackRestoresCounts(m0: Mem, m1: Mem, m2: Mem, high: nat, parent: nat, child: nat, n: nat, k: nat)
    requires parent < 64 && 1 <= child < 64 && Ranges(16 * parent, 16 * child, n) && k <= n
    requires Inv(m0, high) && Inv(m2, high) && m2.held == m0.held
    requires Empty(m0.ram, child, 0)
    requires CopiedUpTo(m0.ram, m1.ram, 16 * parent, 16 * child, n, k, 0, EntriesPerTable(16 * parent))
    requires SameOutside(m1.ram, m2.ram, 16 * child, 16 * child + n)
    requires forall d: nat | 16 * child <= d < 16 * child + n :: !Dir(m2.ram, d).present
    ensures m2.count == m0.count && AllSee(m0.ram, m2.ram) && Empty(m2.ram, child, 0)
    ensures forall d: nat | FIRST_USER <= d < ENTRIES :: Dir(m2.ram, d).present == Dir(m0.ram, d).present
  {
    var r0, r1, r2, to := m0.ram, m1.ram, m2.ram, 16 * child;
    forall d: nat | FIRST_USER <= d < ENTRIES
      ensures Dir(r2, d).present == Dir(r0, d).present && (Dir(r0, d).present ==> Dir(r2, d) == Dir(r0, d))
    {
      if to <= d < to + n {
        assert !Dir(r0, d).present;
      } else {
        assert Dir(r2, d) == Dir(r1, d) == Dir(r0, d);
      }
    }
    forall d: nat, i: nat | FIRST_USER <= d < ENTRIES && i < ENTRIES
      ensures Pte(r2, d, i).present == Pte(r0, d, i).present && Pte(r2, d, i).page == Pte(r0, d, i).page
      ensures SameSight(r0, r2, d, i)
    {
      if to <= d < to + n {
        assert !Dir(r0, d).present && !Dir(r2, d).present;
      } else {
        assert Pte(r2, d, i) == Pte(r1, d, i);
        assert Pte(r1, d, i).page == Pte(r0, d, i).page && Pte(r1, d, i).present == Pte(r0, d, i).present;
      }
    }
    SameMappingsSameCounts(m0, m2, high);
  }

  /** The invariant leaves no freedom: equal mappings and equal kernel holdings mean equal counts. */
  lemma SameMappingsSameCounts(m: Mem, m': Mem, high: nat)
    requires Inv(m, high) && Inv(m', high) && m'.held == m.held
    requires forall d: nat | FIRST_USER <= d < ENTRIES ::
               Dir(m'.ram, d).present == Dir(m.ram, d).present && (Dir(m.ram, d).present ==> Dir(m'.ram, d) == Dir(m.ram, d))
    requires forall d: nat, i: nat {:trigger Pte(m'.ram, d, i)} | FIRST_USER <= d < ENTRIES && i < ENTRIES ::
               Pte(m'.ram, d, i).present == Pte(m.ram, d, i).present && Pte(m'.ram, d, i).page == Pte(m.ram, d, i).page
    ensures m'.count == m.count
  {
    forall f: nat | LOW <= f < FRAMES ensures m'.Count(f) == m.Count(f) {
      forall p | p in UserEntries() ensures Maps(m'.ram, p.0, p.1, f) == Maps(m.ram, p.0, p.1, f) {
        assert Pte(m'.ram, p.0, p.1).present == Pte(m.ram, p.0, p.1).present;
      }
      assert PteRefs(m'.ram, f) == PteRefs(m.ram, f);
      assert DirRefs(m'.ram, f) == DirRefs(m.ram, f);
      assert m.Count(f) == |PteRefs(m.ram, f)| + |DirRefs(m.ram, f)| + m.Held(f);
      assert m'.Count(f) == |PteRefs(m'.ram, f)| + |DirRefs(m'.ram, f)| + m'.Held(f);
    }
    forall j | 0 <= j < TOTAL_PAGES ensures m'.count[j] == m.count[j] {
      assert m'.Count(j + LOW) == m.Count(j + LOW);
    }
  }

  lemma SameOutsideMeansOthersSee(r0: Ram, r: Ram, s: nat, lo: nat, hi: nat)
    requires SameOutside(r0, r, lo, hi) && 16 * s <= lo && hi <= 16 * s + 16
    ensures OthersSee(r0, r, s)
  {
    forall d: nat, i: nat | FIRST_USER <= d < ENTRIES && i < ENTRIES && d / 16 != s ensures SameSight(r0, r, d, i)
    {
      assert Pte(r, d, i) == Pte(r0, d, i);
    }
  }
}
