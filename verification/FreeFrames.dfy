/** How much memory is left, and how many page tables a range of directory entries names. */
module FreeFrames {
  import opened PageTables
  import opened Sets

  /** The frames whose byte in memory_map[] is zero. */
  ghost function Unused(count: Counts): set<nat> {
    set k: nat | k < TOTAL_PAGES && count[k] == 0
  }

  ghost function FreeCount(count: Counts): nat {
    |Unused(count)|
  }

  ghost function TablesIn(r: Ram, d: nat, n: nat): set<nat> {
    set e: nat | d <= e < d + n && e < ENTRIES && Dir(r, e).present
  }

  /** How many of the n directory entries from d on name a page table. */
  ghost function TableCount(r: Ram, d: nat, n: nat): nat {
    |TablesIn(r, d, n)|
  }

  lemma FrameTaken(count: Counts, k: nat, x: nat)
    requires k < TOTAL_PAGES && count[k] == 0 && x > 0
    ensures FreeCount(count[k := x]) == FreeCount(count) - 1 && FreeCount(count) > 0
  {
    CardDifferAtOne(Unused(count), Unused(count[k := x]), k);
  }

  /** A count that stays positive leaves as many frames free. */
  lemma SameFree(count: Counts, count': Counts)
    requires forall k: nat | k < TOTAL_PAGES :: count[k] == 0 <==> count'[k] == 0
    ensures FreeCount(count') == FreeCount(count)
  {
    assert Unused(count') == Unused(count);
  }

  lemma NoneFree(count: Counts)
    ensures FreeCount(count) == 0 <==> forall k: nat | k < TOTAL_PAGES :: count[k] > 0
  {
    if FreeCount(count) == 0 {
      forall k: nat | k < TOTAL_PAGES ensures count[k] > 0 {
        assert k !in Unused(count);
      }
    } else {
      var k :| k in Unused(count);
    }
  }

  /** The frames from start on are free and no others. */
  lemma {:induction false} FreeRange(count: Counts, start: nat, end: nat)
    requires start <= end <= TOTAL_PAGES
    requires forall k: nat | k < TOTAL_PAGES :: count[k] == 0 <==> start <= k < end
    ensures FreeCount(count) == end - start
    decreases end - start
  {
    if start == end {
      assert Unused(count) == {};
    } else {
      FreeRange(count[start := 1], start + 1, end);
      FrameTaken(count, start, 1);
    }
  }

  lemma NoTables(r: Ram, d: nat)
    ensures TableCount(r, d, 0) == 0
  {
    assert TablesIn(r, d, 0) == {};
  }

  lemma OneMoreEntry(r: Ram, d: nat, n: nat)
    requires d + n < ENTRIES
    ensures TableCount(r, d, n + 1) == TableCount(r, d, n) + if Dir(r, d + n).present then 1 else 0
  {
    CardDifferAtOne(TablesIn(r, d, n), TablesIn(r, d, n + 1), d + n);
  }

  lemma FewerTables(r: Ram, d: nat, n: nat, n': nat)
    requires n <= n'
    ensures TableCount(r, d, n) <= TableCount(r, d, n')
  {
    SubsetCard(TablesIn(r, d, n), TablesIn(r, d, n'));
  }

  lemma AtMostOneEach(r: Ram, d: nat, n: nat)
    requires d + n <= ENTRIES
    ensures TableCount(r, d, n) <= n
  {
    if n == 0 {
      NoTables(r, d);
    } else {
      OneMoreEntry(r, d, n - 1);
      AtMostOneEach(r, d, n - 1);
    }
  }

  lemma SameTableCount(r: Ram, r': Ram, d: nat, n: nat)
    requires forall e: nat | e < ENTRIES :: Dir(r', e).present == Dir(r, e).present
    ensures TableCount(r', d, n) == TableCount(r, d, n)
  {
    assert TablesIn(r', d, n) == TablesIn(r, d, n);
  }
}
