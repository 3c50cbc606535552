/**
  linux-0.11/mm/memory.c: the frame allocator and the routines that build, copy, share and free page
  tables, as methods that update physical memory and memory_map[] in place.

  Addresses appear as indices: frame number (address >> 12), directory entry (address >> 22) and
  table entry ((address >> 12) & 0x3ff).
*/
module Memory {
  import opened Bytes
  import opened PageWord
  import opened PageTables
  import opened Fork
  import opened Faults
  import opened FreeFrames

  const USED: Byte := 100
  const UNUSED: Byte := 0

  /** boot/head.s: the first kernel page table maps the first 4MB onto itself. */
  const IDENTITY: Frame := seq(1024, i requires 0 <= i => UserPage(i))

  /** Before the first fork no user entry exists, so every reference is the kernel's. */
  lemma BootInv(m: Mem, high: nat)
    requires LOW <= high <= FRAMES
    requires forall d: nat | FIRST_USER <= d < ENTRIES :: !Dir(m.ram, d).present
    requires Dir(m.ram, 0).present && Dir(m.ram, 0).page == 1 && m.ram[1] == IDENTITY
    requires m.held == m.count && forall f: nat {:trigger m.Count(f)} | high <= f < FRAMES :: m.count[f - LOW] > 0
    ensures Inv(m, high)
  {
    forall f: nat | LOW <= f < FRAMES
      ensures m.Count(f) == |PteRefs(m.ram, f)| + |DirRefs(m.ram, f)| + m.Held(f)
    {
      assert PteRefs(m.ram, f) == {};
      assert DirRefs(m.ram, f) == {};
    }
  }

  /** Sharing an entry raises a count that was positive: as many frames are free as before. */
  lemma SharedFree(m: Mem, high: nat, fd: nat, td: nat, i: nat)
    requires Inv(m, high) && Pair(m, fd, td) && i < (if fd == 0 then 160 else ENTRIES) && Pte(m.ram, fd, i).present
    requires Dir(m.ram, fd).page < FRAMES && 0 < Dir(m.ram, td).page < FRAMES && Pte(m.ram, fd, i).page < FRAMES
    ensures FreeCount(CopyEntry(m, fd, td, i).count) == FreeCount(m.count)
  {
    hide Inv;
    CopyEntryInRange(m, high, fd, td, i);
    if fd != 0 {
      MappedIsCounted(m, high, fd, i);
    }
    SameFree(m.count, CopyEntry(m, fd, td, i).count);
  }

  /** Leaving a shared page for the free frame f uses up that frame. */
  lemma ReplacedFree(m: Mem, m1: Mem, high: nat, d: nat, i: nat, f: nat)
    requires Inv(m, high) && FIRST_USER <= d < ENTRIES && i < ENTRIES && Dir(m.ram, d).present && Pte(m.ram, d, i).present
    requires LOW <= f < FRAMES && m.Count(f) == 0 && m1.count == m.count[f - LOW := 1] && !Unshared(m, d, i)
    requires Dir(m1.ram, d) == Dir(m.ram, d) && Dir(m.ram, d).page < FRAMES && Pte(m1.ram, d, i) == Pte(m.ram, d, i)
    requires Pte(m.ram, d, i).page < FRAMES && Pte(m.ram, d, i).page != f
    requires LOW <= Pte(m.ram, d, i).page ==> m1.Count(Pte(m.ram, d, i).page) > 0
    ensures FreeCount(Replaced(m1, d, i, f).count) == FreeCount(m.count) - 1
  {
    hide Inv;
    MappedIsCounted(m, high, d, i);
    FrameTaken(m.count, f - LOW, 1);
    SameFree(m1.count, Replaced(m1, d, i, f).count);
  }

  class Machine {
    const high: nat                 // HIGH_MEMORY >> 12
    const ram: array<Frame>
    const memoryMap: array<Byte>
    ghost var held: Counts          // references the kernel itself holds

    ghost predicate Shaped()
    {
      ram.Length == FRAMES && memoryMap.Length == TOTAL_PAGES
    }

    ghost function Abs(): Mem
      reads this, ram, memoryMap
      requires Shaped()
    {
      Mem(ram[..], memoryMap[..], held)
    }

    ghost predicate Valid()
      reads this, ram, memoryMap
    {
      Shaped() && Inv(Abs(), high)
    }

    /**
      memory.c:479-498: memory_map[] marks every frame used except those from the end of the buffers
      to the end of memory.  The boot code has set up the directory with the kernel's identity map.
    */
    constructor (start: nat, high: nat)
      requires LOW <= start <= high <= FRAMES
      ensures Valid() && fresh(ram) && fresh(memoryMap) && this.high == high
      ensures forall d: nat | FIRST_USER <= d < ENTRIES :: !Dir(ram[..], d).present
      ensures forall j: nat | j < TOTAL_PAGES :: memoryMap[j] == if start <= j + LOW < high then UNUSED else USED
      ensures held == memoryMap[..]
    {
      this.high := high;
      ram := new Frame[FRAMES](_ => ZERO_FRAME);
      memoryMap := new Byte[TOTAL_PAGES](_ => USED);
      held := seq(TOTAL_PAGES, _ => 0);
      new;
      var i := start - LOW;
      while i < high - LOW
        invariant start - LOW <= i <= high - LOW
        invariant forall j: nat | j < TOTAL_PAGES :: memoryMap[j] == if start - LOW <= j < i then UNUSED else USED
      {
        memoryMap[i] := UNUSED;
        i := i + 1;
      }
      held := memoryMap[..];
      ram[1] := IDENTITY;
      ram[0] := ZERO_FRAME[0 := UserPage(1)];
      BootInv(Abs(), high);
    }

    // ----- The frame allocator -----

    /** memory.c:64-90: scans memory_map[] downwards for a zero byte, marks the frame and clears it. */
    method GetFreePage() returns (f: nat)
      requires Valid()
      modifies this`held, ram, memoryMap
      ensures Valid()
      ensures f == 0 ==> Abs() == old(Abs()) && forall g: nat | LOW <= g < FRAMES :: old(Abs()).Count(g) > 0
      ensures f != 0 ==> LOW <= f < high && old(Abs()).Count(f) == 0 && forall g: nat | f < g < FRAMES :: old(Abs()).Count(g) > 0
      ensures f != 0 ==> ram[..] == old(ram[..])[f := ZERO_FRAME]
      ensures f != 0 ==> memoryMap[..] == old(memoryMap[..])[f - LOW := 1] && held == old(held)[f - LOW := 1]
      ensures f == 0 <==> old(FreeCount(memoryMap[..])) == 0
      ensures f != 0 ==> FreeCount(memoryMap[..]) == old(FreeCount(memoryMap[..])) - 1
      ensures f != 0 ==> SameOutside(old(ram[..]), ram[..], 0, 0) && forall d: nat | d < ENTRIES :: Dir(ram[..], d) == Dir(old(ram[..]), d)
    {
      ghost var m := Abs();
      var k := TOTAL_PAGES;
      while k > 0 && memoryMap[k - 1] != 0
        invariant 0 <= k <= TOTAL_PAGES
        invariant forall j | k <= j < TOTAL_PAGES :: memoryMap[j] != 0
      {
        k := k - 1;
      }
      if k == 0 {
        assert forall g: nat | LOW <= g < FRAMES :: m.Count(g) == memoryMap[g - LOW] as nat;
        NoneFree(memoryMap[..]);
        return 0;
      }
      f := k - 1 + LOW;
      FrameTaken(memoryMap[..], k - 1, 1);
      assert m.Count(f) == 0;
      assert forall g: nat | LOW <= g < FRAMES :: m.Count(g) == memoryMap[g - LOW] as nat;
      FreeIsUnreferenced(m, high, f);
      AllocStep(m, high, f, ZERO_FRAME);
      memoryMap[k - 1] := 1;
      ram[f] := ZERO_FRAME;
      held := held[f - LOW := 1];
      assert Abs() == Mem(m.ram[f := ZERO_FRAME], m.count[f - LOW := 1], m.held[f - LOW := 1]);
      assert memoryMap[..] == m.count[f - LOW := 1];
    }

    /** memory.c:96-111; freeing a frame above HIGH_MEMORY or a free frame is a panic. */
    method FreePage(f: nat)
      requires Shaped() && high <= FRAMES
      requires f < LOW || (f < high && memoryMap[f - LOW] > 0)
      modifies memoryMap
      ensures f < LOW ==> memoryMap[..] == old(memoryMap[..])
      ensures LOW <= f ==> memoryMap[..] == old(memoryMap[..])[f - LOW := old(memoryMap[f - LOW]) - 1]
    {
      if f < LOW {
        return;
      }
      memoryMap[f - LOW] := memoryMap[f - LOW] - 1;
    }

    /** free_page on a frame the kernel itself holds (a task structure, a page that could not be mapped). */
    method FreeHeldPage(f: nat)
      requires Valid() && LOW <= f < high && held[f - LOW] > 0
      modifies this`held, memoryMap
      ensures Valid()
      ensures held == old(held)[f - LOW := old(held)[f - LOW] - 1]
      ensures old(memoryMap[f - LOW]) > 0 && memoryMap[..] == old(memoryMap[..])[f - LOW := old(memoryMap[f - LOW]) - 1]
    {
      hide Inv;
      ghost var m := Abs();
      KernelTable(m, high);
      assert m.Held(f) == held[f - LOW] && m.Count(f) == memoryMap[f - LOW];
      ReleaseStep(m, high, f);
      FreePage(f);
      held := held[f - LOW := held[f - LOW] - 1];
      assert Abs() == Mem(m.ram, m.count[f - LOW := m.Count(f) - 1], m.held[f - LOW := m.Held(f) - 1]);
    }

    /** memory.c:117-150 over directory entries from .. from+n-1. */
    method FreePageTables(from: nat, n: nat)
      requires Valid() && FIRST_USER <= from && from + n <= ENTRIES
      modifies ram, memoryMap
      ensures Valid()
      ensures forall d: nat | from <= d < from + n :: !Dir(ram[..], d).present
      ensures SameOutside(old(ram[..]), ram[..], from, from + n)
      ensures HeldKept(old(Abs()), Abs()) && CountsFall(old(Abs()), Abs())
      ensures forall d: nat | from <= d < from + n && Dir(old(ram[..]), d).present ::
                var t := Dir(old(ram[..]), d).page; LOW <= t < FRAMES && Abs().Count(t) == 0
    {
      hide Inv;
      hide SameOutside, HeldKept, CountsFall;
      ghost var m0 := Abs();
      SameOutsideRefl(ram[..], from, from + n);
      KeptRefl(m0);
      var d := from;
      while d < from + n
        invariant from <= d <= from + n
        invariant Valid()
        invariant forall d': nat | from <= d' < d :: !Dir(ram[..], d').present
        invariant forall d': nat | d <= d' < from + n :: Dir(ram[..], d') == Dir(m0.ram, d')
        invariant SameOutside(m0.ram, ram[..], from, from + n)
        invariant HeldKept(m0, Abs()) && CountsFall(m0, Abs())
        invariant forall d': nat | from <= d' < d && Dir(m0.ram, d').present ::
                    var t := Dir(m0.ram, d').page; LOW <= t < FRAMES && Abs().Count(t) == 0
      {
        if ram[0][d].present {
          ghost var m1 := Abs();
          FreeOneTable(d);
          SameOutsideTrans(m0.ram, m1.ram, ram[..], from, from + n, d, d + 1);
          KeptTrans(m0, m1, Abs());
          FreedStayFree(m1, Abs());
        }
        d := d + 1;
      }
    }

    /** One round of the outer loop of free_page_tables (memory.c:137-146). */
    method FreeOneTable(d: nat)
      requires Valid() && FIRST_USER <= d < ENTRIES && Dir(ram[..], d).present
      modifies ram, memoryMap
      ensures Valid() && !Dir(ram[..], d).present
      ensures forall d': nat | d' < ENTRIES && d' != d :: Dir(ram[..], d') == Dir(old(ram[..]), d')
      ensures SameOutside(old(ram[..]), ram[..], d, d + 1)
      ensures HeldKept(old(Abs()), Abs()) && CountsFall(old(Abs()), Abs())
      ensures var t := Dir(old(ram[..]), d).page; LOW <= t < FRAMES && Abs().Count(t) == 0
    {
      hide Inv;
      hide SameOutside, HeldKept, CountsFall;
      ghost var m0, r0 := Abs(), ram[..];
      KeptRefl(m0);
      SameOutsideRefl(r0, d, d + 1);
      TableInRange(Abs(), high, d);
      var t := ram[0][d].page;
      var nr := 0;
      while nr < ENTRIES
        invariant nr <= ENTRIES
        invariant Valid() && forall d': nat | d' < ENTRIES :: Dir(ram[..], d') == Dir(r0, d')
        invariant forall i: nat {:trigger Pte(ram[..], d, i)} | i < nr :: !Pte(ram[..], d, i).present
        invariant SameOutside(r0, ram[..], d, d + 1)
        invariant HeldKept(m0, Abs()) && CountsFall(m0, Abs())
      {
        ghost var m := Abs();
        UnmapStep(m, high, d, nr);
        assert Pte(m.ram, d, nr) == ram[t][nr];
        if ram[t][nr].present {
          FreePage(ram[t][nr].page);
        }
        ram[t] := ram[t][nr := ZERO];
        assert Abs() == Unmap(m, d, nr);
        KeptTrans(m0, m, Abs());
        SameOutsideTrans(r0, m.ram, ram[..], d, d + 1, d, d + 1);
        nr := nr + 1;
      }
      ghost var m := Abs();
      RemoveTableStep(m, high, d);
      assert m.Count(t) == memoryMap[t - LOW];
      FreePage(t);
      ram[0] := ram[0][d := ZERO];
      assert Abs() == Mem(WriteDir(m.ram, d, ZERO), m.count[t - LOW := 0], m.held);
      KeptTrans(m0, m, Abs());
      OnlyDirIsSameOutside(m.ram, ram[..], d);
      SameOutsideTrans(r0, m.ram, ram[..], d, d + 1, d, d + 1);
    }

    /**
      memory.c:169-244.  On failure the tables copied so far stay (the caller frees them) and the
      copied entries of the parent stay read only.
    */
    method CopyPageTables(from: nat, to: nat, n: nat) returns (ok: bool, ghost copied: nat)
      requires Valid() && Ranges(from, to, n)
      requires forall d: nat | to <= d < to + n :: !Dir(ram[..], d).present
      modifies this`held, ram, memoryMap
      ensures Valid() && held == old(held) && copied <= n && (ok ==> copied == n)
      ensures CopiedUpTo(old(ram[..]), ram[..], from, to, n, copied, 0, EntriesPerTable(from))
      ensures TablesCopied(old(ram[..]), ram[..], from, to, copied)
      ensures !ok ==> forall g: nat | LOW <= g < FRAMES :: Abs().Count(g) > 0
      ensures ok <==> TableCount(old(ram[..]), from, n) <= old(FreeCount(memoryMap[..]))
      ensures ok ==> FreeCount(memoryMap[..]) == old(FreeCount(memoryMap[..])) - TableCount(old(ram[..]), from, n)
    {
      hide Inv;
      hide CopiedUpTo, TablesCopied, SameDirs, FreeCount, TableCount;
      ghost var r0 := ram[..];
      NoTables(r0, from);
      NoTablesCopied(r0, from, to);
      CopyStarts(r0, from, to, n);
      KernelTable(Abs(), high);
      var k := 0;
      while k < n
        invariant k <= n && Valid() && held == old(held)
        invariant CopiedUpTo(r0, ram[..], from, to, n, k, 0, EntriesPerTable(from))
        invariant forall d: nat | to + k <= d < to + n :: !Dir(ram[..], d).present
        invariant TablesCopied(r0, ram[..], from, to, k)
        invariant FreeCount(memoryMap[..]) == old(FreeCount(memoryMap[..])) - TableCount(r0, from, k)
      {
        ghost var r1 := ram[..];
        OneMoreEntry(r0, from, k);
        FewerTables(r0, from, k + 1, n);
        CopiedDirs(r0, r1, from, to, n, k, 0);
        SameDirsRefl(r1, to + k);
        if ram[0][from + k].present {
          ok := LinkTable(from, to, n, k, r0);
          if !ok {
            return false, k;
          }
          ghost var r2 := ram[..];
          CopyOneTable(from, to, n, k, r0);
          SameDirsTrans(r1, r2, ram[..], to + k);
        }
        ghost var last := if Dir(r0, from + k).present then EntriesPerTable(from) else 0;
        CopiedDirs(r0, ram[..], from, to, n, k, last);
        CopyNextTable(r0, ram[..], from, to, n, k, last);
        TablesCopiedNext(r0, r1, ram[..], from, to, k);
        k := k + 1;
      }
      return true, n;
    }

    /** memory.c:201-206: a new, empty page table for the child. */
    method LinkTable(from: nat, to: nat, n: nat, k: nat, ghost r0: Ram) returns (ok: bool)
      requires Valid() && Ranges(from, to, n) && k < n
      requires forall d: nat | to <= d < to + n :: !Dir(r0, d).present
      requires forall d: nat | to + k <= d < to + n :: !Dir(ram[..], d).present
      requires CopiedUpTo(r0, ram[..], from, to, n, k, 0, EntriesPerTable(from))
      requires Dir(r0, 0).present && Dir(r0, 0).page == 1
      modifies this`held, ram, memoryMap
      ensures Valid() && held == old(held)
      ensures CopiedUpTo(r0, ram[..], from, to, n, k, 0, EntriesPerTable(from))
      ensures ok ==> Dir(ram[..], to + k).present && SameDirs(old(ram[..]), ram[..], to + k)
      ensures !ok ==> Abs() == old(Abs()) && forall g: nat | LOW <= g < FRAMES :: Abs().Count(g) > 0
      ensures ok <==> old(FreeCount(memoryMap[..])) > 0
      ensures ok ==> FreeCount(memoryMap[..]) == old(FreeCount(memoryMap[..])) - 1
    {
      hide Inv;
      hide CopiedUpTo, OnlyDirChanged, FreeCount;
      ghost var m := Abs();
      KernelTable(m, high);
      var t := GetFreePage();
      if t == 0 {
        return false;
      }
      FreeIsUnheld(m, high, t);
      UnsharedIsUnmapped(m, high, t);
      ghost var m1 := Abs();
      InstallTableStep(m1, high, to + k, t);
      ram[0] := ram[0][to + k := UserPage(t)];
      held := held[t - LOW := 0];
      assert Abs() == Mem(WriteDir(m1.ram, to + k, UserPage(t)), m1.count, m1.held[t - LOW := 0]);
      CopyNewTable(r0, m.ram, ram[..], from, to, n, k, t);
      ok := true;
    }

    /** The inner loop of copy_page_tables (memory.c:212-238). */
    method CopyOneTable(from: nat, to: nat, n: nat, k: nat, ghost r0: Ram)
      requires Valid() && Ranges(from, to, n) && k < n
      requires forall d: nat | to <= d < to + n :: !Dir(r0, d).present
      requires Dir(r0, from + k).present && Dir(ram[..], to + k).present
      requires from == 0 ==> Dir(r0, 0).page == 1 && forall i: nat {:trigger r0[1][i]} | i < 160 :: r0[1][i].page < LOW
      requires CopiedUpTo(r0, ram[..], from, to, n, k, 0, EntriesPerTable(from))
      modifies ram, memoryMap
      ensures Valid()
      ensures CopiedUpTo(r0, ram[..], from, to, n, k, EntriesPerTable(from), EntriesPerTable(from))
      ensures Dir(ram[..], to + k).present && SameDirs(old(ram[..]), ram[..], to + k)
      ensures FreeCount(memoryMap[..]) == old(FreeCount(memoryMap[..]))
    {
      hide Inv;
      hide CopiedUpTo, EntryCopied, Pair, Pte, Dir, SameDirs, FreeCount;
      var i := 0;
      SameDirsRefl(ram[..], to + k);
      CopiedDirs(r0, ram[..], from, to, n, k, 0);
      while i < EntriesPerTable(from)
        invariant i <= EntriesPerTable(from) && Valid()
        invariant CopiedUpTo(r0, ram[..], from, to, n, k, i, EntriesPerTable(from))
        invariant Dir(ram[..], from + k).present && Dir(ram[..], to + k).present && SameDirs(old(ram[..]), ram[..], to + k)
        invariant FreeCount(memoryMap[..]) == old(FreeCount(memoryMap[..]))
      {
        ghost var m := Abs();
        CopiedAt(r0, m.ram, from, to, n, k, i);
        RangesPair(m, from, to, n, k);
        CopyOneEntry(from + k, to + k, i);
        CopyNextEntry(r0, m, Abs(), from, to, n, k, i);
        SameDirsTrans(old(ram[..]), m.ram, ram[..], to + k);
        i := i + 1;
      }
    }

    /** One round of the inner loop (memory.c:214-237). */
    method CopyOneEntry(fd: nat, td: nat, i: nat)
      requires Valid() && Pair(Abs(), fd, td) && i < (if fd == 0 then 160 else ENTRIES)
      requires !Pte(ram[..], td, i).present
      modifies ram, memoryMap
      ensures Valid()
      ensures if Pte(old(ram[..]), fd, i).present then EntryCopied(old(Abs()), Abs(), fd, td, i) else Abs() == old(Abs())
      ensures Dir(ram[..], fd).present && Dir(ram[..], td).present && SameDirs(old(ram[..]), ram[..], td)
      ensures FreeCount(memoryMap[..]) == old(FreeCount(memoryMap[..]))
    {
      hide Inv;
      hide EntryCopied, SameDirs, FreeCount;
      ghost var m := Abs();
      SameDirsRefl(m.ram, td);
      CopyEntryInRange(m, high, fd, td, i);
      var fromTable, toTable := ram[0][fd].page, ram[0][td].page;
      var w := ram[fromTable][i];
      assert w == Pte(m.ram, fd, i);
      if w.present {
        CopyEntryStep(m, high, fd, td, i);
        SharedFree(m, high, fd, td, i);
        ram[toTable] := ram[toTable][i := ReadOnly(w)];
        if w.page >= LOW {
          ram[fromTable] := ram[fromTable][i := ReadOnly(w)];
          memoryMap[w.page - LOW] := memoryMap[w.page - LOW] + 1;
        }
        assert Abs() == CopyEntry(m, fd, td, i);
        CopiedSameDirs(m, Abs(), fd, td, i);
      }
    }

    /** The kernel fills a page it holds (bread_page, copy_strings). */
    method Fill(f: nat, image: Frame, ghost d: nat, ghost i: nat)
      requires Valid() && LOW <= f < high && held[f - LOW] == memoryMap[f - LOW]
      requires FIRST_USER <= d < ENTRIES && i < ENTRIES
      modifies ram
      ensures Valid() && ram[..] == old(ram[..])[f := image]
      ensures SameBut(old(ram[..]), ram[..], d, i) && ram[0] == old(ram[0])
      ensures Dir(ram[..], d) == Dir(old(ram[..]), d) && Pte(ram[..], d, i) == Pte(old(ram[..]), d, i)
    {
      hide Inv;
      hide SameBut;
      ghost var m := Abs();
      KernelTable(m, high);
      assert m.Count(f) == memoryMap[f - LOW] && m.Held(f) == held[f - LOW];
      FillStep(m, high, f, image, d, i);
      ram[f] := image;
      assert Abs() == Mem(m.ram[f := image], m.count, m.held);
    }

    // ----- Page faults -----

    /** memory.c:252-277: maps a page the kernel has just obtained; fails when a table is needed and memory is out. */
    method PutPage(page: nat, d: nat, i: nat) returns (ok: bool)
      requires Valid() && FIRST_USER <= d < ENTRIES && i < ENTRIES
      requires LOW <= page < high && held[page - LOW] == 1 == memoryMap[page - LOW]
      requires !Pte(ram[..], d, i).present
      modifies this`held, ram, memoryMap
      ensures Valid()
      ensures ok ==> Pte(ram[..], d, i) == UserPage(page) && ram[page] == old(ram[page]) && held == old(held)[page - LOW := 0]
      ensures ok ==> SameBut(old(ram[..]), ram[..], d, i) && Dir(ram[..], d).present
      ensures HeldKept(old(Abs()), Abs())
      ensures !ok ==> Abs() == old(Abs()) && forall g: nat | LOW <= g < FRAMES :: Abs().Count(g) > 0
      ensures ok <==> Dir(old(ram[..]), d).present || old(FreeCount(memoryMap[..])) > 0
      ensures ok ==> FreeCount(memoryMap[..]) == old(FreeCount(memoryMap[..])) - if Dir(old(ram[..]), d).present then 0 else 1
    {
      hide Inv;
      hide SameBut, FreeCount;
      ghost var m0 := Abs();
      KernelTable(m0, high);
      assert m0.Count(page) == memoryMap[page - LOW] && m0.Held(page) == held[page - LOW];
      SameButRefl(ram[..], d, i);
      if !ram[0][d].present {
        ok := NewTable(d, i);
        if !ok {
          return;
        }
      }
      ghost var m := Abs();
      assert m.Count(page) == 1 == m.Held(page);
      TableInRange(m, high, d);
      MapPageStep(m, high, d, i, page);
      EntryKeepsHeld(m0, m, high, d, i, UserPage(page), m.held[page - LOW := 0]);
      var t := ram[0][d].page;
      ram[t] := ram[t][i := UserPage(page)];
      held := held[page - LOW := 0];
      assert Abs() == Mem(WritePte(m.ram, d, i, UserPage(page)), m.count, m.held[page - LOW := 0]);
      SameButTrans(m0.ram, m.ram, ram[..], d, i);
      ok := true;
    }

    /** memory.c:267-270 and 391-396: an empty page table for directory entry d. */
    method NewTable(d: nat, ghost i: nat) returns (ok: bool)
      requires Valid() && FIRST_USER <= d < ENTRIES && i < ENTRIES && !Dir(ram[..], d).present
      modifies this`held, ram, memoryMap
      ensures Valid() && held == old(held)
      ensures ok ==> Dir(ram[..], d).present && SameBut(old(ram[..]), ram[..], d, i) && !Pte(ram[..], d, i).present
      ensures ok ==> HeldKept(old(Abs()), Abs())
      ensures !ok ==> Abs() == old(Abs()) && forall g: nat | LOW <= g < FRAMES :: Abs().Count(g) > 0
      ensures ok <==> old(FreeCount(memoryMap[..])) > 0
      ensures ok ==> FreeCount(memoryMap[..]) == old(FreeCount(memoryMap[..])) - 1
    {
      hide Inv;
      hide SameBut, FreeCount;
      ghost var m := Abs();
      KernelTable(m, high);
      var t := GetFreePage();
      if t == 0 {
        return false;
      }
      FreeIsUnheld(m, high, t);
      ghost var m1 := Abs();
      InstallTableStep(m1, high, d, t);
      ram[0] := ram[0][d := UserPage(t)];
      held := held[t - LOW := 0];
      assert Abs() == Mem(WriteDir(m1.ram, d, UserPage(t)), m1.count, m1.held[t - LOW := 0]);
      NewTableSameBut(m, m1.ram, ram[..], high, d, t, i);
      forall f: nat | LOW <= f < FRAMES && m.Held(f) > 0
        ensures Abs().Count(f) == m.Count(f) && ram[f] == m.ram[f]
      {
        assert f != t && Abs().Count(f) == m1.count[f - LOW];
      }
      ok := true;
    }

    /**
      memory.c:279-301: gives the faulting entry a page of its own, or just write access when the page
      is not shared.  On false memory is out and nothing changed.
    */
    method UnWpPage(d: nat, i: nat) returns (ok: bool)
      requires Valid() && FIRST_USER <= d < ENTRIES && i < ENTRIES && Pte(ram[..], d, i).present
      modifies this`held, ram, memoryMap
      ensures Valid() && held == old(held)
      ensures ok ==> Pte(ram[..], d, i).present && Pte(ram[..], d, i).writable
      ensures ok ==> SameBut(old(ram[..]), ram[..], d, i) && ram[0] == old(ram[0]) && OwnPage(old(Abs()), Abs(), d, i)
      ensures ViewOf(ram[..], d, i) == ViewOf(old(ram[..]), d, i)
      ensures !ok ==> Abs() == old(Abs()) && forall g: nat | LOW <= g < FRAMES :: Abs().Count(g) > 0
      ensures ok <==> Unshared(old(Abs()), d, i) || old(FreeCount(memoryMap[..])) > 0
      ensures ok ==> FreeCount(memoryMap[..]) == old(FreeCount(memoryMap[..])) - if Unshared(old(Abs()), d, i) then 0 else 1
    {
      hide Inv;
      hide SameBut, FreeCount;
      ghost var m := Abs();
      TableInRange(m, high, d);
      MappedIsCounted(m, high, d, i);
      var t := ram[0][d].page;
      var oldPage := ram[t][i].page;
      assert Pte(m.ram, d, i) == ram[t][i];
      if oldPage >= LOW && memoryMap[oldPage - LOW] == 1 {
        assert m.Count(oldPage) == 1 && Unshared(m, d, i);
        UnprotectStep(m, high, d, i);
        ram[t] := ram[t][i := ram[t][i].(writable := true)];
        assert Abs() == Mem(WritePte(m.ram, d, i, Pte(m.ram, d, i).(writable := true)), m.count, m.held);
        return true;
      }
      var newPage := GetFreePage();
      if newPage == 0 {
        return false;
      }
      ghost var m1 := Abs();
      assert oldPage >= LOW ==> m.Count(oldPage) == m.count[oldPage - LOW];
      MoveStep(m, m1, high, d, i, newPage);
      ReplacedFree(m, m1, high, d, i, newPage);
      PageIsNotTable(m1, high, d, i, d);
      if oldPage >= LOW {
        assert m1.Count(oldPage) == memoryMap[oldPage - LOW];
        memoryMap[oldPage - LOW] := memoryMap[oldPage - LOW] - 1;
      }
      ram[t] := ram[t][i := UserPage(newPage)];
      ram[newPage] := ram[oldPage];
      held := held[newPage - LOW := 0];
      assert Abs() == Replaced(m1, d, i, newPage);
      assert memoryMap[..] == Abs().count;
      ok := true;
    }

    /** memory.c:328-346: what verify_area does for each page before the kernel writes to user space. */
    method WriteVerify(d: nat, i: nat) returns (ok: bool)
      requires Valid() && FIRST_USER <= d < ENTRIES && i < ENTRIES
      modifies this`held, ram, memoryMap
      ensures Valid() && held == old(held)
      ensures ok ==> SameBut(old(ram[..]), ram[..], d, i) && ram[0] == old(ram[0])
      ensures ok && old(Pte(ram[..], d, i)).present ==> Pte(ram[..], d, i).present && Pte(ram[..], d, i).writable
      ensures ok && old(Pte(ram[..], d, i).present && !Pte(ram[..], d, i).writable) ==> OwnPage(old(Abs()), Abs(), d, i)
      ensures ok && !old(Pte(ram[..], d, i).present && !Pte(ram[..], d, i).writable) ==> Abs() == old(Abs())
      ensures ViewOf(ram[..], d, i) == ViewOf(old(ram[..]), d, i)
      ensures !ok ==> Abs() == old(Abs())
      ensures FreeCount(memoryMap[..]) >= old(FreeCount(memoryMap[..])) - 1
      ensures !ok <==> old(Pte(ram[..], d, i)).present && !old(Pte(ram[..], d, i)).writable && !Unshared(old(Abs()), d, i)
                       && old(FreeCount(memoryMap[..])) == 0
    {
      hide Inv;
      hide SameBut, FreeCount;
      SameButRefl(ram[..], d, i);
      var e := ram[0][d];
      if !e.present {
        return true;
      }
      TableInRange(Abs(), high, d);
      var w := ram[e.page][i];
      assert w == Pte(ram[..], d, i);
      if w.present && !w.writable {
        ok := UnWpPage(d, i);
      } else {
        ok := true;
      }
    }

    /**
      memory.c:366-409: tries to map task page (fd, i) of another task at (td, i).  Only a clean page
      is shared, read only on both sides.
    */
    method TryToShare(fd: nat, td: nat, i: nat) returns (shared: bool, oom: bool)
      requires Valid() && FIRST_USER <= fd < ENTRIES && FIRST_USER <= td < ENTRIES && i < ENTRIES
      requires fd != td && fd % 16 == td % 16 && !Pte(ram[..], td, i).present
      modifies this`held, ram, memoryMap
      ensures Valid() && held == old(held) && !(shared && oom)
      ensures !shared ==> Abs() == old(Abs())
      ensures oom <==> old(Shareable(ram[..], fd, i)) && !Dir(old(ram[..]), td).present && old(FreeCount(memoryMap[..])) == 0
      ensures shared ==> FreeCount(memoryMap[..]) == old(FreeCount(memoryMap[..])) - if Dir(old(ram[..]), td).present then 0 else 1
      ensures shared || oom <==> old(Shareable(ram[..], fd, i))
      ensures shared ==> Pte(ram[..], td, i) == ReadOnly(old(Pte(ram[..], fd, i)))
      ensures shared ==> Pte(ram[..], fd, i) == ReadOnly(old(Pte(ram[..], fd, i)))
      ensures shared ==> SharedBetween(old(ram[..]), ram[..], fd, td, i)
    {
      hide Inv;
      hide SharedBetween, SameBut, EntryCopied, FreeCount;
      ghost var m0 := Abs();
      var e := ram[0][fd];
      if !e.present {
        return false, false;
      }
      TableInRange(m0, high, fd);
      var w := ram[e.page][i];
      assert w == Pte(m0.ram, fd, i);
      if !w.present || w.dirty {
        return false, false;
      }
      MappedIsCounted(m0, high, fd, i);
      if w.page >= high || w.page < LOW {
        return false, false;
      }
      SameButRefl(m0.ram, td, i);
      if !ram[0][td].present {
        var ok := NewTable(td, i);
        if !ok {
          return false, true;
        }
      }
      ghost var m := Abs();
      SameButAt(m0.ram, m.ram, td, i, fd, i);
      TableInRange(m, high, td);
      TableInRange(m, high, fd);
      CopyEntryStep(m, high, fd, td, i);
      SharedFree(m, high, fd, td, i);
      var t := ram[0][td].page;
      assert w == ram[e.page][i] == Pte(m.ram, fd, i);
      ram[e.page] := ram[e.page][i := ReadOnly(w)];
      TablesDistinct(m, high, fd, td);
      ram[t] := ram[t][i := ReadOnly(w)];
      assert m.Count(w.page) == memoryMap[w.page - LOW];
      memoryMap[w.page - LOW] := memoryMap[w.page - LOW] + 1;
      assert Abs() == CopyEntry(m, fd, td, i) && memoryMap[..] == Abs().count;
      SharedFromSteps(m0, m, Abs(), high, fd, td, i);
      shared, oom := true, false;
    }

    /** A store by the user through a writable entry; the processor marks the entry dirty. */
    method Store(d: nat, i: nat, k: nat, x: Word)
      requires Valid() && FIRST_USER <= d < ENTRIES && i < ENTRIES && k < 1024
      requires Pte(ram[..], d, i).present && Pte(ram[..], d, i).writable
      modifies ram
      ensures Valid() && memoryMap[..] == old(memoryMap[..])
      ensures SameBut(old(ram[..]), ram[..], d, i) && ram[0] == old(ram[0])
      ensures ViewOf(old(ram[..]), d, i).Sees? && ViewOf(ram[..], d, i) == Sees(ViewOf(old(ram[..]), d, i).page[k := x])
      ensures Pte(ram[..], d, i) == Pte(old(ram[..]), d, i).(dirty := true)
    {
      hide Inv;
      hide SameBut;
      ghost var m := Abs();
      TableInRange(m, high, d);
      MappedIsCounted(m, high, d, i);
      StoreStep(m, high, d, i, k, x);
      var t := ram[0][d].page;
      var f := ram[t][i].page;
      assert Pte(m.ram, d, i) == ram[t][i];
      ram[t] := ram[t][i := ram[t][i].(dirty := true)];
      ram[f] := ram[f][k := x];
      assert Abs() == Stored(m, d, i, k, x);
    }
  }
}
