/**
  The steps of the page-fault handlers (linux-0.11/mm/memory.c:252-409) as state changes, with what
  they leave alone: a copy-on-write copy or a shared mapping changes no other page's contents.
*/
module Faults {
  import opened PageWord
  import opened PageTables
  import opened Fork

  /**
    Only entry (d, i) changed, possibly with a new empty table for d.  Every other entry names the
    same page and that page holds what it held; frame 0 is exempt since it is the directory itself.
  */
  ghost predicate SameBut(r0: Ram, r: Ram, d: nat, i: nat) {
    && (forall d': nat | d' < ENTRIES && d' != d :: Dir(r, d') == Dir(r0, d'))
    && (d < ENTRIES && Dir(r0, d).present ==> Dir(r, d) == Dir(r0, d))
    && (forall d': nat, i': nat {:trigger Pte(r, d', i')} | FIRST_USER <= d' < ENTRIES && i' < ENTRIES && (d' != d || i' != i) ::
          Pte(r, d', i') == Pte(r0, d', i') && (!ShowsDirectory(r0, d', i') || r[0] == r0[0] ==> ViewOf(r, d', i') == ViewOf(r0, d', i')))
    && (forall f: nat | 0 < f < LOW :: r[f] == r0[f])
  }

  lemma SameButRefl(r: Ram, d: nat, i: nat)
    ensures SameBut(r, r, d, i)
  {
  }

  lemma SameButAt(r0: Ram, r: Ram, d: nat, i: nat, d': nat, i': nat)
    requires SameBut(r0, r, d, i) && FIRST_USER <= d' < ENTRIES && i' < ENTRIES && d' != d
    ensures Pte(r, d', i') == Pte(r0, d', i') && Dir(r, d') == Dir(r0, d')
  {
  }

  lemma SameButTrans(r0: Ram, r1: Ram, r2: Ram, d: nat, i: nat)
    requires SameBut(r0, r1, d, i) && SameBut(r1, r2, d, i)
    requires r1[0] == r0[0] || r2[0] == r1[0]
    ensures SameBut(r0, r2, d, i)
  {
    forall d': nat, i': nat | FIRST_USER <= d' < ENTRIES && i' < ENTRIES && (d' != d || i' != i)
      ensures Pte(r2, d', i') == Pte(r0, d', i')
      ensures !ShowsDirectory(r0, d', i') || r2[0] == r0[0] ==> ViewOf(r2, d', i') == ViewOf(r0, d', i')
    {
      assert Pte(r2, d', i') == Pte(r1, d', i') == Pte(r0, d', i');
    }
  }

  lemma NewTableSameBut(m: Mem, r1: Ram, r: Ram, high: nat, d: nat, t: nat, i: nat)
    requires Inv(m, high) && FIRST_USER <= d < ENTRIES && !Dir(m.ram, d).present
    requires LOW <= t < FRAMES && m.Count(t) == 0 && r1 == m.ram[t := ZERO_FRAME]
    requires OnlyDirChanged(r1, r, d)
    ensures SameBut(m.ram, r, d, i) && (i < ENTRIES ==> !Pte(r, d, i).present)
  {
    FreeIsUnheld(m, high, t);
    UnsharedIsUnmapped(m, high, t);
    UnreferencedFrameWrite(m, high, t, ZERO_FRAME);
    OnlyDirIsSameOutside(r1, r, d);
    forall d': nat, i': nat | FIRST_USER <= d' < ENTRIES && i' < ENTRIES && (d' != d || i' != i)
      ensures Pte(r, d', i') == Pte(m.ram, d', i')
      ensures !ShowsDirectory(m.ram, d', i') || r[0] == m.ram[0] ==> ViewOf(r, d', i') == ViewOf(m.ram, d', i')
    {
      assert Pte(r1, d', i') == Pte(m.ram, d', i');
    }
  }

  lemma WriteIsSameBut(m: Mem, high: nat, d: nat, i: nat, w: Word)
    requires Inv(m, high) && FIRST_USER <= d < ENTRIES && i < ENTRIES && Dir(m.ram, d).present
    requires Dir(m.ram, d).page < FRAMES
    ensures var r := WritePte(m.ram, d, i, w);
      && SameBut(m.ram, r, d, i) && Pte(r, d, i) == w && r[0] == m.ram[0]
      && (forall f: nat | f < FRAMES && f != Dir(m.ram, d).page :: r[f] == m.ram[f])
  {
    WritePteFrame(m, high, d, i, w);
    WritePteViews(m, high, d, i, w);
    assert Pte(WritePte(m.ram, d, i, w), d, i) == w;
  }

  /** put_page's last step. */
  lemma MapPageStep(m: Mem, high: nat, d: nat, i: nat, f: nat)
    requires Inv(m, high) && FIRST_USER <= d < ENTRIES && i < ENTRIES && Dir(m.ram, d).present
    requires Dir(m.ram, d).page < FRAMES && !Pte(m.ram, d, i).present
    requires LOW <= f < high && m.Count(f) == 1 == m.Held(f)
    ensures var r := WritePte(m.ram, d, i, UserPage(f));
      && Inv(Mem(r, m.count, m.held[f - LOW := 0]), high)
      && SameBut(m.ram, r, d, i) && Pte(r, d, i) == UserPage(f) && r[f] == m.ram[f] && r[0] == m.ram[0]
  {
    UnsharedIsUnmapped(m, high, f);
    WriteIsSameBut(m, high, d, i, UserPage(f));
    PteStep(m, Mem(WritePte(m.ram, d, i, UserPage(f)), m.count, m.held[f - LOW := 0]), high, d, i, UserPage(f));
  }

  lemma UnprotectStep(m: Mem, high: nat, d: nat, i: nat)
    requires Inv(m, high) && FIRST_USER <= d < ENTRIES && i < ENTRIES && Dir(m.ram, d).present
    requires Dir(m.ram, d).page < FRAMES && Pte(m.ram, d, i).present
    requires LOW <= Pte(m.ram, d, i).page < FRAMES && m.Count(Pte(m.ram, d, i).page) == 1
    ensures var w := Pte(m.ram, d, i).(writable := true);
      var r := WritePte(m.ram, d, i, w);
      && Inv(Mem(r, m.count, m.held), high)
      && SameBut(m.ram, r, d, i) && Pte(r, d, i) == w && ViewOf(r, d, i) == ViewOf(m.ram, d, i) && r[0] == m.ram[0]
  {
    var w := Pte(m.ram, d, i).(writable := true);
    MappedIsNotTable(m, high, d, i);
    forall d': nat, i': nat | FIRST_USER <= d' < ENTRIES && i' < ENTRIES && Pte(m.ram, d', i').present && Pte(m.ram, d', i').page == w.page
      ensures d' == d && i' == i
    {
      CountOneIsUnshared(m, high, d, i, d', i');
    }
    WriteIsSameBut(m, high, d, i, w);
    PteStep(m, Mem(WritePte(m.ram, d, i, w), m.count, m.held), high, d, i, w);
  }

  lemma AllocatedFacts(m: Mem, m1: Mem, high: nat, f: nat, d: nat, i: nat)
    requires Inv(m, high) && LOW <= f < FRAMES && m.Count(f) == 0
    requires m1 == Mem(m.ram[f := ZERO_FRAME], m.count[f - LOW := 1], m.held[f - LOW := 1])
    requires FIRST_USER <= d < ENTRIES && i < ENTRIES && Pte(m.ram, d, i).present
    ensures SameBut(m.ram, m1.ram, d, i) && m1.ram[0] == m.ram[0]
    ensures Pte(m1.ram, d, i) == Pte(m.ram, d, i) && Pte(m.ram, d, i).page != f
    ensures ViewOf(m1.ram, d, i) == ViewOf(m.ram, d, i)
  {
    FreeIsUnheld(m, high, f);
    UnsharedIsUnmapped(m, high, f);
    UnreferencedFrameWrite(m, high, f, ZERO_FRAME);
  }

  /** memory.c:295-300: the entry moves to frame f, which receives a copy of the page. */
  function Replaced(m: Mem, d: nat, i: nat, f: nat): Mem
    requires d < ENTRIES && i < ENTRIES && LOW <= f < FRAMES
    requires Dir(m.ram, d).present && Dir(m.ram, d).page < FRAMES
    requires Pte(m.ram, d, i).page < FRAMES
    requires LOW <= Pte(m.ram, d, i).page ==> m.Count(Pte(m.ram, d, i).page) > 0
  {
    var o := Pte(m.ram, d, i).page;
    Mem(WritePte(m.ram, d, i, UserPage(f))[f := m.ram[o]],
        if LOW <= o then m.count[o - LOW := m.Count(o) - 1] else m.count,
        m.held[f - LOW := 0])
  }

  /** memory.c:285: the entry maps a page of the paged memory that nobody else maps. */
  predicate Unshared(m: Mem, d: nat, i: nat)
    requires d < ENTRIES && i < ENTRIES
  {
    var w := Pte(m.ram, d, i); LOW <= w.page < FRAMES && m.Count(w.page) == 1
  }

  /**
    What a write fault does to the frames: a page nobody else maps stays where it is, any other is
    left to the other mappings and its place taken by a frame that was free.
  */
  ghost predicate OwnPage(m: Mem, m': Mem, d: nat, i: nat)
    requires d < ENTRIES && i < ENTRIES
  {
    var w := Pte(m.ram, d, i);
    if Unshared(m, d, i) then
      Pte(m'.ram, d, i) == w.(writable := true) && m'.count == m.count
    else exists f: nat :: FreshCopy(m, m', d, i, f)
  }

  ghost predicate FreshCopy(m: Mem, m': Mem, d: nat, i: nat, f: nat)
    requires d < ENTRIES && i < ENTRIES
  {
    var o := Pte(m.ram, d, i).page;
    && LOW <= f < FRAMES && m.Count(f) == 0 && Pte(m'.ram, d, i) == UserPage(f)
    && forall g: nat | LOW <= g < FRAMES :: m'.Count(g) == if g == f then 1 else if g == o then m.Count(g) - 1 else m.Count(g)
  }

  lemma ReplaceStep(m: Mem, high: nat, d: nat, i: nat, f: nat)
    requires Inv(m, high) && FIRST_USER <= d < ENTRIES && i < ENTRIES
    requires Dir(m.ram, d).present && Pte(m.ram, d, i).present && Pte(m.ram, d, i).page != f
    requires LOW <= f < high && m.Count(f) == 1 == m.Held(f)
    ensures Dir(m.ram, d).page < FRAMES && Dir(m.ram, d).page != f && Pte(m.ram, d, i).page < FRAMES
    ensures LOW <= Pte(m.ram, d, i).page ==> m.Count(Pte(m.ram, d, i).page) > 0
    ensures var m' := Replaced(m, d, i, f);
      && Inv(m', high) && SameBut(m.ram, m'.ram, d, i) && m'.ram[0] == m.ram[0]
      && Pte(m'.ram, d, i) == UserPage(f) && ViewOf(m'.ram, d, i) == ViewOf(m.ram, d, i)
  {
    hide Inv;
    hide SameBut;
    MappedIsCounted(m, high, d, i);
    TableInRange(m, high, d);
    UnsharedIsUnmapped(m, high, f);
    var o := Pte(m.ram, d, i).page;
    var m1 := Mem(m.ram[f := m.ram[o]], m.count, m.held);
    FillStep(m, high, f, m.ram[o], d, i);
    WriteIsSameBut(m1, high, d, i, UserPage(f));
    ReplaceEntryStep(m1, high, d, i, f);
    assert WritePte(m1.ram, d, i, UserPage(f)) == Replaced(m, d, i, f).ram;
    SameButTrans(m.ram, m1.ram, Replaced(m, d, i, f).ram, d, i);
  }

  /** get_free_page and the replacement together. */
  lemma MoveStep(m: Mem, m1: Mem, high: nat, d: nat, i: nat, f: nat)
    requires Inv(m, high) && Inv(m1, high) && LOW <= f < high <= FRAMES && m.Count(f) == 0
    requires m1 == Mem(m.ram[f := ZERO_FRAME], m.count[f - LOW := 1], m.held[f - LOW := 1])
    requires FIRST_USER <= d < ENTRIES && i < ENTRIES && Dir(m.ram, d).present && Pte(m.ram, d, i).present
    ensures f != Dir(m.ram, d).page && f != Pte(m.ram, d, i).page && Pte(m1.ram, d, i) == Pte(m.ram, d, i)
    ensures Dir(m1.ram, d) == Dir(m.ram, d) && Dir(m.ram, d).page < FRAMES && Pte(m.ram, d, i).page < FRAMES
    ensures LOW <= Pte(m.ram, d, i).page ==> m1.Count(Pte(m.ram, d, i).page) > 0
    ensures var m' := Replaced(m1, d, i, f);
      && Inv(m', high) && SameBut(m.ram, m'.ram, d, i) && m'.ram[0] == m.ram[0] && m'.held == m.held
      && Pte(m'.ram, d, i) == UserPage(f) && ViewOf(m'.ram, d, i) == ViewOf(m.ram, d, i) && FreshCopy(m, m', d, i, f)
  {
    hide Inv;
    hide SameBut;
    FreeIsUnheld(m, high, f);
    AllocatedFacts(m, m1, high, f, d, i);
    assert m1.Count(f) == 1 == m1.Held(f);
    ReplaceStep(m1, high, d, i, f);
    SameButTrans(m.ram, m1.ram, Replaced(m1, d, i, f).ram, d, i);
  }

  lemma FillStep(m: Mem, high: nat, f: nat, x: Frame, d: nat, i: nat)
    requires Inv(m, high) && LOW <= f < FRAMES && m.Count(f) == m.Held(f)
    ensures Inv(Mem(m.ram[f := x], m.count, m.held), high)
    ensures SameBut(m.ram, m.ram[f := x], d, i)
    ensures d < ENTRIES ==> Dir(m.ram[f := x], d) == Dir(m.ram, d)
    ensures FIRST_USER <= d < ENTRIES && i < ENTRIES ==> Pte(m.ram[f := x], d, i) == Pte(m.ram, d, i)
  {
    var m' := Mem(m.ram[f := x], m.count, m.held);
    UnsharedIsUnmapped(m, high, f);
    UnreferencedFrameWrite(m, high, f, x);
    SameEntries(m, m', high);
  }

  /** Contents of data frames do not matter to the invariant. */
  lemma SameEntries(m: Mem, m': Mem, high: nat)
    requires Inv(m, high) && m'.count == m.count && m'.held == m.held
    requires forall d: nat | d < ENTRIES :: Dir(m'.ram, d) == Dir(m.ram, d)
    requires forall d: nat, i: nat {:trigger Pte(m'.ram, d, i)} | FIRST_USER <= d < ENTRIES && i < ENTRIES ::
               Pte(m'.ram, d, i) == Pte(m.ram, d, i)
    requires m'.ram[1] == m.ram[1]
    ensures Inv(m', high)
  {
    forall g: nat | LOW <= g < FRAMES
      ensures m'.Count(g) == |PteRefs(m'.ram, g)| + |DirRefs(m'.ram, g)| + m'.Held(g)
    {
      SameRefs(m.ram, m'.ram, g);
      assert m.Count(g) == |PteRefs(m.ram, g)| + |DirRefs(m.ram, g)| + m.Held(g);
    }
    forall g: nat | high <= g < FRAMES && LOW <= g ensures m'.Held(g) > 0 {
      assert m.Held(g) > 0;
    }
  }

  lemma ReplaceEntryStep(m: Mem, high: nat, d: nat, i: nat, f: nat)
    requires Inv(m, high) && FIRST_USER <= d < ENTRIES && i < ENTRIES
    requires Dir(m.ram, d).present && Dir(m.ram, d).page < FRAMES && Pte(m.ram, d, i).present
    requires LOW <= f < high && m.Count(f) == 1 == m.Held(f)
    requires LOW <= Pte(m.ram, d, i).page ==> Pte(m.ram, d, i).page < FRAMES && m.Count(Pte(m.ram, d, i).page) > 0
    ensures var o := Pte(m.ram, d, i).page;
      Inv(Mem(WritePte(m.ram, d, i, UserPage(f)),
              if LOW <= o then m.count[o - LOW := m.Count(o) - 1] else m.count, m.held[f - LOW := 0]), high)
  {
    var o := Pte(m.ram, d, i).page;
    UnsharedIsUnmapped(m, high, f);
    var m' := Mem(WritePte(m.ram, d, i, UserPage(f)),
                  if LOW <= o then m.count[o - LOW := m.Count(o) - 1] else m.count, m.held[f - LOW := 0]);
    PteStep(m, m', high, d, i, UserPage(f));
  }

  // ----- Stores -----

  function Stored(m: Mem, d: nat, i: nat, k: nat, x: Word): Mem
    requires d < ENTRIES && i < ENTRIES && k < 1024
    requires Dir(m.ram, d).present && Dir(m.ram, d).page < FRAMES
    requires Pte(m.ram, d, i).page < FRAMES
  {
    var f := Pte(m.ram, d, i).page;
    var r := WritePte(m.ram, d, i, Pte(m.ram, d, i).(dirty := true));
    Mem(r[f := r[f][k := x]], m.count, m.held)
  }

  /** A store through a writable entry shows up there and nowhere else. */
  lemma StoreStep(m: Mem, high: nat, d: nat, i: nat, k: nat, x: Word)
    requires Inv(m, high) && FIRST_USER <= d < ENTRIES && i < ENTRIES && k < 1024
    requires Dir(m.ram, d).present && Pte(m.ram, d, i).present && Pte(m.ram, d, i).writable
    ensures Dir(m.ram, d).page < FRAMES && Pte(m.ram, d, i).page < FRAMES
    ensures var m' := Stored(m, d, i, k, x);
      && Inv(m', high) && SameBut(m.ram, m'.ram, d, i) && m'.ram[0] == m.ram[0]
      && ViewOf(m.ram, d, i).Sees? && ViewOf(m'.ram, d, i) == Sees(ViewOf(m.ram, d, i).page[k := x])
    ensures Pte(Stored(m, d, i, k, x).ram, d, i) == Pte(m.ram, d, i).(dirty := true)
  {
    var w := Pte(m.ram, d, i).(dirty := true);
    var f := w.page;
    MappedIsCounted(m, high, d, i);
    MappedIsNotTable(m, high, d, i);
    WriteIsSameBut(m, high, d, i, w);
    WritePteFrame(m, high, d, i, w);
    var m1 := Mem(WritePte(m.ram, d, i, w), m.count, m.held);
    PteStep(m, m1, high, d, i, w);
    StoreInFrame(m1, high, d, i, k, x);
    SameButTrans(m.ram, m1.ram, Stored(m, d, i, k, x).ram, d, i);
  }

  lemma StoreInFrame(m: Mem, high: nat, d: nat, i: nat, k: nat, x: Word)
    requires Inv(m, high) && FIRST_USER <= d < ENTRIES && i < ENTRIES && k < 1024
    requires Pte(m.ram, d, i).present && Pte(m.ram, d, i).writable && Pte(m.ram, d, i).page < FRAMES
    ensures var f := Pte(m.ram, d, i).page;
      var r := m.ram[f := m.ram[f][k := x]];
      && Inv(Mem(r, m.count, m.held), high) && SameBut(m.ram, r, d, i) && r[0] == m.ram[0]
      && Pte(r, d, i) == Pte(m.ram, d, i)
  {
    var f := Pte(m.ram, d, i).page;
    var r := m.ram[f := m.ram[f][k := x]];
    forall d': nat | FIRST_USER <= d' < ENTRIES && Dir(m.ram, d').present ensures Dir(m.ram, d').page != f {
    }
    forall d': nat | d' < ENTRIES ensures Dir(r, d') == Dir(m.ram, d') {
    }
    forall d': nat, i': nat | FIRST_USER <= d' < ENTRIES && i' < ENTRIES ensures Pte(r, d', i') == Pte(m.ram, d', i') {
    }
    forall d': nat, i': nat | FIRST_USER <= d' < ENTRIES && i' < ENTRIES && (d' != d || i' != i)
      ensures ViewOf(r, d', i') == ViewOf(m.ram, d', i')
    {
      assert Pte(m.ram, d', i').present ==> Pte(m.ram, d', i').page != f;
    }
    SameEntries(m, Mem(r, m.count, m.held), high);
  }

  // ----- Sharing -----

  /** memory.c:378-389: the entry try_to_share accepts is present, clean and above LOW_MEM. */
  predicate Shareable(r: Ram, d: nat, i: nat)
    requires d < ENTRIES && i < ENTRIES
  {
    var w := Pte(r, d, i); w.present && !w.dirty && LOW <= w.page
  }

  /** Entry i of td now shows what entry i of fd shows; all else is as before. */
  ghost predicate SharedBetween(r0: Ram, r: Ram, fd: nat, td: nat, i: nat)
    requires fd < ENTRIES && td < ENTRIES && i < ENTRIES
  {
    && ViewOf(r, td, i) == ViewOf(r0, fd, i) == ViewOf(r, fd, i)
    && (forall d: nat | d < ENTRIES && d != td :: Dir(r, d) == Dir(r0, d))
    && (forall d: nat, j: nat {:trigger Pte(r, d, j)} | FIRST_USER <= d < ENTRIES && j < ENTRIES && (j != i || (d != td && d != fd)) ::
          Pte(r, d, j) == Pte(r0, d, j) && (!ShowsDirectory(r0, d, j) ==> ViewOf(r, d, j) == ViewOf(r0, d, j)))
    && (forall f: nat | 0 < f < LOW :: r[f] == r0[f])
  }

  lemma SharedFromSteps(m0: Mem, m1: Mem, m: Mem, high: nat, fd: nat, td: nat, i: nat)
    requires FIRST_USER <= fd < ENTRIES && FIRST_USER <= td < ENTRIES && i < ENTRIES && fd != td
    requires Inv(m0, high) && SameBut(m0.ram, m1.ram, td, i) && EntryCopied(m1, m, fd, td, i)
    requires Shareable(m0.ram, fd, i)
    ensures SharedBetween(m0.ram, m.ram, fd, td, i)
  {
    assert Pte(m1.ram, fd, i) == Pte(m0.ram, fd, i);
    forall d: nat, j: nat | FIRST_USER <= d < ENTRIES && j < ENTRIES && (j != i || (d != td && d != fd))
      ensures Pte(m.ram, d, j) == Pte(m0.ram, d, j)
      ensures !ShowsDirectory(m0.ram, d, j) ==> ViewOf(m.ram, d, j) == ViewOf(m0.ram, d, j)
    {
      assert Pte(m.ram, d, j) == Pte(m1.ram, d, j) == Pte(m0.ram, d, j);
      assert !ShowsDirectory(m0.ram, d, j) ==> ViewOf(m1.ram, d, j) == ViewOf(m0.ram, d, j);
    }
    forall d: nat | d < ENTRIES && d != td ensures Dir(m.ram, d) == Dir(m0.ram, d) {
      assert Dir(m1.ram, d) == Dir(m0.ram, d);
    }
  }

  lemma AllocSameBut(m: Mem, high: nat, f: nat, d: nat, i: nat)
    requires Inv(m, high) && LOW <= f < FRAMES && m.Count(f) == 0
    requires FIRST_USER <= d < ENTRIES && i < ENTRIES
    ensures var r := m.ram[f := ZERO_FRAME];
      SameBut(m.ram, r, d, i) && r[0] == m.ram[0] && Pte(r, d, i) == Pte(m.ram, d, i)
  {
    FreeIsUnheld(m, high, f);
    UnsharedIsUnmapped(m, high, f);
    UnreferencedFrameWrite(m, high, f, ZERO_FRAME);
  }
}
