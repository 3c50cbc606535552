/**
  Pages of executables: try_to_share (linux-0.11/mm/memory.c:366-409) maps another task's page if its
  entry is marked clean, trusting that it holds what the file holds.
*/
module Executables {
  import opened PageWord
  import opened PageTables
  import opened Fork
  import opened Faults
  import opened AddressSpaces
  import opened TaskSlots

  /** An executable file: the sizes in its header, and what bread_page gives for each of its pages. */
  datatype Program = Program(textSize: nat, endData: nat, page: nat -> Frame)

  type Programs = nat -> Program

  /** A page of the executable that slot s has loaded and not written to holds what the file holds. */
  predicate PageFresh(r: Ram, t: TaskSlot, s: nat, k: nat, i: nat, programs: Programs)
    requires s < NR_TASKS && k < 16 && i < ENTRIES && t.Task?
  {
    var w := SlotPte(r, s, k, i);
    t.executable != 0 && (k * ENTRIES + i) * 4096 < t.endData && w.present && !w.dirty ==>
      LOW <= w.page && SlotView(r, s, k, i) == Sees(programs(t.executable).page(k * ENTRIES + i))
  }

  ghost predicate SlotFresh(r: Ram, t: TaskSlot, s: nat, programs: Programs)
    requires s < NR_TASKS
  {
    t.Task? ==>
      && (t.executable != 0 ==> t.endData == programs(t.executable).endData)
      && forall k: nat, i: nat {:trigger SlotPte(r, s, k, i)} | k < 16 && i < ENTRIES :: PageFresh(r, t, s, k, i, programs)
  }

  ghost predicate Pristine(r: Ram, ts: seq<TaskSlot>, programs: Programs) {
    && |ts| == NR_TASKS && ts[0].Task? && ts[0].executable == 0
    && forall s: nat {:trigger ts[s]} | 1 <= s < NR_TASKS :: SlotFresh(r, ts[s], s, programs)
  }

  lemma OthersStayFresh(r0: Ram, r: Ram, t: TaskSlot, s: nat, s': nat, programs: Programs)
    requires OthersSee(r0, r, s) && 1 <= s' < NR_TASKS && s' != s && SlotFresh(r0, t, s', programs)
    ensures SlotFresh(r, t, s', programs)
  {
    if t.Task? {
      forall k: nat, i: nat | k < 16 && i < ENTRIES ensures PageFresh(r, t, s', k, i, programs) {
        assert SameSight(r0, r, 16 * s' + k, i);
        assert PageFresh(r0, t, s', k, i, programs) by {
          assert SlotPte(r0, s', k, i) == Pte(r0, 16 * s' + k, i);
        }
      }
    }
  }

  /** Slot s alone decides. */
  lemma PristineUpdate(r0: Ram, r: Ram, ts: seq<TaskSlot>, s: nat, t: TaskSlot, programs: Programs)
    requires Pristine(r0, ts, programs) && OthersSee(r0, r, s) && 1 <= s < NR_TASKS
    ensures Pristine(r, ts[s := t], programs) <==> SlotFresh(r, t, s, programs)
  {
    hide SlotFresh, OthersSee;
    var ts' := ts[s := t];
    forall s': nat | 1 <= s' < NR_TASKS && s' != s ensures SlotFresh(r, ts'[s'], s', programs) {
      assert SlotFresh(r0, ts[s'], s', programs);
      OthersStayFresh(r0, r, ts[s'], s, s', programs);
    }
    if Pristine(r, ts', programs) {
      assert SlotFresh(r, ts'[s], s, programs);
    }
  }

  /** Within the slot, the page that changed decides. */
  lemma SlotFreshBut(r0: Ram, r: Ram, t: TaskSlot, s: nat, k: nat, i: nat, programs: Programs)
    requires 1 <= s < NR_TASKS && k < 16 && i < ENTRIES && t.Task? && SlotFresh(r0, t, s, programs)
    requires AllSeeBut(r0, r, 16 * s + k, i)
    ensures SlotFresh(r, t, s, programs) <==> PageFresh(r, t, s, k, i, programs)
  {
    forall k': nat, i': nat | k' < 16 && i' < ENTRIES && (k' != k || i' != i) ensures PageFresh(r, t, s, k', i', programs) {
      assert SameSight(r0, r, 16 * s + k', i');
      assert PageFresh(r0, t, s, k', i', programs) by {
        assert SlotPte(r0, s, k', i') == Pte(r0, 16 * s + k', i');
      }
    }
    if SlotFresh(r, t, s, programs) {
      assert SlotPte(r, s, k, i) == Pte(r, 16 * s + k, i);
    }
  }

  /** A child has the parent's pages. */
  lemma ChildFresh(r0: Ram, r: Ram, t: TaskSlot, t': TaskSlot, parent: nat, child: nat, programs: Programs)
    requires parent < NR_TASKS && 1 <= child < NR_TASKS && ChildSees(r0, r, parent, child) && t.Task? && t'.Task?
    requires t'.executable == t.executable && t'.endData == t.endData
    requires if parent == 0 then t.executable == 0 else SlotFresh(r0, t, parent, programs)
    ensures SlotFresh(r, t', child, programs)
  {
    forall k: nat, i: nat | k < 16 && i < ENTRIES ensures PageFresh(r, t', child, k, i, programs) {
      if parent != 0 {
        assert SlotPte(r, child, k, i) == ChildEntry(SlotPte(r0, parent, k, i));
        assert PageFresh(r0, t, parent, k, i, programs);
        assert SlotView(r, child, k, i) == SlotView(r0, parent, k, i) || ShowsDirectory(r0, 16 * parent + k, i);
      }
    }
  }

  lemma AllStayFresh(r0: Ram, r: Ram, t: TaskSlot, s: nat, programs: Programs)
    requires AllSee(r0, r) && 1 <= s < NR_TASKS && SlotFresh(r0, t, s, programs)
    ensures SlotFresh(r, t, s, programs)
  {
    AllMeansOthersSee(r0, r, 0);
    OthersStayFresh(r0, r, t, 0, s, programs);
  }

  lemma OldPageFresh(r: Ram, t: TaskSlot, s: nat, k: nat, i: nat, programs: Programs)
    requires s < NR_TASKS && k < 16 && i < ENTRIES && t.Task? && SlotFresh(r, t, s, programs)
    ensures PageFresh(r, t, s, k, i, programs)
  {
    assert SlotPte(r, s, k, i) == Pte(r, 16 * s + k, i);
  }

  /** What a task gets from another that runs the same file is what the file holds. */
  lemma SharerIsFresh(r: Ram, ts: seq<TaskSlot>, s: nat, k: nat, i: nat, o: nat, programs: Programs)
    requires Pristine(r, ts, programs) && 1 <= s < NR_TASKS && k < 16 && i < ENTRIES && Sharer(r, ts, s, k, i, o)
    requires (k * ENTRIES + i) * 4096 < ts[s].endData
    ensures SlotView(r, o, k, i) == Sees(programs(ts[s].executable).page(k * ENTRIES + i))
  {
    hide PageFresh;
    assert SlotFresh(r, ts[o], o, programs) && SlotFresh(r, ts[s], s, programs);
    OldPageFresh(r, ts[o], o, k, i, programs);
    assert PageFresh(r, ts[o], o, k, i, programs);
    FreshMeans(r, ts[o], o, k, i, programs);
  }

  lemma FreshMeans(r: Ram, t: TaskSlot, s: nat, k: nat, i: nat, programs: Programs)
    requires s < NR_TASKS && k < 16 && i < ENTRIES && t.Task? && PageFresh(r, t, s, k, i, programs) && Shareable(r, 16 * s + k, i)
    requires t.executable != 0 && (k * ENTRIES + i) * 4096 < t.endData
    ensures SlotView(r, s, k, i) == Sees(programs(t.executable).page(k * ENTRIES + i))
  {
  }

  /** A new image has no page of the file yet: below its last 4MB there is no page at all. */
  lemma BlankIsFresh(r: Ram, t: TaskSlot, s: nat, programs: Programs)
    requires 1 <= s < NR_TASKS && t.Task? && t.endData <= MAX_IMAGE
    requires t.executable != 0 ==> t.endData == programs(t.executable).endData
    requires forall d: nat | 16 * s <= d < 16 * s + 15 :: !Dir(r, d).present
    ensures SlotFresh(r, t, s, programs)
  {
    hide PageFresh;
    forall k: nat, i: nat | k < 16 && i < ENTRIES ensures PageFresh(r, t, s, k, i, programs) {
      BlankPageFresh(r, t, s, k, i, programs);
    }
  }

  lemma BlankPageFresh(r: Ram, t: TaskSlot, s: nat, k: nat, i: nat, programs: Programs)
    requires 1 <= s < NR_TASKS && k < 16 && i < ENTRIES && t.Task? && t.endData <= MAX_IMAGE
    requires forall d: nat | 16 * s <= d < 16 * s + 15 :: !Dir(r, d).present
    ensures PageFresh(r, t, s, k, i, programs)
  {
    if k < 15 {
      assert !Dir(r, 16 * s + k).present;
    } else {
      assert (k * ENTRIES + i) * 4096 >= MAX_IMAGE;
    }
  }

  /** The slot of a task that has exited, or of none, has nothing to hold. */
  lemma GoneIsFresh(r: Ram, t: TaskSlot, s: nat, programs: Programs)
    requires s < NR_TASKS && (t.Task? ==> t.executable == 0)
    ensures SlotFresh(r, t, s, programs)
  {
    if t.Task? {
      forall k: nat, i: nat | k < 16 && i < ENTRIES ensures PageFresh(r, t, s, k, i, programs) {
      }
    }
  }

  /**
    write_verify gives the task a copy of a page that is dirty, and marks the copy clean (memory.c:298):
    the one way to a clean page of an executable that does not hold what the file holds.
  */
  predicate Spoils(m: Mem, ts: seq<TaskSlot>, s: nat, k: nat, i: nat, programs: Programs)
    requires FaultAt(ts, s, k, i)
  {
    var w := SlotPte(m.ram, s, k, i);
    && ts[s].executable != 0 && (k * ENTRIES + i) * 4096 < ts[s].endData
    && w.present && w.dirty && !w.writable && !Unshared(m, 16 * s + k, i)
    && SlotView(m.ram, s, k, i) != Sees(programs(ts[s].executable).page(k * ENTRIES + i))
  }

  /** At boot there is only task 0, which runs no file. */
  lemma BootIsPristine(r: Ram, ts: seq<TaskSlot>, programs: Programs)
    requires |ts| == NR_TASKS && ts[0].Task? && ts[0].executable == 0 && forall s | 1 <= s < NR_TASKS :: ts[s].Free?
    ensures Pristine(r, ts, programs)
  {
    forall s: nat | 1 <= s < NR_TASKS ensures SlotFresh(r, ts[s], s, programs) {
      GoneIsFresh(r, ts[s], s, programs);
    }
  }

  /** A page-not-present fault that succeeded. */
  lemma TouchedFresh(r0: Ram, r: Ram, ts: seq<TaskSlot>, s: nat, k: nat, i: nat, how: NoPage, programs: Programs)
    requires Pristine(r0, ts, programs) && FaultAt(ts, s, k, i) && OthersSee(r0, r, s) && AllSeeBut(r0, r, 16 * s + k, i)
    requires LOW <= SlotPte(r, s, k, i).page && (how == Zeroed ==> !OfFile(ts[s], k, i))
    requires how == Loaded ==> SlotView(r, s, k, i) == Sees(programs(ts[s].executable).page(k * ENTRIES + i))
    requires how.SharedWith? ==> Sharer(r0, ts, s, k, i, how.other)
    requires how.SharedWith? ==> how.other < NR_TASKS && SlotView(r, s, k, i) == SlotView(r0, how.other, k, i)
    requires how != OutOfMemory
    ensures Pristine(r, ts, programs)
  {
    hide OthersSee, AllSeeBut, SlotFresh, Sharer, ViewOf, Pte;
    if how.SharedWith? && (k * ENTRIES + i) * 4096 < ts[s].endData {
      SharerIsFresh(r0, ts, s, k, i, how.other, programs);
    }
    SlotFreshBut(r0, r, ts[s], s, k, i, programs);
    PristineUpdate(r0, r, ts, s, ts[s], programs);
    assert ts == ts[s := ts[s]];
  }

  /** A write_verify that succeeded. */
  lemma VerifiedFresh(m0: Mem, r: Ram, ts: seq<TaskSlot>, s: nat, k: nat, i: nat, programs: Programs)
    requires Pristine(m0.ram, ts, programs) && FaultAt(ts, s, k, i) && OthersSee(m0.ram, r, s) && AllSeeBut(m0.ram, r, 16 * s + k, i)
    requires SlotView(r, s, k, i) == SlotView(m0.ram, s, k, i)
    requires var w, w' := SlotPte(m0.ram, s, k, i), SlotPte(r, s, k, i);
      if w.present && !w.writable && !Unshared(m0, 16 * s + k, i) then LOW <= w'.page && w' == UserPage(w'.page)
      else w' == if w.present then w.(writable := true) else w
    ensures Pristine(r, ts, programs) <==> !Spoils(m0, ts, s, k, i, programs)
  {
    hide OthersSee, AllSeeBut, SlotFresh, ViewOf, Pte;
    SlotFreshBut(m0.ram, r, ts[s], s, k, i, programs);
    OldPageFresh(m0.ram, ts[s], s, k, i, programs);
    PristineUpdate(m0.ram, r, ts, s, ts[s], programs);
    assert ts == ts[s := ts[s]];
  }

  /** The task that ran out of memory is gone. */
  lemma KilledFresh(r0: Ram, r: Ram, ts: seq<TaskSlot>, ts': seq<TaskSlot>, s: nat, programs: Programs)
    requires Pristine(r0, ts, programs) && 1 <= s < NR_TASKS && OthersSee(r0, r, s) && Killed(ts, ts', r, s)
    ensures Pristine(r, ts', programs)
  {
    hide OthersSee, SlotFresh;
    GoneIsFresh(r, ts'[s], s, programs);
    PristineUpdate(r0, r, ts, s, ts'[s], programs);
  }
}
