/**
  create_block when several processes are at work on one file.  _bmap (linux-0.11/fs/inode.c:82-147)
  looks at a place, sleeps in new_block, and then stores the number of the new block without another
  look, so the place may have been filled meanwhile.
*/
module BlockRace {
  import opened BlockTree
  import opened BlockGrowth
  import opened BlockRelease

  /** q lies below p. */
  predicate Under(p: Place, q: Place) {
    IsPlace(q) && !q.Zone? && (Up(q) == p || (q.Dind? && p == Zone(8)))
  }

  /** z is a block of some file. */
  ghost predicate InSomeTree(fs: Fs, z: nat) {
    exists j: nat :: j < |fs.inode| && Owned(fs, j, z)
  }

  /** The word for q after the store, given the block it sits in. */
  lemma WordAfterStore(fs: Fs, fs': Fs, first: nat, i: nat, p: Place, f: nat, j: nat, q: Place)
    requires Ok(fs, first) && Spare(fs, first, f) && i < |fs.inode| && !fs.inode[i].mode.Other? && IsPlace(p)
    requires !p.Zone? ==> 0 < Parent(fs, i, p) < |fs.data|
    requires fs' == SetAt(fs, i, p, f) && j < |fs.inode| && IsPlace(q) && !q.Zone?
    requires Parent(fs', j, q) ==
      if j == i && Up(q) == p then f else if j == i && Under(p, Up(q)) then 0 else Parent(fs, j, q)
    ensures At(fs', j, q) == if j == i && q == p then f else if j == i && Under(p, q) then 0 else At(fs, j, q)
  {
    WordIsAt(fs, j, q);
    WordIsAt(fs', j, q);
    if j == i && Up(q) == p {
      assert Ptr(fs.data[f], Index(q)) == 0;
    } else if !p.Zone? {
      PtrOfSet(fs.data[Parent(fs, i, p)], Index(p), f, Index(q));
    }
  }

  /** Storing a spare block at a place, filled or not: it is there, nothing is below it, the rest stays. */
  lemma StoredAt(fs: Fs, first: nat, i: nat, p: Place, f: nat, j: nat, q: Place)
    requires Ok(fs, first) && Spare(fs, first, f) && i < |fs.inode| && !fs.inode[i].mode.Other? && IsPlace(p)
    requires !p.Zone? ==> Parent(fs, i, p) != 0
    requires j < |fs.inode| && IsPlace(q)
    ensures !p.Zone? ==> 0 < Parent(fs, i, p) < |fs.data|
    ensures At(SetAt(fs, i, p, f), j, q) == if j == i && q == p then f else if j == i && Under(p, q) then 0 else At(fs, j, q)
  {
    if !p.Zone? {
      ParentInRange(fs, first, i, p);
    }
    var fs' := SetAt(fs, i, p, f);
    match q {
      case Zone(_) =>
      case Ind(_) => WordAfterStore(fs, fs', first, i, p, f, j, q);
      case Mid(_) => WordAfterStore(fs, fs', first, i, p, f, j, q);
      case Dind(a, _) =>
        WordAfterStore(fs, fs', first, i, p, f, j, Mid(a));
        WordAfterStore(fs, fs', first, i, p, f, j, q);
    }
  }

  /**
    The store after the sleep keeps every block of every file in its tree if and only if the place is
    still empty.  If it is not, the block that was there stays marked and is in no file any more.
  */
  lemma StoreAfterSleep(fs: Fs, first: nat, i: nat, p: Place, f: nat)
    requires Ok(fs, first) && Spare(fs, first, f) && i < |fs.inode| && !fs.inode[i].mode.Other? && IsPlace(p)
    requires !p.Zone? ==> Parent(fs, i, p) != 0
    ensures !p.Zone? ==> 0 < Parent(fs, i, p) < |fs.data|
    ensures var fs' := SetAt(fs, i, p, f); var z := At(fs, i, p);
      && At(fs', i, p) == f
      && ((forall y: nat {:trigger InSomeTree(fs, y)} | InSomeTree(fs, y) :: InSomeTree(fs', y)) <==> z == 0)
      && (z != 0 ==> Marked(fs', first, z) && !InSomeTree(fs', z))
  {
    StoredAt(fs, first, i, p, f, i, p);
    var fs', z := SetAt(fs, i, p, f), At(fs, i, p);
    if z == 0 {
      AttachOk(fs, first, i, p, f);
      forall y: nat | InSomeTree(fs, y) ensures InSomeTree(fs', y) {
        var j: nat :| j < |fs.inode| && Owned(fs, j, y);
        var q {:trigger At(fs, j, q)} :| IsPlace(q) && At(fs, j, q) == y;
        assert At(fs', j, q) == y;
        assert Owned(fs', j, y);
      }
    } else {
      assert Owned(fs, i, z);
      assert InSomeTree(fs, z);
      forall j: nat, q | j < |fs.inode| && IsPlace(q) ensures At(fs', j, q) != z {
        StoredAt(fs, first, i, p, f, j, q);
        assert At(fs, j, q) == z ==> j == i && q == p;
      }
    }
  }

  /**
    Two processes create the same block: both see the place empty, one gets f and stores it, and the
    other, which has got g meanwhile, stores that.  f is lost, with what was written into it.
  */
  lemma TwoCreates(fs: Fs, fs1: Fs, fs2: Fs, first: nat, i: nat, p: Place, f: nat, g: nat)
    requires Ok(fs, first) && i < |fs.inode| && !fs.inode[i].mode.Other? && IsPlace(p) && At(fs, i, p) == 0
    requires !p.Zone? ==> Parent(fs, i, p) != 0
    requires Allocated(fs, fs1, first, f) && Allocated(fs1, fs2, first, g)
    ensures !p.Zone? ==> 0 < Parent(fs2, i, p) < |fs2.data| && 0 < Parent(SetAt(fs2, i, p, f), i, p) < |fs2.data|
    ensures var fs4 := SetAt(SetAt(fs2, i, p, f), i, p, g);
      At(fs4, i, p) == g && Marked(fs4, first, f) && !InSomeTree(fs4, f)
  {
    AllocatedOk(fs, fs1, first, f);
    AllocatedOk(fs1, fs2, first, g);
    assert Spare(fs2, first, f) by {
      assert f != g && fs2.data[f] == fs1.data[f];
      forall j: nat, q | j < |fs.inode| && IsPlace(q) ensures At(fs2, j, q) != f {
        assert At(fs2, j, q) == At(fs1, j, q);
      }
    }
    if !p.Zone? {
      assert At(fs2, i, Up(p)) == At(fs1, i, Up(p)) == At(fs, i, Up(p));
    }
    assert At(fs2, i, p) == At(fs1, i, p) == At(fs, i, p);
    AttachOk(fs2, first, i, p, f);
    var fs3 := SetAt(fs2, i, p, f);
    if !p.Zone? {
      assert At(fs3, i, Up(p)) == At(fs2, i, Up(p));
    }
    assert Spare(fs3, first, g) by {
      StillClear(fs2, fs3, first, i, p, f, g);
      forall j: nat, q | j < |fs.inode| && IsPlace(q) ensures At(fs3, j, q) != g {
        assert At(fs3, j, q) == f || At(fs3, j, q) == At(fs2, j, q);
      }
    }
    StoreAfterSleep(fs3, first, i, p, g);
  }

  lemma StillClear(fs: Fs, fs': Fs, first: nat, i: nat, p: Place, f: nat, g: nat)
    requires Ok(fs, first) && Spare(fs, first, g) && i < |fs.inode| && IsPlace(p) && f < 0x10000
    requires !p.Zone? ==> 0 < Parent(fs, i, p) < |fs.data|
    requires fs' == SetAt(fs, i, p, f)
    ensures IsClear(fs'.data[g]) && Marked(fs', first, g)
  {
    if !p.Zone? {
      assert At(fs, i, Up(p)) != g;
    }
  }
}
