/**
  What truncate (linux-0.11/fs/truncate.c) releases: the blocks at the places of one file, each once,
  and nothing else.
*/
module BlockRelease {
  import opened BlockTree
  import opened BlockGrowth

  /** Block z is at one of the places in gone, which have been released. */
  ghost predicate Freed(fs0: Fs, i: nat, gone: iset<Place>, z: nat)
    requires i < |fs0.inode|
  {
    z != 0 && exists q {:trigger At(fs0, i, q)} :: q in gone && IsPlace(q) && At(fs0, i, q) == z
  }

  /**
    truncate has got as far as the places in gone, starting from fs0.  held are the blocks whose buffers
    somebody else holds: free_block leaves them marked.
  */
  ghost predicate Released(fs0: Fs, fs: Fs, first: nat, i: nat, held: set<nat>, gone: iset<Place>)
    requires i < |fs0.inode|
  {
    && |fs.data| == |fs0.data| && |fs.bits| == |fs0.bits| && Shape(fs, first)
    && (forall z: nat {:trigger Marked(fs, first, z)} | first <= z < |fs0.data| ::
          Marked(fs, first, z) <==> Marked(fs0, first, z) && (Freed(fs0, i, gone, z) ==> z in held))
    && (forall z: nat {:trigger fs.data[z]} | z < |fs0.data| && !Freed(fs0, i, gone, z) :: fs.data[z] == fs0.data[z])
  }

  /** The block at a place not yet released is still marked: "bit already cleared" cannot happen. */
  lemma StillMarked(fs0: Fs, fs: Fs, first: nat, i: nat, held: set<nat>, gone: iset<Place>, p: Place)
    requires Ok(fs0, first) && i < |fs0.inode| && Released(fs0, fs, first, i, held, gone)
    requires IsPlace(p) && p !in gone && At(fs0, i, p) != 0
    ensures var z := At(fs0, i, p); first <= z < |fs.data| && Marked(fs, first, z) && fs.data[z] == fs0.data[z]
  {
    assert !Freed(fs0, i, gone, At(fs0, i, p));
  }

  lemma ReleaseStep(fs0: Fs, fs: Fs, fs': Fs, first: nat, i: nat, held: set<nat>, gone: iset<Place>, p: Place)
    requires Ok(fs0, first) && i < |fs0.inode| && Released(fs0, fs, first, i, held, gone)
    requires IsPlace(p) && p !in gone && At(fs0, i, p) != 0
    requires var z := At(fs0, i, p);
      && first <= z < |fs.data| && 0 <= BitOf(first, z) < |fs.bits|
      && fs'.bits == (if z in held then fs.bits else fs.bits[BitOf(first, z) := false])
      && |fs'.data| == |fs.data| && forall y: nat | y < |fs.data| && y != z :: fs'.data[y] == fs.data[y]
    ensures Released(fs0, fs', first, i, held, gone + iset{p})
  {
    var z := At(fs0, i, p);
    forall y: nat | y < |fs0.data| ensures Freed(fs0, i, gone + iset{p}, y) <==> Freed(fs0, i, gone, y) || y == z {
      if y == z {
        assert p in gone + iset{p} && At(fs0, i, p) == y;
      }
    }
    forall y: nat | first <= y < |fs0.data|
      ensures Marked(fs', first, y) <==> Marked(fs0, first, y) && (Freed(fs0, i, gone + iset{p}, y) ==> y in held)
    {
      assert Marked(fs', first, y) <==> Marked(fs, first, y) && (y == z ==> y in held);
    }
  }

  lemma ReleaseNothing(fs0: Fs, fs: Fs, first: nat, i: nat, held: set<nat>, gone: iset<Place>, more: iset<Place>)
    requires i < |fs0.inode| && Released(fs0, fs, first, i, held, gone)
    requires forall q | q in more && IsPlace(q) :: At(fs0, i, q) == 0
    ensures Released(fs0, fs, first, i, held, gone + more)
  {
    forall y: nat ensures Freed(fs0, i, gone + more, y) <==> Freed(fs0, i, gone, y) {
      if Freed(fs0, i, gone, y) {
        var q {:trigger At(fs0, i, q)} :| q in gone && IsPlace(q) && At(fs0, i, q) == y;
        assert q in gone + more;
      }
    }
  }

  /** What has been released does not depend on what the inodes now say. */
  lemma InodesDoNotMatter(fs0: Fs, fs: Fs, fs': Fs, first: nat, i: nat, held: set<nat>, gone: iset<Place>)
    requires i < |fs0.inode| && Released(fs0, fs, first, i, held, gone) && fs'.data == fs.data && fs'.bits == fs.bits
    ensures Released(fs0, fs', first, i, held, gone)
  {
    forall z: nat | first <= z < |fs0.data| ensures Marked(fs', first, z) == Marked(fs, first, z) {
    }
  }

  // ----- The places below a pointer block -----

  function Child(p: Place, j: nat): (q: Place)
    requires IsPlace(p) && HoldsPointers(p) && j < PTRS
    ensures IsPlace(q) && !q.Zone? && Up(q) == p && Index(q) == j
  {
    match p
    case Zone(k) => if k == 7 then Ind(j) else Mid(j)
    case Mid(a) => Dind(a, j)
    case _ => assert false; p
  }

  /** p and everything below it. */
  ghost function Below(p: Place): iset<Place>
    requires IsPlace(p) && HoldsPointers(p)
  {
    iset q | q == p || (IsPlace(q) && !q.Zone? && (Up(q) == p || (q.Dind? && p == Zone(8))))
  }

  lemma ChildIsOnly(p: Place, k: nat)
    requires IsPlace(p) && HoldsPointers(p) && k < PTRS
    ensures forall q | IsPlace(q) && !q.Zone? && Up(q) == p && Index(q) == k :: q == Child(p, k)
  {
  }

  // ----- The result -----

  /** z is a block of file i, at whatever level. */
  ghost predicate Owned(fs: Fs, i: nat, z: nat)
    requires i < |fs.inode|
  {
    z != 0 && exists q {:trigger At(fs, i, q)} :: IsPlace(q) && At(fs, i, q) == z
  }

  ghost predicate Truncated(fs: Fs, fs': Fs, first: nat, i: nat, held: set<nat>)
    requires i < |fs.inode|
  {
    && |fs'.inode| == |fs.inode| && |fs'.data| == |fs.data| && |fs'.bits| == |fs.bits|
    && fs'.inode[i].size == 0 && fs'.inode[i].mode == fs.inode[i].mode
    && (forall j: nat | j < |fs.inode| && j != i :: fs'.inode[j] == fs.inode[j])
    && (forall z: nat {:trigger Marked(fs', first, z)} | first <= z < |fs.data| ::
          Marked(fs', first, z) <==> Marked(fs, first, z) && (Owned(fs, i, z) ==> z in held))
    && (forall j: nat, q {:trigger At(fs', j, q)} | j < |fs.inode| && IsPlace(q) ::
          At(fs', j, q) == if j == i then 0 else At(fs, j, q))
    && (forall j: nat, x: nat {:trigger FileByte(fs', j, x)} | j < |fs.inode| && x / BLOCK_SIZE < MAX_BLOCKS ::
          FileByte(fs', j, x) == if j == i then 0 else FileByte(fs, j, x))
  }

  /** Once every place of file i is released and its zones are zeroed, the file is gone and no other moved. */
  lemma AllReleased(fs: Fs, fs': Fs, first: nat, i: nat, held: set<nat>, all: iset<Place>, zones: Zones)
    requires Ok(fs, first) && i < |fs.inode| && Released(fs, fs', first, i, held, all) && !fs.inode[i].mode.Other?
    requires forall q | IsPlace(q) :: q in all
    requires forall k | 0 <= k < 9 :: zones[k] == 0
    requires fs'.inode == fs.inode[i := Inode(zones, 0, fs.inode[i].mode)]
    ensures Truncated(fs, fs', first, i, held) && Ok(fs', first)
  {
    forall z: nat | first <= z < |fs.data| ensures Marked(fs', first, z) <==> Marked(fs, first, z) && (Owned(fs, i, z) ==> z in held) {
      if Owned(fs, i, z) {
        var q {:trigger At(fs, i, q)} :| IsPlace(q) && At(fs, i, q) == z;
        assert q in all;
      }
    }
    forall j: nat, q | j < |fs.inode| && IsPlace(q)
      ensures At(fs', j, q) == if j == i then 0 else At(fs, j, q)
    {
      if j != i {
        OtherFileKept(fs, fs', first, i, held, all, j, q);
      }
    }
    forall j: nat, x: nat | j < |fs.inode| && x / BLOCK_SIZE < MAX_BLOCKS
      ensures FileByte(fs', j, x) == if j == i then 0 else FileByte(fs, j, x)
    {
      if j != i {
        NotFreed(fs, first, i, all, j, PlaceOf(x / BLOCK_SIZE));
      }
    }
    TruncatedOk(fs, fs', first, i, held);
  }

  lemma NotFreed(fs: Fs, first: nat, i: nat, gone: iset<Place>, j: nat, q: Place)
    requires Ok(fs, first) && i < |fs.inode| && j < |fs.inode| && j != i && IsPlace(q)
    ensures !Freed(fs, i, gone, At(fs, j, q))
  {
  }

  lemma OtherFileKept(fs: Fs, fs': Fs, first: nat, i: nat, held: set<nat>, gone: iset<Place>, j: nat, q: Place)
    requires Ok(fs, first) && i < |fs.inode| && Released(fs, fs', first, i, held, gone)
    requires j < |fs.inode| && j != i && IsPlace(q) && |fs'.inode| == |fs.inode| && fs'.inode[j] == fs.inode[j]
    ensures At(fs', j, q) == At(fs, j, q)
  {
    NotFreed(fs, first, i, gone, j, Zone(7));
    NotFreed(fs, first, i, gone, j, Zone(8));
    match q {
      case Dind(a, _) =>
        assert At(fs', j, Mid(a)) == At(fs, j, Mid(a));
        NotFreed(fs, first, i, gone, j, Mid(a));
      case _ =>
    }
  }

  lemma TruncatedOk(fs: Fs, fs': Fs, first: nat, i: nat, held: set<nat>)
    requires Ok(fs, first) && i < |fs.inode| && Truncated(fs, fs', first, i, held) && Shape(fs', first)
    ensures Ok(fs', first)
  {
    forall j: nat, q | j < |fs'.inode| && IsPlace(q) && At(fs', j, q) != 0
      ensures first <= At(fs', j, q) < |fs'.data| && Marked(fs', first, At(fs', j, q))
    {
      assert At(fs', j, q) == At(fs, j, q);
      assert !Owned(fs, i, At(fs, j, q));
    }
    forall j: nat, p, k: nat, q
      | j < |fs'.inode| && IsPlace(p) && k < |fs'.inode| && IsPlace(q) && At(fs', j, p) != 0 && At(fs', j, p) == At(fs', k, q)
      ensures j == k && p == q
    {
      assert At(fs, j, p) == At(fs, k, q);
    }
  }

  // ----- Growing an empty file and truncating it -----

  ghost predicate GrowthStep(fs: Fs, fs': Fs, first: nat, i: nat)
    requires i < |fs.inode|
  {
    exists n: nat :: n < MAX_BLOCKS && Grown(fs, fs', first, i, n)
  }

  /** Every state follows from the one before by a create_block of some block of file i. */
  ghost predicate GrowthRun(run: seq<Fs>, first: nat, i: nat) {
    && |run| > 0 && i < |run[0].inode|
    && (forall k | 0 <= k < |run| :: Ok(run[k], first) && |run[k].inode| == |run[0].inode| && |run[k].data| == |run[0].data|)
    && (forall k, l {:trigger run[k], run[l]} | 0 <= k < |run| && l == k + 1 && l < |run| ::
          GrowthStep(run[k], run[l], first, i))
  }

  /** The map is the map at the start plus the blocks the file has now, none of which was in it. */
  lemma {:induction false} GrowthAddsOwned(run: seq<Fs>, first: nat, i: nat, z: nat)
    requires GrowthRun(run, first, i) && (forall q | IsPlace(q) :: At(run[0], i, q) == 0)
    requires first <= z < |run[0].data|
    ensures var last := run[|run| - 1];
      && (Marked(last, first, z) <==> Marked(run[0], first, z) || Owned(last, i, z))
      && !(Marked(run[0], first, z) && Owned(last, i, z))
  {
    if |run| > 1 {
      var l := |run| - 1;
      var k := l - 1;
      var before := run[..l];
      assert before[|before| - 1] == run[k];
      forall a, b {:trigger before[a], before[b]} | 0 <= a < |before| && b == a + 1 && b < |before|
        ensures GrowthStep(before[a], before[b], first, i)
      {
        assert before[a] == run[a] && before[b] == run[b];
      }
      GrowthAddsOwned(before, first, i, z);
      var n: nat :| n < MAX_BLOCKS && Grown(run[k], run[l], first, i, n);
      if Owned(run[l], i, z) {
        var q {:trigger At(run[l], i, q)} :| IsPlace(q) && At(run[l], i, q) == z;
        assert At(run[l], i, q) == At(run[k], i, q) || !Marked(run[k], first, z);
      }
      if Owned(run[k], i, z) {
        var q {:trigger At(run[k], i, q)} :| IsPlace(q) && At(run[k], i, q) == z;
        assert At(run[l], i, q) == z;
      }
    }
  }

  /**
    However an empty file grew, truncating it gives back the zone map it started from if and only if no
    block of the file is held by somebody else.
  */
  lemma TruncateUndoesGrowth(run: seq<Fs>, fs': Fs, first: nat, i: nat, held: set<nat>)
    requires GrowthRun(run, first, i) && (forall q | IsPlace(q) :: At(run[0], i, q) == 0)
    requires Truncated(run[|run| - 1], fs', first, i, held)
    ensures SameMap(run[0], fs', first) <==> forall z: nat {:trigger Owned(run[|run| - 1], i, z)} | Owned(run[|run| - 1], i, z) :: z !in held
  {
    var last := run[|run| - 1];
    forall z: nat | first <= z < |run[0].data|
      ensures Marked(fs', first, z) == Marked(run[0], first, z) <==> !(Owned(last, i, z) && z in held)
    {
      GrowthAddsOwned(run, first, i, z);
    }
    forall z: nat | Owned(last, i, z) ensures first <= z < |run[0].data| {
      var q {:trigger At(last, i, q)} :| IsPlace(q) && At(last, i, q) == z;
    }
    if z: nat :| Owned(last, i, z) && z in held {
      assert Marked(fs', first, z) != Marked(run[0], first, z);
    }
  }
}
