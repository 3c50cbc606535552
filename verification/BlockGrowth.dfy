/**
  How the map and the trees of a device move when a file grows (linux-0.11/fs/inode.c:72-159) and when
  it is truncated (linux-0.11/fs/truncate.c).
*/
module BlockGrowth {
  import opened BlockTree

  /** The places _bmap may have to fill to give a file its logical block n (inode.c:82-147). */
  function Path(n: nat): (ps: set<Place>)
    requires n < MAX_BLOCKS
    ensures PlaceOf(n) in ps && forall p | p in ps :: IsPlace(p)
  {
    match PlaceOf(n)
    case Zone(k) => {Zone(k)}
    case Ind(j) => {Zone(7), Ind(j)}
    case Dind(a, j) => {Zone(8), Mid(a), Dind(a, j)}
    case Mid(a) => {Mid(a)}
  }

  /** No two logical blocks share the place that holds their bytes, so growing at n leaves bmap(m) alone. */
  lemma PathMeetsOnlyOwnLeaf(n: nat, m: nat)
    requires n < MAX_BLOCKS && m < MAX_BLOCKS && m != n
    ensures PlaceOf(m) !in Path(n)
  {
    PlaceOfInjective(n, m);
  }

  ghost predicate SameSizes(fs: Fs, fs': Fs) {
    && |fs'.inode| == |fs.inode| && |fs'.data| == |fs.data| && |fs'.bits| == |fs.bits|
    && forall j | 0 <= j < |fs.inode| :: fs'.inode[j].size == fs.inode[j].size && fs'.inode[j].mode == fs.inode[j].mode
  }

  /**
    File i has grown towards block n: only empty places on the path were filled, with zones that were
    free; the map gained exactly those zones; no byte of any file changed.
  */
  ghost predicate Grown(fs: Fs, fs': Fs, first: nat, i: nat, n: nat)
    requires i < |fs.inode| && n < MAX_BLOCKS
  {
    && SameSizes(fs, fs') && SameBytes(fs, fs')
    && (forall j: nat, q {:trigger At(fs', j, q)} | j < |fs.inode| && IsPlace(q) :: At(fs', j, q) != At(fs, j, q) ==>
          j == i && q in Path(n) && At(fs, i, q) == 0 && !Marked(fs, first, At(fs', i, q)))
    && (forall z: nat {:trigger Marked(fs', first, z)} | first <= z < |fs.data| ::
          Marked(fs', first, z) <==> Marked(fs, first, z) || exists q {:trigger At(fs', i, q)} :: q in Path(n) && At(fs', i, q) == z)
  }

  lemma GrownRefl(fs: Fs, first: nat, i: nat, n: nat)
    requires Ok(fs, first) && i < |fs.inode| && n < MAX_BLOCKS
    ensures Grown(fs, fs, first, i, n)
  {
  }

  lemma GrownTrans(fs0: Fs, fs1: Fs, fs2: Fs, first: nat, i: nat, n: nat)
    requires Ok(fs1, first) && Ok(fs2, first) && i < |fs0.inode| && n < MAX_BLOCKS
    requires Grown(fs0, fs1, first, i, n) && |fs1.inode| == |fs0.inode| && Grown(fs1, fs2, first, i, n)
    ensures Grown(fs0, fs2, first, i, n)
  {
    forall j: nat, q | j < |fs0.inode| && IsPlace(q) && At(fs2, j, q) != At(fs0, j, q)
      ensures j == i && q in Path(n) && At(fs0, i, q) == 0 && !Marked(fs0, first, At(fs2, i, q))
    {
      if At(fs2, j, q) != At(fs1, j, q) {
        var z := At(fs2, j, q);
        assert !Marked(fs1, first, z);
      }
    }
    forall j: nat, x: nat | j < |fs0.inode| && x / BLOCK_SIZE < MAX_BLOCKS ensures FileByte(fs2, j, x) == FileByte(fs0, j, x) {
      assert FileByte(fs1, j, x) == FileByte(fs0, j, x);
    }
  }

  // ----- One new block -----

  /** new_block has marked and cleared zone f, which was free. */
  ghost predicate Allocated(fs: Fs, fs': Fs, first: nat, f: nat) {
    && first <= f < |fs.data| && |fs.bits| == |fs'.bits| && |fs.data| == |fs'.data| && BitOf(first, f) < |fs.bits|
    && !Marked(fs, first, f) && fs'.bits == fs.bits[BitOf(first, f) := true] && fs'.inode == fs.inode
    && IsClear(fs'.data[f]) && fs'.data == fs.data[f := fs'.data[f]]
  }

  lemma AllocatedOk(fs: Fs, fs': Fs, first: nat, f: nat)
    requires Ok(fs, first) && Allocated(fs, fs', first, f)
    ensures Ok(fs', first) && Spare(fs', first, f) && SameBytes(fs, fs')
    ensures forall i: nat, p {:trigger At(fs', i, p)} | i < |fs.inode| && IsPlace(p) :: At(fs', i, p) == At(fs, i, p)
  {
    UnmarkedIsUnowned(fs, first, f);
    var mid := Fs(fs.data[f := fs'.data[f]], fs.bits, fs.inode);
    FillKeepsBytes(fs, first, f, fs'.data[f]);
    forall i: nat, p | i < |fs.inode| && IsPlace(p) ensures At(fs', i, p) == At(fs, i, p) {
      FillUnowned(fs, first, f, fs'.data[f], i, p);
      BitsDoNotMatter(mid, fs', i, p);
    }
    forall i: nat, x: nat | i < |fs.inode| && x / BLOCK_SIZE < MAX_BLOCKS ensures FileByte(fs', i, x) == FileByte(fs, i, x) {
      assert FileByte(mid, i, x) == FileByte(fs, i, x);
      BitsDoNotMatter(mid, fs', i, PlaceOf(x / BLOCK_SIZE));
    }
    OkAfter(fs, fs', first);
  }

  lemma BitsDoNotMatter(fs: Fs, fs': Fs, i: nat, p: Place)
    requires fs'.data == fs.data && fs'.inode == fs.inode && i < |fs.inode| && IsPlace(p)
    ensures At(fs', i, p) == At(fs, i, p)
  {
  }

  /** new_block followed by storing the number at an empty place of the path: one step of growth. */
  lemma AttachGrows(fs: Fs, fs1: Fs, first: nat, i: nat, n: nat, p: Place, f: nat)
    requires Ok(fs, first) && Allocated(fs, fs1, first, f) && i < |fs.inode| && !fs.inode[i].mode.Other? && n < MAX_BLOCKS
    requires p in Path(n) && At(fs, i, p) == 0 && (!p.Zone? ==> Parent(fs, i, p) != 0)
    ensures f < 0x10000 && (!p.Zone? ==> Parent(fs1, i, p) == Parent(fs, i, p) && 0 < Parent(fs, i, p) < |fs.data|)
    ensures var fs2 := SetAt(fs1, i, p, f);
      Ok(fs2, first) && Grown(fs, fs2, first, i, n) && At(fs2, i, p) == f
  {
    AllocatedOk(fs, fs1, first, f);
    AttachOk(fs1, first, i, p, f);
    AttachKeepsBytes(fs1, first, i, p, f);
    var fs2 := SetAt(fs1, i, p, f);
    if !p.Zone? {
      assert At(fs1, i, Up(p)) == At(fs, i, Up(p));
    }
    forall j: nat, x: nat | j < |fs.inode| && x / BLOCK_SIZE < MAX_BLOCKS ensures FileByte(fs2, j, x) == FileByte(fs, j, x) {
      assert FileByte(fs1, j, x) == FileByte(fs, j, x);
    }
    forall z: nat | first <= z < |fs.data|
      ensures Marked(fs2, first, z) <==> Marked(fs, first, z) || exists q {:trigger At(fs2, i, q)} :: q in Path(n) && At(fs2, i, q) == z
    {
      if exists q {:trigger At(fs2, i, q)} :: q in Path(n) && At(fs2, i, q) == z {
        var q {:trigger At(fs2, i, q)} :| q in Path(n) && At(fs2, i, q) == z;
        assert q != p ==> At(fs, i, q) == z;
      }
      assert z == f ==> At(fs2, i, p) == z;
    }
  }

  ghost predicate Full(fs: Fs, first: nat) {
    forall z: nat {:trigger Marked(fs, first, z)} | first <= z < |fs.data| :: Marked(fs, first, z)
  }

  /** The maps agree on the zones that exist; bits past the last zone mean nothing. */
  ghost predicate SameMap(fs: Fs, fs': Fs, first: nat) {
    |fs'.data| == |fs.data| && forall z: nat {:trigger Marked(fs', first, z)} | first <= z < |fs.data| ::
      Marked(fs', first, z) == Marked(fs, first, z)
  }

  lemma PaddingBit(fs: Fs, fs': Fs, first: nat, b: nat)
    requires Ok(fs, first) && b < |fs.bits| && !fs.bits[b] && (forall k | 0 <= k < b :: fs.bits[k])
    requires b + first - 1 >= |fs.data| && fs' == Fs(fs.data, fs.bits[b := true], fs.inode)
    ensures Full(fs, first) && SameMap(fs, fs', first) && Ok(fs', first)
  {
    forall i: nat, p | i < |fs.inode| && IsPlace(p) ensures At(fs', i, p) == At(fs, i, p) {
      BitsDoNotMatter(fs, fs', i, p);
    }
    OkAfter(fs, fs', first);
  }

  /** A failed new_block is no growth at all. */
  lemma FailedGrows(fs: Fs, fs': Fs, first: nat, i: nat, n: nat)
    requires Ok(fs, first) && Ok(fs', first) && i < |fs.inode| && n < MAX_BLOCKS
    requires fs'.data == fs.data && fs'.inode == fs.inode && |fs'.bits| == |fs.bits| && SameMap(fs, fs', first)
    ensures Grown(fs, fs', first, i, n)
  {
    forall j: nat, q | j < |fs.inode| && IsPlace(q) ensures At(fs', j, q) == At(fs, j, q) {
      BitsDoNotMatter(fs, fs', j, q);
    }
    forall j: nat, x: nat | j < |fs.inode| && x / BLOCK_SIZE < MAX_BLOCKS ensures FileByte(fs', j, x) == FileByte(fs, j, x) {
      BitsDoNotMatter(fs, fs', j, PlaceOf(x / BLOCK_SIZE));
    }
  }

  /** bmap(m) answers the same for every m but n, and for every other file. */
  ghost predicate OthersMapped(fs: Fs, fs': Fs, i: nat, n: nat)
    requires i < |fs.inode| && n < MAX_BLOCKS
  {
    && |fs'.inode| == |fs.inode|
    && (forall m: nat {:trigger PlaceOf(m)} | m < MAX_BLOCKS && m != n :: At(fs', i, PlaceOf(m)) == At(fs, i, PlaceOf(m)))
    && (forall j: nat, q {:trigger At(fs', j, q)} | j < |fs.inode| && j != i && IsPlace(q) :: At(fs', j, q) == At(fs, j, q))
  }

  lemma GrownMapsOthers(fs: Fs, fs': Fs, first: nat, i: nat, n: nat)
    requires i < |fs.inode| && n < MAX_BLOCKS && Grown(fs, fs', first, i, n)
    ensures OthersMapped(fs, fs', i, n)
  {
    forall m: nat | m < MAX_BLOCKS && m != n ensures At(fs', i, PlaceOf(m)) == At(fs, i, PlaceOf(m)) {
      PathMeetsOnlyOwnLeaf(n, m);
    }
  }
}
