/**
  Where the blocks of files are: the zone pointers of an inode and the pointer blocks below them, as
  linux-0.11/fs/inode.c:72-149 walks them, with the invariant that no block has two places.
*/
module BlockTree {
  import opened Bytes

  const BLOCK_SIZE := 1024
  const PTRS := 512                          // 16-bit pointers in a block
  const MAX_BLOCKS := 7 + 512 + 512 * 512    // inode.c:79

  type Block = s: seq<Byte> | |s| == 1024 witness seq(1024, _ => 0)
  type Zones = z: seq<nat> | |z| == 9 witness seq(9, _ => 0)

  /** What i_mode says about i_zone[]: block numbers, or (devices, pipes) something else. */
  datatype Mode = Regular | Directory | Other

  /** The fields of an inode the block tree and the file operations use. */
  datatype Inode = Inode(zone: Zones, size: nat, mode: Mode)

  /** All blocks of a device, its zone bitmap, and its inodes. */
  datatype Fs = Fs(data: seq<Block>, bits: seq<bool>, inode: seq<Inode>)

  // ----- Pointers in a block: little-endian 16-bit words -----

  function Ptr(b: Block, j: nat): nat
    requires j < PTRS
  {
    (b[2 * j] as int) + 256 * (b[2 * j + 1] as int)
  }

  function SetPtr(b: Block, j: nat, v: nat): Block
    requires j < PTRS && v < 0x10000
  {
    b[2 * j := v % 256][2 * j + 1 := v / 256]
  }

  lemma PtrOfSet(b: Block, j: nat, v: nat, k: nat)
    requires j < PTRS && k < PTRS && v < 0x10000
    ensures Ptr(SetPtr(b, j, v), k) == if k == j then v else Ptr(b, k)
  {
  }

  /** What clear_block leaves (bitmap.c:13-18). */
  predicate IsClear(b: Block) {
    forall k | 0 <= k < BLOCK_SIZE :: b[k] == 0
  }

  // ----- Places -----

  /** A place that can hold a block number: the nine zones, and the words of the pointer blocks. */
  datatype Place = Zone(k: nat) | Ind(j: nat) | Mid(a: nat) | Dind(a: nat, j: nat)

  predicate IsPlace(p: Place) {
    match p
    case Zone(k) => k < 9
    case Ind(j) => j < PTRS
    case Mid(a) => a < PTRS
    case Dind(a, j) => a < PTRS && j < PTRS
  }

  /** Places whose blocks hold pointers rather than file bytes. */
  predicate HoldsPointers(p: Place) {
    p == Zone(7) || p == Zone(8) || p.Mid?
  }

  function PtrIn(fs: Fs, z: nat, j: nat): nat
    requires j < PTRS
  {
    if 0 < z < |fs.data| then Ptr(fs.data[z], j) else 0
  }

  /** The block number at a place, 0 for none. */
  function At(fs: Fs, i: nat, p: Place): nat
    requires i < |fs.inode| && IsPlace(p)
  {
    if fs.inode[i].mode.Other? then 0 else
    match p
    case Zone(k) => fs.inode[i].zone[k]
    case Ind(j) => PtrIn(fs, fs.inode[i].zone[7], j)
    case Mid(a) => PtrIn(fs, fs.inode[i].zone[8], a)
    case Dind(a, j) => PtrIn(fs, PtrIn(fs, fs.inode[i].zone[8], a), j)
  }

  /** The place of the block that contains the word for p; a zone number sits in the inode itself. */
  function Up(p: Place): (up: Place)
    requires IsPlace(p) && !p.Zone?
    ensures IsPlace(up) && HoldsPointers(up)
  {
    match p
    case Ind(_) => Zone(7)
    case Mid(_) => Zone(8)
    case Dind(a, _) => Mid(a)
  }

  function Parent(fs: Fs, i: nat, p: Place): nat
    requires i < |fs.inode| && IsPlace(p) && !p.Zone?
  {
    At(fs, i, Up(p))
  }

  function Index(p: Place): nat
    requires IsPlace(p) && !p.Zone?
    ensures Index(p) < PTRS
  {
    match p
    case Ind(j) => j
    case Mid(a) => a
    case Dind(_, j) => j
  }

  /** inode.c:82-140: which place holds logical block n of a file. */
  function PlaceOf(n: nat): (p: Place)
    requires n < MAX_BLOCKS
    ensures IsPlace(p) && !HoldsPointers(p)
  {
    if n < 7 then Zone(n)
    else if n < 7 + 512 then Ind(n - 7)
    else Dind((n - 519) / 512, (n - 519) % 512)
  }

  lemma PlaceOfInjective(n: nat, m: nat)
    requires n < MAX_BLOCKS && m < MAX_BLOCKS && n != m
    ensures PlaceOf(n) != PlaceOf(m)
  {
  }

  // ----- The invariant -----

  /** The bit of zone z (bitmap.c:84-85, 116). */
  function BitOf(first: nat, z: nat): int {
    z - first + 1
  }

  predicate Marked(fs: Fs, first: nat, z: nat) {
    0 <= BitOf(first, z) < |fs.bits| && fs.bits[BitOf(first, z)]
  }

  ghost predicate Shape(fs: Fs, first: nat) {
    1 <= first <= |fs.data| <= 0x10000 && |fs.data| - first < |fs.bits| && fs.bits[0]
  }

  /** Every block in a tree is a data zone marked used. */
  ghost predicate InUse(fs: Fs, first: nat) {
    forall i: nat, p {:trigger At(fs, i, p)} | i < |fs.inode| && IsPlace(p) && At(fs, i, p) != 0 ::
      first <= At(fs, i, p) < |fs.data| && Marked(fs, first, At(fs, i, p))
  }

  /** No block is at two places, in one file or in two. */
  ghost predicate Apart(fs: Fs) {
    forall i: nat, p, j: nat, q {:trigger At(fs, i, p), At(fs, j, q)}
      | i < |fs.inode| && IsPlace(p) && j < |fs.inode| && IsPlace(q) && At(fs, i, p) != 0 && At(fs, i, p) == At(fs, j, q) ::
      i == j && p == q
  }

  ghost predicate Ok(fs: Fs, first: nat) {
    Shape(fs, first) && InUse(fs, first) && Apart(fs)
  }

  // ----- File contents -----

  /** Byte x of file i; a hole reads as zero. */
  function FileByte(fs: Fs, i: nat, x: nat): Byte
    requires i < |fs.inode| && x / BLOCK_SIZE < MAX_BLOCKS
  {
    var z := At(fs, i, PlaceOf(x / BLOCK_SIZE));
    if 0 < z < |fs.data| then fs.data[z][x % BLOCK_SIZE] else 0
  }

  // ----- Writing one place -----

  /** Puts block number f at place p. */
  function SetAt(fs: Fs, i: nat, p: Place, f: nat): Fs
    requires i < |fs.inode| && IsPlace(p) && f < 0x10000
    requires !p.Zone? ==> 0 < Parent(fs, i, p) < |fs.data|
  {
    if p.Zone? then Fs(fs.data, fs.bits, fs.inode[i := Inode(fs.inode[i].zone[p.k := f], fs.inode[i].size, fs.inode[i].mode)])
    else Fs(fs.data[Parent(fs, i, p) := SetPtr(fs.data[Parent(fs, i, p)], Index(p), f)], fs.bits, fs.inode)
  }

  /** f is a zeroed block of the data area that no file uses. */
  ghost predicate Spare(fs: Fs, first: nat, f: nat) {
    && first <= f < |fs.data| && IsClear(fs.data[f]) && Marked(fs, first, f)
    && forall i: nat, p {:trigger At(fs, i, p)} | i < |fs.inode| && IsPlace(p) :: At(fs, i, p) != f
  }

  /**
    Attaching a zeroed block at an empty place changes that place and no other, at any level of any
    tree: the word written belongs to one place only, and the new block's own words are all zero.
  */
  lemma AttachAt(fs: Fs, first: nat, i: nat, p: Place, f: nat, j: nat, q: Place)
    requires Ok(fs, first) && Spare(fs, first, f) && i < |fs.inode| && !fs.inode[i].mode.Other? && IsPlace(p) && At(fs, i, p) == 0
    requires !p.Zone? ==> Parent(fs, i, p) != 0
    requires j < |fs.inode| && IsPlace(q)
    ensures !p.Zone? ==> 0 < Parent(fs, i, p) < |fs.data|
    ensures At(SetAt(fs, i, p, f), j, q) == if j == i && q == p then f else At(fs, j, q)
  {
    if !p.Zone? {
      ParentInRange(fs, first, i, p);
    }
    var fs' := SetAt(fs, i, p, f);
    match q {
      case Zone(_) =>
      case Ind(_) => WordAfter(fs, fs', first, i, p, f, j, q);
      case Mid(_) => WordAfter(fs, fs', first, i, p, f, j, q);
      case Dind(a, _) =>
        WordAfter(fs, fs', first, i, p, f, j, Mid(a));
        WordAfter(fs, fs', first, i, p, f, j, q);
    }
  }

  lemma ParentInRange(fs: Fs, first: nat, i: nat, p: Place)
    requires Ok(fs, first) && i < |fs.inode| && IsPlace(p) && !p.Zone? && Parent(fs, i, p) != 0
    ensures first <= Parent(fs, i, p) < |fs.data|
  {
  }

  lemma WordIsAt(fs: Fs, j: nat, q: Place)
    requires j < |fs.inode| && IsPlace(q) && !q.Zone?
    ensures At(fs, j, q) == PtrIn(fs, Parent(fs, j, q), Index(q))
  {
  }

  /** The word for q after the write, given the block it sits in. */
  lemma WordAfter(fs: Fs, fs': Fs, first: nat, i: nat, p: Place, f: nat, j: nat, q: Place)
    requires Ok(fs, first) && Spare(fs, first, f) && i < |fs.inode| && !fs.inode[i].mode.Other? && IsPlace(p) && At(fs, i, p) == 0
    requires !p.Zone? ==> 0 < Parent(fs, i, p) < |fs.data|
    requires fs' == SetAt(fs, i, p, f) && j < |fs.inode| && IsPlace(q) && !q.Zone?
    requires j == i && Up(q) == p ==> Parent(fs', j, q) == f
    requires j != i || Up(q) != p ==> Parent(fs', j, q) == Parent(fs, j, q)
    ensures j == i && q == p ==> At(fs', j, q) == f
    ensures j != i || q != p ==> At(fs', j, q) == At(fs, j, q)
  {
    WordIsAt(fs, j, q);
    WordIsAt(fs', j, q);
    if j == i && Up(q) == p {
      assert Ptr(fs.data[f], Index(q)) == 0;
    } else if !p.Zone? {
      PtrOfSet(fs.data[Parent(fs, i, p)], Index(p), f, Index(q));
    }
  }

  /** A block no tree contains: whatever it holds, no place and no file byte depends on it. */
  ghost predicate Unowned(fs: Fs, f: nat) {
    forall i: nat, p {:trigger At(fs, i, p)} | i < |fs.inode| && IsPlace(p) :: At(fs, i, p) != f
  }

  lemma UnmarkedIsUnowned(fs: Fs, first: nat, f: nat)
    requires Ok(fs, first) && f != 0 && !Marked(fs, first, f)
    ensures Unowned(fs, f)
  {
  }

  lemma FillUnowned(fs: Fs, first: nat, f: nat, b: Block, i: nat, p: Place)
    requires Ok(fs, first) && f < |fs.data| && Unowned(fs, f) && i < |fs.inode| && IsPlace(p)
    ensures At(Fs(fs.data[f := b], fs.bits, fs.inode), i, p) == At(fs, i, p)
  {
    var fs' := Fs(fs.data[f := b], fs.bits, fs.inode);
    assert At(fs, i, Zone(7)) != f && At(fs, i, Zone(8)) != f;
    match p {
      case Dind(a, _) => assert At(fs, i, Mid(a)) != f && At(fs', i, Mid(a)) == At(fs, i, Mid(a));
      case _ =>
    }
  }

  /** Same places, and the map only gains bits (or loses none of a tree): the invariant carries over. */
  lemma OkAfter(fs: Fs, fs': Fs, first: nat)
    requires Ok(fs, first) && Shape(fs', first) && |fs'.data| == |fs.data| && |fs'.inode| == |fs.inode|
    requires forall i: nat, p {:trigger At(fs', i, p)} | i < |fs.inode| && IsPlace(p) :: At(fs', i, p) == At(fs, i, p)
    requires forall z: nat | first <= z < |fs.data| && Marked(fs, first, z) :: Marked(fs', first, z)
    ensures Ok(fs', first)
  {
    forall i: nat, p | i < |fs'.inode| && IsPlace(p) && At(fs', i, p) != 0
      ensures first <= At(fs', i, p) < |fs'.data| && Marked(fs', first, At(fs', i, p))
    {
      assert At(fs, i, p) == At(fs', i, p);
    }
    forall i: nat, p, j: nat, q
      | i < |fs'.inode| && IsPlace(p) && j < |fs'.inode| && IsPlace(q) && At(fs', i, p) != 0 && At(fs', i, p) == At(fs', j, q)
      ensures i == j && p == q
    {
      assert At(fs, i, p) == At(fs, j, q);
    }
  }

  lemma AttachOk(fs: Fs, first: nat, i: nat, p: Place, f: nat)
    requires Ok(fs, first) && Spare(fs, first, f) && i < |fs.inode| && !fs.inode[i].mode.Other? && IsPlace(p) && At(fs, i, p) == 0
    requires !p.Zone? ==> Parent(fs, i, p) != 0
    ensures !p.Zone? ==> 0 < Parent(fs, i, p) < |fs.data|
    ensures var fs' := SetAt(fs, i, p, f);
      && Ok(fs', first)
      && forall j: nat, q {:trigger At(fs', j, q)} | j < |fs.inode| && IsPlace(q) ::
           At(fs', j, q) == if j == i && q == p then f else At(fs, j, q)
  {
    if !p.Zone? {
      ParentInRange(fs, first, i, p);
    }
    var fs' := SetAt(fs, i, p, f);
    forall j: nat, q | j < |fs.inode| && IsPlace(q)
      ensures At(fs', j, q) == if j == i && q == p then f else At(fs, j, q)
    {
      AttachAt(fs, first, i, p, f, j, q);
    }
    AttachInvariant(fs, fs', first, i, p, f);
  }

  lemma AttachInvariant(fs: Fs, fs': Fs, first: nat, i: nat, p: Place, f: nat)
    requires Ok(fs, first) && Spare(fs, first, f) && i < |fs.inode| && IsPlace(p)
    requires fs'.bits == fs.bits && |fs'.data| == |fs.data| && |fs'.inode| == |fs.inode|
    requires forall j: nat, q {:trigger At(fs', j, q)} | j < |fs.inode| && IsPlace(q) ::
               At(fs', j, q) == if j == i && q == p then f else At(fs, j, q)
    ensures Ok(fs', first)
  {
    forall j: nat, q | j < |fs'.inode| && IsPlace(q) && At(fs', j, q) != 0
      ensures first <= At(fs', j, q) < |fs'.data| && Marked(fs', first, At(fs', j, q))
    {
      assert j != i || q != p ==> At(fs, j, q) == At(fs', j, q);
    }
    forall j: nat, q, k: nat, r
      | j < |fs'.inode| && IsPlace(q) && k < |fs'.inode| && IsPlace(r) && At(fs', j, q) != 0 && At(fs', j, q) == At(fs', k, r)
      ensures j == k && q == r
    {
      assert At(fs, j, q) != f && At(fs, k, r) != f;
    }
  }

  // ----- File bytes under these steps -----

  /** Every byte of every file. */
  ghost predicate SameBytes(fs: Fs, fs': Fs) {
    && |fs'.inode| == |fs.inode|
    && forall i: nat, x: nat {:trigger FileByte(fs', i, x)} | i < |fs.inode| && x / BLOCK_SIZE < MAX_BLOCKS ::
         FileByte(fs', i, x) == FileByte(fs, i, x)
  }

  /** Attaching changes no byte of any file: a hole and a zeroed block read the same. */
  lemma AttachKeepsBytes(fs: Fs, first: nat, i: nat, p: Place, f: nat)
    requires Ok(fs, first) && Spare(fs, first, f) && i < |fs.inode| && !fs.inode[i].mode.Other? && IsPlace(p) && At(fs, i, p) == 0
    requires !p.Zone? ==> Parent(fs, i, p) != 0
    ensures !p.Zone? ==> 0 < Parent(fs, i, p) < |fs.data|
    ensures SameBytes(fs, SetAt(fs, i, p, f))
  {
    if !p.Zone? {
      ParentInRange(fs, first, i, p);
    }
    var fs' := SetAt(fs, i, p, f);
    forall j: nat, x: nat | j < |fs.inode| && x / BLOCK_SIZE < MAX_BLOCKS ensures FileByte(fs', j, x) == FileByte(fs, j, x) {
      var q := PlaceOf(x / BLOCK_SIZE);
      AttachAt(fs, first, i, p, f, j, q);
      var z := At(fs, j, q);
      if !p.Zone? && z != 0 {
        assert At(fs, i, Up(p)) == Parent(fs, i, p);
        assert z != Parent(fs, i, p);
      }
    }
  }

  lemma FillKeepsBytes(fs: Fs, first: nat, f: nat, b: Block)
    requires Ok(fs, first) && f < |fs.data| && Unowned(fs, f)
    ensures SameBytes(fs, Fs(fs.data[f := b], fs.bits, fs.inode))
  {
    var fs' := Fs(fs.data[f := b], fs.bits, fs.inode);
    forall j: nat, x: nat | j < |fs.inode| && x / BLOCK_SIZE < MAX_BLOCKS ensures FileByte(fs', j, x) == FileByte(fs, j, x) {
      FillUnowned(fs, first, f, b, j, PlaceOf(x / BLOCK_SIZE));
    }
  }

  /** Writing a block of file i that holds file bytes moves no block. */
  lemma WriteDataAt(fs: Fs, first: nat, i: nat, n: nat, b: Block, j: nat, q: Place)
    requires Ok(fs, first) && i < |fs.inode| && n < MAX_BLOCKS && At(fs, i, PlaceOf(n)) != 0
    requires j < |fs.inode| && IsPlace(q)
    ensures At(fs, i, PlaceOf(n)) < |fs.data|
    ensures At(Fs(fs.data[At(fs, i, PlaceOf(n)) := b], fs.bits, fs.inode), j, q) == At(fs, j, q)
  {
    var z := At(fs, i, PlaceOf(n));
    var fs' := Fs(fs.data[z := b], fs.bits, fs.inode);
    assert At(fs, j, Zone(7)) != z && At(fs, j, Zone(8)) != z;
    match q {
      case Dind(a, _) => assert At(fs, j, Mid(a)) != z && At(fs', j, Mid(a)) == At(fs, j, Mid(a));
      case _ =>
    }
  }

  /** It changes the bytes of that one kilobyte of that one file. */
  lemma WriteDataBytes(fs: Fs, first: nat, i: nat, n: nat, b: Block, j: nat, x: nat)
    requires Ok(fs, first) && i < |fs.inode| && n < MAX_BLOCKS && At(fs, i, PlaceOf(n)) != 0
    requires j < |fs.inode| && x / BLOCK_SIZE < MAX_BLOCKS
    ensures At(fs, i, PlaceOf(n)) < |fs.data|
    ensures var fs' := Fs(fs.data[At(fs, i, PlaceOf(n)) := b], fs.bits, fs.inode);
      FileByte(fs', j, x) == if j == i && x / BLOCK_SIZE == n then b[x % BLOCK_SIZE] else FileByte(fs, j, x)
  {
    WriteDataAt(fs, first, i, n, b, j, PlaceOf(x / BLOCK_SIZE));
    if x / BLOCK_SIZE != n {
      PlaceOfInjective(x / BLOCK_SIZE, n);
    }
  }
}
