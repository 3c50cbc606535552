/**
  A file as a plain sequence of bytes, and what file_write (linux-0.11/fs/file_dev.c:48-90) does to it.
*/
module FileBytes {
  import opened Bytes
  import opened BlockTree
  import opened BlockGrowth
  import opened BlockRelease

  const MAX_BYTES := MAX_BLOCKS * BLOCK_SIZE

  /** What reading the file from 0 to i_size gives. */
  ghost function Contents(fs: Fs, i: nat): (c: seq<Byte>)
    requires i < |fs.inode| && fs.inode[i].size <= MAX_BYTES
    ensures |c| == fs.inode[i].size && forall x | 0 <= x < |c| :: c[x] == FileByte(fs, i, x)
  {
    seq(fs.inode[i].size, x requires 0 <= x < fs.inode[i].size => FileByte(fs, i, x))
  }

  /**
    The bytes at and past i_size in the blocks a file has are zero, so that a write past the end of
    the file extends it with zeros.
  */
  ghost predicate ZeroPast(fs: Fs) {
    forall i: nat, x: nat {:trigger FileByte(fs, i, x)} | i < |fs.inode| && fs.inode[i].size <= x < MAX_BYTES :: FileByte(fs, i, x) == 0
  }

  function Zeros(n: int): (z: seq<Byte>)
    ensures |z| == (if n > 0 then n else 0) && forall k | 0 <= k < |z| :: z[k] == 0
  {
    if n > 0 then seq(n, _ => 0) else []
  }

  /** c, zero-extended up to pos if it is shorter, with bytes laid over it at pos. */
  function Overlay(c: seq<Byte>, pos: nat, bytes: seq<Byte>): (r: seq<Byte>)
    ensures |r| == (if |c| > pos + |bytes| then |c| else pos + |bytes|)
    ensures forall x | 0 <= x < |r| :: r[x] == if pos <= x < pos + |bytes| then bytes[x - pos] else if x < |c| then c[x] else 0
  {
    var padded := c + Zeros(pos - |c|);
    padded[..pos] + bytes + (if |padded| > pos + |bytes| then padded[pos + |bytes|..] else [])
  }

  /** State fs is fs0 after bytes have been written to file i from offset pos on. */
  ghost predicate Written(fs0: Fs, fs: Fs, first: nat, i: nat, pos: nat, bytes: seq<Byte>)
    requires i < |fs0.inode|
  {
    && Ok(fs, first) && |fs.inode| == |fs0.inode| && |fs.data| == |fs0.data| && |fs.bits| == |fs0.bits|
    && fs.inode[i].mode == fs0.inode[i].mode
    && fs.inode[i].size == (if bytes == [] || fs0.inode[i].size > pos + |bytes| then fs0.inode[i].size else pos + |bytes|)
    && (forall j | 0 <= j < |fs0.inode| && j != i :: fs.inode[j].size == fs0.inode[j].size && fs.inode[j].mode == fs0.inode[j].mode)
    && (forall j: nat, x: nat {:trigger FileByte(fs, j, x)} | j < |fs0.inode| && x / BLOCK_SIZE < MAX_BLOCKS ::
          FileByte(fs, j, x) == if j == i && pos <= x < pos + |bytes| then bytes[x - pos] else FileByte(fs0, j, x))
    && (forall j: nat, q {:trigger At(fs, j, q)} | j < |fs0.inode| && j != i && IsPlace(q) :: At(fs, j, q) == At(fs0, j, q))
  }

  lemma WrittenNothing(fs: Fs, first: nat, i: nat, pos: nat)
    requires Ok(fs, first) && i < |fs.inode|
    ensures Written(fs, fs, first, i, pos, [])
  {
  }

  lemma WrittenShape(fs0: Fs, fs: Fs, first: nat, i: nat, pos: nat, bytes: seq<Byte>)
    requires i < |fs0.inode| && Written(fs0, fs, first, i, pos, bytes)
    ensures Ok(fs, first) && |fs.inode| == |fs0.inode| && fs.inode[i].mode == fs0.inode[i].mode
    ensures fs.inode[i].size == (if bytes == [] || fs0.inode[i].size > pos + |bytes| then fs0.inode[i].size else pos + |bytes|)
  {
  }

  /** Growing the file writes nothing. */
  lemma WrittenGrows(fs0: Fs, fs: Fs, fs': Fs, first: nat, i: nat, pos: nat, bytes: seq<Byte>, n: nat)
    requires i < |fs0.inode| && n < MAX_BLOCKS && Written(fs0, fs, first, i, pos, bytes)
    requires Ok(fs', first) && Grown(fs, fs', first, i, n)
    ensures Written(fs0, fs', first, i, pos, bytes)
  {
    forall j: nat, x: nat | j < |fs0.inode| && x / BLOCK_SIZE < MAX_BLOCKS
      ensures FileByte(fs', j, x) == if j == i && pos <= x < pos + |bytes| then bytes[x - pos] else FileByte(fs0, j, x)
    {
      assert FileByte(fs', j, x) == FileByte(fs, j, x);
    }
    forall j: nat, q | j < |fs0.inode| && j != i && IsPlace(q) ensures At(fs', j, q) == At(fs0, j, q) {
      assert At(fs', j, q) == At(fs, j, q);
    }
  }

  /** i_size has no part in where blocks are. */
  lemma SizeDoesNotMatter(fs: Fs, fs': Fs, i: nat, p: Place)
    requires fs'.data == fs.data && |fs'.inode| == |fs.inode| && i < |fs.inode| && IsPlace(p)
    requires fs'.inode[i].zone == fs.inode[i].zone && fs'.inode[i].mode == fs.inode[i].mode
    ensures At(fs', i, p) == At(fs, i, p)
  {
  }

  /** One turn of the loop: more goes into the block that holds offset pos + |bytes|. */
  lemma WrittenBlock(fs0: Fs, fs: Fs, fs': Fs, first: nat, i: nat, pos: nat, bytes: seq<Byte>, more: seq<Byte>, b: Block)
    requires i < |fs0.inode| && Written(fs0, fs, first, i, pos, bytes) && more != []
    requires var at := pos + |bytes|; var n := at / BLOCK_SIZE; var c := at % BLOCK_SIZE;
      && n < MAX_BLOCKS && At(fs, i, PlaceOf(n)) != 0 && At(fs, i, PlaceOf(n)) < |fs.data| && c + |more| <= BLOCK_SIZE
      && fs'.data == fs.data[At(fs, i, PlaceOf(n)) := b]
      && (forall k | 0 <= k < BLOCK_SIZE :: b[k] == if c <= k < c + |more| then more[k - c] else fs.data[At(fs, i, PlaceOf(n))][k])
    requires fs'.bits == fs.bits
    requires fs'.inode == fs.inode[i := fs.inode[i].(size :=
               if pos + |bytes| + |more| > fs.inode[i].size then pos + |bytes| + |more| else fs.inode[i].size)]
    ensures Written(fs0, fs', first, i, pos, bytes + more)
  {
    var at := pos + |bytes|;
    var n := at / BLOCK_SIZE;
    var mid := Fs(fs'.data, fs.bits, fs.inode);
    forall j: nat, q | j < |fs0.inode| && IsPlace(q) ensures At(fs', j, q) == At(fs, j, q) {
      WriteDataAt(fs, first, i, n, b, j, q);
      SizeDoesNotMatter(mid, fs', j, q);
    }
    OkAfter(fs, fs', first);
    forall j: nat, x: nat | j < |fs0.inode| && x / BLOCK_SIZE < MAX_BLOCKS
      ensures FileByte(fs', j, x) == if j == i && pos <= x < pos + |bytes + more| then (bytes + more)[x - pos] else FileByte(fs0, j, x)
    {
      SizeDoesNotMatter(mid, fs', j, PlaceOf(x / BLOCK_SIZE));
      assert FileByte(fs', j, x) == FileByte(mid, j, x);
      BytesInBlock(fs, first, i, at, more, b, j, x);
      assert FileByte(fs, j, x) == if j == i && pos <= x < at then bytes[x - pos] else FileByte(fs0, j, x);
      assert j == i && at <= x < at + |more| ==> (bytes + more)[x - pos] == more[x - at];
    }
  }

  lemma BytesInBlock(fs: Fs, first: nat, i: nat, at: nat, more: seq<Byte>, b: Block, j: nat, x: nat)
    requires Ok(fs, first) && i < |fs.inode| && j < |fs.inode| && x / BLOCK_SIZE < MAX_BLOCKS && more != []
    requires var n := at / BLOCK_SIZE; var c := at % BLOCK_SIZE;
      && n < MAX_BLOCKS && At(fs, i, PlaceOf(n)) != 0 && At(fs, i, PlaceOf(n)) < |fs.data| && c + |more| <= BLOCK_SIZE
      && forall k | 0 <= k < BLOCK_SIZE :: b[k] == if c <= k < c + |more| then more[k - c] else fs.data[At(fs, i, PlaceOf(n))][k]
    ensures var z := At(fs, i, PlaceOf(at / BLOCK_SIZE));
      FileByte(Fs(fs.data[z := b], fs.bits, fs.inode), j, x)
        == if j == i && at <= x < at + |more| then more[x - at] else FileByte(fs, j, x)
  {
    WriteDataBytes(fs, first, i, at / BLOCK_SIZE, b, j, x);
    OffsetInBlock(at, |more|, x);
  }

  /** A run of bytes that stays in one block. */
  lemma OffsetInBlock(at: nat, len: nat, x: nat)
    requires 0 < len && at % BLOCK_SIZE + len <= BLOCK_SIZE
    ensures at <= x < at + len <==> x / BLOCK_SIZE == at / BLOCK_SIZE && at % BLOCK_SIZE <= x % BLOCK_SIZE < at % BLOCK_SIZE + len
    ensures at <= x < at + len ==> x % BLOCK_SIZE - at % BLOCK_SIZE == x - at
  {
  }

  /** The file as a sequence after a write that took at least one byte: the old contents, overlaid. */
  lemma WrittenContents(fs0: Fs, fs: Fs, first: nat, i: nat, pos: nat, bytes: seq<Byte>)
    requires i < |fs0.inode| && Written(fs0, fs, first, i, pos, bytes) && bytes != []
    requires ZeroPast(fs0) && fs0.inode[i].size <= MAX_BYTES && pos + |bytes| <= MAX_BYTES
    ensures Contents(fs, i) == Overlay(Contents(fs0, i), pos, bytes)
  {
    var c, r := Contents(fs, i), Overlay(Contents(fs0, i), pos, bytes);
    forall x | 0 <= x < |c| ensures c[x] == r[x] {
      assert c[x] == FileByte(fs, i, x);
      assert FileByte(fs0, i, x) == if x < fs0.inode[i].size then Contents(fs0, i)[x] else 0;
    }
  }

  lemma WrittenNoContents(fs0: Fs, fs: Fs, first: nat, i: nat, pos: nat)
    requires i < |fs0.inode| && Written(fs0, fs, first, i, pos, []) && fs0.inode[i].size <= MAX_BYTES
    ensures Contents(fs, i) == Contents(fs0, i)
  {
  }

  lemma WrittenZeroPast(fs0: Fs, fs: Fs, first: nat, i: nat, pos: nat, bytes: seq<Byte>)
    requires i < |fs0.inode| && Written(fs0, fs, first, i, pos, bytes) && ZeroPast(fs0)
    ensures ZeroPast(fs)
  {
    forall j: nat, x: nat | j < |fs.inode| && fs.inode[j].size <= x < MAX_BYTES ensures FileByte(fs, j, x) == 0 {
      assert FileByte(fs0, j, x) == 0;
    }
  }

  lemma WrittenOtherContents(fs0: Fs, fs: Fs, first: nat, i: nat, pos: nat, bytes: seq<Byte>, j: nat)
    requires i < |fs0.inode| && Written(fs0, fs, first, i, pos, bytes)
    requires j < |fs0.inode| && j != i && fs0.inode[j].size <= MAX_BYTES
    ensures Contents(fs, j) == Contents(fs0, j)
  {
  }

  // ----- All files of a device, over a run of operations -----

  ghost predicate SizesOk(fs: Fs) {
    forall i | 0 <= i < |fs.inode| :: fs.inode[i].size <= MAX_BYTES
  }

  ghost function Files(fs: Fs): (files: seq<seq<Byte>>)
    requires SizesOk(fs)
    ensures |files| == |fs.inode| && forall i | 0 <= i < |files| :: files[i] == Contents(fs, i)
  {
    seq(|fs.inode|, i requires 0 <= i < |fs.inode| => Contents(fs, i))
  }

  /** Writing at an offset, appending, and truncating. */
  datatype Op = Put(i: nat, pos: nat, buf: seq<Byte>) | Append(i: nat, buf: seq<Byte>) | Cut(i: nat, held: set<nat>)

  /** What the operation means for files that are plain byte sequences, n being the bytes it took. */
  function Apply(files: seq<seq<Byte>>, op: Op, n: nat): (r: seq<seq<Byte>>)
    ensures |r| == |files|
  {
    if op.i >= |files| then files else
    match op
    case Put(i, pos, buf) => if 0 < n <= |buf| then files[i := Overlay(files[i], pos, buf[..n])] else files
    case Append(i, buf) => if 0 < n <= |buf| then files[i := files[i] + buf[..n]] else files
    case Cut(i, _) => if n == 0 then files else files[i := []]
  }

  function ApplyAll(files: seq<seq<Byte>>, ops: seq<Op>, taken: seq<nat>): (r: seq<seq<Byte>>)
    requires |taken| == |ops|
    ensures |r| == |files|
  {
    if ops == [] then files
    else var k := |ops| - 1; Apply(ApplyAll(files, ops[..k], taken[..k]), ops[k], taken[k])
  }

  /** The system call layer does not let the operation through, or it would leave the block tree. */
  predicate Refused(fs: Fs, op: Op) {
    || op.i >= |fs.inode| || !fs.inode[op.i].mode.Regular?
    || match op
       case Put(i, pos, buf) => pos + |buf| > MAX_BYTES
       case Append(i, buf) => fs.inode[i].size + |buf| > MAX_BYTES
       case Cut(_, _) => false
  }

  /**
    One operation of a run: one that is refused leaves the device alone, a write takes everything or
    fills the device, a truncate happens.
  */
  ghost predicate Did(fs: Fs, op: Op, n: nat, fs': Fs, first: nat) {
    && SizesOk(fs) && SizesOk(fs') && Files(fs') == Apply(Files(fs), op, n)
    && if Refused(fs, op) then n == 0 && fs' == fs
       else match op
            case Put(_, _, buf) => n <= |buf| && (n == |buf| || Full(fs', first))
            case Append(_, buf) => n <= |buf| && (n == |buf| || Full(fs', first))
            case Cut(_, _) => n == 1
  }

  lemma OverlayAtEnd(c: seq<Byte>, bytes: seq<Byte>)
    ensures Overlay(c, |c|, bytes) == c + bytes
  {
  }

  /** A write through to the sequences. */
  lemma WrittenFiles(fs0: Fs, fs: Fs, first: nat, i: nat, pos: nat, bytes: seq<Byte>)
    requires i < |fs0.inode| && Written(fs0, fs, first, i, pos, bytes) && ZeroPast(fs0) && SizesOk(fs0) && pos + |bytes| <= MAX_BYTES
    ensures SizesOk(fs) && ZeroPast(fs)
    ensures Files(fs) == if bytes == [] then Files(fs0) else Files(fs0)[i := Overlay(Files(fs0)[i], pos, bytes)]
  {
    WrittenZeroPast(fs0, fs, first, i, pos, bytes);
    forall j | 0 <= j < |fs.inode| ensures fs.inode[j].size <= MAX_BYTES {
      assert j != i ==> fs.inode[j].size == fs0.inode[j].size;
    }
    forall j | 0 <= j < |fs.inode| && j != i ensures Contents(fs, j) == Contents(fs0, j) {
      WrittenOtherContents(fs0, fs, first, i, pos, bytes, j);
    }
    if bytes != [] {
      WrittenContents(fs0, fs, first, i, pos, bytes);
    } else {
      WrittenNoContents(fs0, fs, first, i, pos);
    }
  }

  /** Truncating empties the one file and keeps the rule about bytes past the end. */
  lemma TruncatedFiles(fs0: Fs, fs: Fs, first: nat, i: nat, held: set<nat>)
    requires i < |fs0.inode| && Truncated(fs0, fs, first, i, held) && ZeroPast(fs0) && SizesOk(fs0)
    ensures SizesOk(fs) && ZeroPast(fs) && Files(fs) == Files(fs0)[i := []]
  {
    forall j: nat, x: nat | j < |fs.inode| && fs.inode[j].size <= x < MAX_BYTES ensures FileByte(fs, j, x) == 0 {
      assert j != i ==> FileByte(fs0, j, x) == 0;
    }
    forall j | 0 <= j < |fs.inode| && j != i ensures Contents(fs, j) == Contents(fs0, j) {
      assert fs.inode[j] == fs0.inode[j];
      forall x: nat | x < fs.inode[j].size ensures FileByte(fs, j, x) == FileByte(fs0, j, x) {
      }
    }
  }
}
