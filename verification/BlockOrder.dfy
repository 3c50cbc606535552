/**
  A file's blocks in file order: the seven direct zones, the words of the indirect block, and the words
  of each block the double indirect block names in turn.  This is the order in which
  linux-0.11/fs/truncate.c visits them, with none of the arithmetic of _bmap.
*/
module BlockOrder {
  import opened Bytes
  import opened BlockTree
  import opened FileBytes

  /** 16-bit words, low byte first. */
  function Words(b: seq<Byte>): seq<nat>
    requires |b| % 2 == 0
  {
    if b == [] then [] else [(b[0] as int) + 256 * (b[1] as int)] + Words(b[2..])
  }

  /** The words of a pointer block; a missing one is all holes. */
  function WordsAt(data: seq<Block>, z: nat): seq<nat> {
    if 0 < z < |data| then Words(data[z]) else seq(PTRS, _ => 0)
  }

  function WordsBelow(data: seq<Block>, zs: seq<nat>): seq<nat> {
    if zs == [] then [] else WordsAt(data, zs[0]) + WordsBelow(data, zs[1..])
  }

  /** The blocks with the bytes of a file, first to last; 0 is a hole. */
  function DataBlocks(data: seq<Block>, zone: Zones): seq<nat> {
    zone[..7] + WordsAt(data, zone[7]) + WordsBelow(data, WordsAt(data, zone[8]))
  }

  /** What the blocks of a list hold, one after the other. */
  function BytesOf(data: seq<Block>, zs: seq<nat>): seq<Byte> {
    if zs == [] then [] else (if 0 < zs[0] < |data| then data[zs[0]] else seq(BLOCK_SIZE, _ => 0)) + BytesOf(data, zs[1..])
  }

  lemma {:induction false} WordsIndex(b: seq<Byte>, j: nat)
    requires |b| % 2 == 0 && j < |b| / 2
    ensures |Words(b)| == |b| / 2 && Words(b)[j] == (b[2 * j] as int) + 256 * (b[2 * j + 1] as int)
  {
    if |b| == 2 {
      assert Words(b[2..]) == [];
    } else if j == 0 {
      WordsIndex(b[2..], 0);
    } else {
      WordsIndex(b[2..], j - 1);
    }
  }

  lemma WordsAtIndex(data: seq<Block>, z: nat, j: nat)
    requires j < PTRS
    ensures |WordsAt(data, z)| == PTRS && WordsAt(data, z)[j] == if 0 < z < |data| then Ptr(data[z], j) else 0
  {
    if 0 < z < |data| {
      WordsIndex(data[z], j);
    }
  }

  lemma WordsAtLength(data: seq<Block>, z: nat)
    ensures |WordsAt(data, z)| == PTRS
  {
    WordsAtIndex(data, z, 0);
  }

  lemma {:induction false} WordsBelowLength(data: seq<Block>, zs: seq<nat>)
    ensures |WordsBelow(data, zs)| == PTRS * |zs|
  {
    hide WordsAt;
    if zs != [] {
      WordsAtLength(data, zs[0]);
      WordsBelowLength(data, zs[1..]);
    }
  }

  /** Word j of the a-th block is number 512 * a + j of all. */
  lemma {:induction false} WordsBelowIndex(data: seq<Block>, zs: seq<nat>, a: nat, j: nat)
    requires a < |zs| && j < PTRS
    ensures |WordsAt(data, zs[a])| == PTRS && PTRS * a + j < |WordsBelow(data, zs)|
    ensures WordsBelow(data, zs)[PTRS * a + j] == WordsAt(data, zs[a])[j]
  {
    hide WordsAt;
    var first, rest := WordsAt(data, zs[0]), WordsBelow(data, zs[1..]);
    WordsAtLength(data, zs[0]);
    WordsBelowLength(data, zs[1..]);
    assert WordsBelow(data, zs) == first + rest;
    hide WordsBelow;
    if a == 0 {
      assert (first + rest)[j] == first[j];
    } else {
      WordsBelowIndex(data, zs[1..], a - 1, j);
      assert zs[1..][a - 1] == zs[a];
      assert (first + rest)[PTRS * a + j] == rest[PTRS * (a - 1) + j];
    }
  }

  lemma InThreeParts(a: seq<nat>, b: seq<nat>, c: seq<nat>, n: nat)
    requires n < |a| + |b| + |c|
    ensures (a + b + c)[n] == if n < |a| then a[n] else if n < |a| + |b| then b[n - |a|] else c[n - |a| - |b|]
  {
  }

  /** Element n of the list is what bmap finds for block n. */
  lemma PlaceInOrder(fs: Fs, i: nat, n: nat)
    requires i < |fs.inode| && !fs.inode[i].mode.Other? && n < MAX_BLOCKS
    ensures |DataBlocks(fs.data, fs.inode[i].zone)| == MAX_BLOCKS
    ensures DataBlocks(fs.data, fs.inode[i].zone)[n] == At(fs, i, PlaceOf(n))
  {
    hide WordsAt, WordsBelow;
    var data, zone := fs.data, fs.inode[i].zone;
    var ind, top := WordsAt(data, zone[7]), WordsAt(data, zone[8]);
    var below := WordsBelow(data, top);
    WordsAtLength(data, zone[7]);
    WordsAtLength(data, zone[8]);
    WordsBelowLength(data, top);
    InThreeParts(zone[..7], ind, below, n);
    if 7 <= n < 519 {
      WordsAtIndex(data, zone[7], n - 7);
    } else if 519 <= n {
      DoubleInOrder(data, zone, (n - 519) / 512, (n - 519) % 512);
      assert PTRS * ((n - 519) / 512) + (n - 519) % 512 == n - 519;
    }
  }

  lemma DoubleInOrder(data: seq<Block>, zone: Zones, a: nat, j: nat)
    requires a < PTRS && j < PTRS
    ensures |WordsAt(data, zone[8])| == PTRS
    ensures PTRS * a + j < |WordsBelow(data, WordsAt(data, zone[8]))|
    ensures WordsBelow(data, WordsAt(data, zone[8]))[PTRS * a + j] ==
            var mid := if 0 < zone[8] < |data| then Ptr(data[zone[8]], a) else 0;
            if 0 < mid < |data| then Ptr(data[mid], j) else 0
  {
    var top := WordsAt(data, zone[8]);
    WordsAtIndex(data, zone[8], a);
    WordsAtIndex(data, top[a], j);
    WordsBelowIndex(data, top, a, j);
  }

  lemma {:induction false} ByteInOrder(data: seq<Block>, zs: seq<nat>, x: nat)
    requires x < BLOCK_SIZE * |zs|
    ensures |BytesOf(data, zs)| == BLOCK_SIZE * |zs|
    ensures var z := zs[x / BLOCK_SIZE];
      BytesOf(data, zs)[x] == if 0 < z < |data| then data[z][x % BLOCK_SIZE] else 0
  {
    if |zs| == 1 {
      assert BytesOf(data, zs[1..]) == [];
    } else if x < BLOCK_SIZE {
      ByteInOrder(data, zs[1..], 0);
    } else {
      ByteInOrder(data, zs[1..], x - BLOCK_SIZE);
    }
  }

  lemma FileByteInOrder(fs: Fs, i: nat, x: nat)
    requires i < |fs.inode| && !fs.inode[i].mode.Other? && x / BLOCK_SIZE < MAX_BLOCKS
    ensures var bytes := BytesOf(fs.data, DataBlocks(fs.data, fs.inode[i].zone));
      |bytes| == BLOCK_SIZE * MAX_BLOCKS && bytes[x] == FileByte(fs, i, x)
  {
    PlaceInOrder(fs, i, x / BLOCK_SIZE);
    ByteInOrder(fs.data, DataBlocks(fs.data, fs.inode[i].zone), x);
  }

  /** A file is what its blocks hold, in this order, up to its size. */
  lemma FileInOrder(fs: Fs, i: nat)
    requires i < |fs.inode| && !fs.inode[i].mode.Other? && fs.inode[i].size <= MAX_BYTES
    ensures var bytes := BytesOf(fs.data, DataBlocks(fs.data, fs.inode[i].zone));
      |bytes| == MAX_BYTES && Contents(fs, i) == bytes[..fs.inode[i].size]
  {
    FileByteInOrder(fs, i, 0);
    forall x: nat | x < fs.inode[i].size
      ensures Contents(fs, i)[x] == BytesOf(fs.data, DataBlocks(fs.data, fs.inode[i].zone))[x]
    {
      FileByteInOrder(fs, i, x);
    }
  }
}
