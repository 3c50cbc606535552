/**
  linux-0.11/fs/bitmap.c, inode.c (_bmap), truncate.c and file_dev.c over one device.  Blocks are read
  and written through the buffer cache, which is taken to be transparent, and no I/O error occurs.
*/
module FileSystem {
  import opened Bytes
  import opened BlockTree
  import opened BlockGrowth
  import opened BlockRelease
  import opened FileBytes
  import opened BlockOrder

  const ZMAP_BITS := 8192       // bits in one block of the map

  /** An open file: f_pos, and whether f_flags has O_APPEND. */
  class File {
    var pos: nat
    const append: bool

    constructor (append: bool)
      ensures pos == 0 && this.append == append
    {
      pos, this.append := 0, append;
    }
  }

  class Device {
    const first: nat                  // s_firstdatazone
    const data: array<Block>          // all s_nzones blocks
    const zmap: array<bool>           // the loaded zone map blocks, one after another
    const inode: array<Inode>         // the inodes of the device

    constructor (first: nat, data: array<Block>, zmap: array<bool>, inode: array<Inode>)
      requires zmap.Length % ZMAP_BITS == 0 && zmap.Length <= 8 * ZMAP_BITS
      requires Ok(Fs(data[..], zmap[..], inode[..]), first)
      ensures Valid() && this.first == first && this.data == data && this.zmap == zmap && this.inode == inode
    {
      this.first, this.data, this.zmap, this.inode := first, data, zmap, inode;
    }

    ghost function Abs(): Fs
      reads data, zmap, inode
    {
      Fs(data[..], zmap[..], inode[..])
    }

    ghost predicate Valid()
      reads data, zmap, inode
    {
      zmap.Length % ZMAP_BITS == 0 && zmap.Length <= 8 * ZMAP_BITS && Ok(Abs(), first)
    }

    // ----- bitmap.c -----

    /** find_first_zero (bitmap.c:41-58) on map block i. */
    method FindFirstZero(i: nat) returns (j: nat)
      requires zmap.Length % ZMAP_BITS == 0 && (i + 1) * 8192 <= zmap.Length
      ensures j <= ZMAP_BITS && (j < ZMAP_BITS ==> !zmap[i * 8192 + j])
      ensures forall k | i * 8192 <= k < i * 8192 + j :: zmap[k]
    {
      j := 0;
      while j < ZMAP_BITS && zmap[i * 8192 + j]
        invariant j <= ZMAP_BITS && forall k | i * 8192 <= k < i * 8192 + j :: zmap[k]
      {
        j := j + 1;
      }
    }

    /**
      bitmap.c:93-132: the lowest free zone, marked and cleared.  When only bits past the last zone are
      free, one of them is set although 0 is returned.
    */
    method NewBlock() returns (z: nat)
      requires Valid()
      modifies data, zmap
      ensures z != 0 ==> Allocated(old(Abs()), Abs(), first, z)
      ensures z != 0 ==> first <= z < data.Length && 0 <= z - first + 1 < zmap.Length && !old(zmap[z - first + 1])
      ensures z != 0 ==> zmap[..] == old(zmap[..])[z - first + 1 := true] && forall k | 0 <= k < 1024 :: data[z][k] == 0
      ensures z != 0 ==> forall y: nat | first <= y < z :: old(Marked(Abs(), first, y))
      ensures z == 0 ==> Valid() && Full(old(Abs()), first) && data[..] == old(data[..]) && SameMap(old(Abs()), Abs(), first)
    {
      ghost var fs := Abs();
      var slots := zmap.Length / ZMAP_BITS;
      var i: nat, j: nat := 0, ZMAP_BITS;
      while i < slots && j == ZMAP_BITS
        invariant i <= slots && slots * 8192 == zmap.Length && j <= ZMAP_BITS
        invariant j < ZMAP_BITS ==> i * 8192 + j < zmap.Length && !zmap[i * 8192 + j]
        invariant Abs() == fs
        invariant forall k | 0 <= k < i * 8192 + (if j == ZMAP_BITS then 0 else j) :: zmap[k]
        decreases slots - i, j
      {
        j := FindFirstZero(i);
        if j == ZMAP_BITS {
          i := i + 1;
        }
      }
      if j == ZMAP_BITS {
        return 0;
      }
      ghost var b := i * 8192 + j;
      zmap[i * 8192 + j] := true;
      assert zmap[..] == fs.bits[b := true];
      var n := i * 8192 + j + first - 1;
      if n >= data.Length {
        PaddingBit(fs, Abs(), first, b);
        return 0;
      }
      data[n] := seq(BLOCK_SIZE, _ => 0);
      assert data[..] == fs.data[n := data[n]];
      z := n;
    }

    /**
      bitmap.c:60-91; a zone outside the data area or already free is a panic.  held tells whether
      somebody else holds the block's buffer: then it stays as it is.
    */
    method FreeBlock(z: nat, held: bool)
      requires first <= z < data.Length && 0 <= BitOf(first, z) < zmap.Length && zmap[BitOf(first, z)]
      modifies data, zmap
      ensures held ==> Abs() == old(Abs())
      ensures !held ==> zmap[..] == old(zmap[..])[z - first + 1 := false]
      ensures forall y: nat | y < data.Length && y != z :: data[y] == old(data[y])
    {
      if held {
        return;
      }
      var stale: Block := *;      // a dirty cached copy is dropped
      data[z] := stale;
      zmap[z - first + 1] := false;
    }

    // ----- inode.c -----

    /** i_zone[k], given a block first when create asks for one (inode.c:83-88, 95-102, 121-126). */
    method ZoneWord(i: nat, k: nat, create: bool, ghost n: nat) returns (z: nat)
      requires Valid() && i < inode.Length && !inode[i].mode.Other? && n < MAX_BLOCKS && k < 9 && Zone(k) in Path(n)
      modifies data, zmap, inode
      ensures Valid() && Grown(old(Abs()), Abs(), first, i, n)
      ensures z == At(Abs(), i, Zone(k)) && (!create ==> Abs() == old(Abs()))
      ensures create && z == 0 ==> Full(Abs(), first)
    {
      ghost var fs := Abs();
      GrownRefl(fs, first, i, n);
      z := inode[i].zone[k];
      if create && z == 0 {
        z := NewBlock();
        ghost var fs1 := Abs();
        if z == 0 {
          FailedGrows(fs, fs1, first, i, n);
          return;
        }
        AttachGrows(fs, fs1, first, i, n, Zone(k), z);
        inode[i] := Inode(inode[i].zone[k := z], inode[i].size, inode[i].mode);
        assert Abs() == SetAt(fs1, i, Zone(k), z);
      }
    }

    /** The word for place p in its pointer block bh (inode.c:105-113, 129-134, 140-145). */
    method BlockWord(i: nat, p: Place, bh: nat, create: bool, ghost n: nat) returns (z: nat)
      requires Valid() && i < inode.Length && !inode[i].mode.Other? && n < MAX_BLOCKS
      requires p in Path(n) && !p.Zone? && bh == Parent(Abs(), i, p) && bh != 0
      modifies data, zmap, inode
      ensures Valid() && Grown(old(Abs()), Abs(), first, i, n)
      ensures z == At(Abs(), i, p) && (!create ==> Abs() == old(Abs()))
      ensures create && z == 0 ==> Full(Abs(), first)
    {
      ghost var fs := Abs();
      GrownRefl(fs, first, i, n);
      ParentInRange(fs, first, i, p);
      WordIsAt(fs, i, p);
      z := Ptr(data[bh], Index(p));
      if create && z == 0 {
        z := NewBlock();
        ghost var fs1 := Abs();
        if z == 0 {
          FailedGrows(fs, fs1, first, i, n);
          BitsDoNotMatter(fs, fs1, i, p);
          return;
        }
        AttachGrows(fs, fs1, first, i, n, p, z);
        data[bh] := SetPtr(data[bh], Index(p), z);
        assert Abs() == SetAt(fs1, i, p, z);
      }
    }

    /** create_block (inode.c:156-159) with create, else bmap (inode.c:151-154). */
    method Bmap(i: nat, n: nat, create: bool) returns (z: nat)
      requires Valid() && i < inode.Length && !inode[i].mode.Other? && n < MAX_BLOCKS
      modifies data, zmap, inode
      ensures Valid() && Grown(old(Abs()), Abs(), first, i, n) && OthersMapped(old(Abs()), Abs(), i, n)
      ensures z == At(Abs(), i, PlaceOf(n)) && (!create ==> Abs() == old(Abs()))
      ensures var blocks := DataBlocks(data[..], inode[i].zone); |blocks| == MAX_BLOCKS && z == blocks[n]
      ensures create && z == 0 ==> Full(Abs(), first)
    {
      z := Walk(i, n, create);
      PlaceInOrder(Abs(), i, n);
    }

    /** _bmap (inode.c:72-149). */
    method Walk(i: nat, n: nat, create: bool) returns (z: nat)
      requires Valid() && i < inode.Length && !inode[i].mode.Other? && n < MAX_BLOCKS
      modifies data, zmap, inode
      ensures Valid() && Grown(old(Abs()), Abs(), first, i, n) && OthersMapped(old(Abs()), Abs(), i, n)
      ensures z == At(Abs(), i, PlaceOf(n)) && (!create ==> Abs() == old(Abs()))
      ensures create && z == 0 ==> Full(Abs(), first)
    {
      ghost var fs0 := Abs();
      if n < 7 {
        z := ZoneWord(i, n, create, n);
        GrownMapsOthers(fs0, Abs(), first, i, n);
        return;
      }
      if n - 7 < 512 {
        var bh := ZoneWord(i, 7, create, n);
        GrownMapsOthers(fs0, Abs(), first, i, n);
        if bh == 0 {
          return 0;
        }
        ghost var fs1 := Abs();
        z := BlockWord(i, Ind(n - 7), bh, create, n);
        GrownTrans(fs0, fs1, Abs(), first, i, n);
        GrownMapsOthers(fs0, Abs(), first, i, n);
        return;
      }
      var block := n - 7 - 512;
      var bh := ZoneWord(i, 8, create, n);
      GrownMapsOthers(fs0, Abs(), first, i, n);
      if bh == 0 {
        return 0;
      }
      ghost var fs1 := Abs();
      bh := BlockWord(i, Mid(block / 512), bh, create, n);
      GrownTrans(fs0, fs1, Abs(), first, i, n);
      GrownMapsOthers(fs0, Abs(), first, i, n);
      if bh == 0 {
        return 0;
      }
      ghost var fs2 := Abs();
      z := BlockWord(i, Dind(block / 512, block % 512), bh, create, n);
      GrownTrans(fs0, fs2, Abs(), first, i, n);
      GrownMapsOthers(fs0, Abs(), first, i, n);
    }

    // ----- truncate.c -----

    /**
      free_block on the block at place p, part of a truncate of file i that started in state fs0 and has
      released the places in gone.  The block is still marked, so this is not the "already cleared" panic.
    */
    method FreeAt(z: nat, held: set<nat>, ghost fs0: Fs, ghost i: nat, ghost gone: iset<Place>, ghost p: Place)
      requires Ok(fs0, first) && i < |fs0.inode| && Released(fs0, Abs(), first, i, held, gone)
      requires IsPlace(p) && p !in gone && z == At(fs0, i, p) && z != 0
      modifies data, zmap
      ensures Released(fs0, Abs(), first, i, held, gone + iset{p})
    {
      ghost var fs := Abs();
      StillMarked(fs0, fs, first, i, held, gone, p);
      FreeBlock(z, z in held);
      ReleaseStep(fs0, fs, Abs(), first, i, held, gone, p);
    }

    /** truncate.c:11-30, for the pointer block at place p. */
    method FreeInd(block: nat, held: set<nat>, ghost fs0: Fs, ghost i: nat, ghost gone: iset<Place>, ghost p: Place)
      requires Ok(fs0, first) && i < |fs0.inode| && !fs0.inode[i].mode.Other? && Released(fs0, Abs(), first, i, held, gone)
      requires p == Zone(7) || (p.Mid? && IsPlace(p))
      requires block == At(fs0, i, p) && gone !! Below(p)
      modifies data, zmap
      ensures Released(fs0, Abs(), first, i, held, gone + Below(p))
    {
      if block == 0 {
        ReleaseNothing(fs0, Abs(), first, i, held, gone, Below(p));
        return;
      }
      ghost var done := gone;
      var k := 0;
      while k < PTRS
        invariant k <= PTRS
        invariant done == gone + (iset q | IsPlace(q) && !q.Zone? && Up(q) == p && Index(q) < k)
        invariant Released(fs0, Abs(), first, i, held, done)
      {
        ghost var q := Child(p, k);
        StillMarked(fs0, Abs(), first, i, held, done, p);
        WordIsAt(fs0, i, q);
        var w := Ptr(data[block], k);
        if w != 0 {
          FreeAt(w, held, fs0, i, done, q);
        } else {
          ReleaseNothing(fs0, Abs(), first, i, held, done, iset{q});
        }
        done := done + iset{q};
        ChildIsOnly(p, k);
        k := k + 1;
      }
      FreeAt(block, held, fs0, i, done, p);
      assert done + iset{p} == gone + Below(p);
    }

    /** truncate.c:32-51. */
    method FreeDind(block: nat, held: set<nat>, ghost fs0: Fs, ghost i: nat, ghost gone: iset<Place>)
      requires Ok(fs0, first) && i < |fs0.inode| && !fs0.inode[i].mode.Other? && Released(fs0, Abs(), first, i, held, gone)
      requires block == At(fs0, i, Zone(8)) && gone !! Below(Zone(8))
      modifies data, zmap
      ensures Released(fs0, Abs(), first, i, held, gone + Below(Zone(8)))
    {
      if block == 0 {
        ReleaseNothing(fs0, Abs(), first, i, held, gone, Below(Zone(8)));
        return;
      }
      ghost var done := gone;
      var k := 0;
      while k < PTRS
        invariant k <= PTRS
        invariant done == gone + (iset q | IsPlace(q) && (q.Mid? || q.Dind?) && q.a < k)
        invariant Released(fs0, Abs(), first, i, held, done)
      {
        StillMarked(fs0, Abs(), first, i, held, done, Zone(8));
        WordIsAt(fs0, i, Mid(k));
        var w := Ptr(data[block], k);
        if w != 0 {
          FreeInd(w, held, fs0, i, done, Mid(k));
        } else {
          ReleaseNothing(fs0, Abs(), first, i, held, done, Below(Mid(k)));
        }
        done := done + Below(Mid(k));
        k := k + 1;
      }
      FreeAt(block, held, fs0, i, done, Zone(8));
      assert done + iset{Zone(8)} == gone + Below(Zone(8));
    }

    /** truncate.c:53-74, while somebody else holds the buffers of the blocks in held. */
    method Truncate(i: nat, held: set<nat>)
      requires Valid() && i < inode.Length
      modifies data, zmap, inode
      ensures Valid()
      ensures old(inode[i].mode.Other?) ==> Abs() == old(Abs())
      ensures !old(inode[i].mode.Other?) ==> Truncated(old(Abs()), Abs(), first, i, held)
    {
      if inode[i].mode.Other? {
        return;
      }
      ghost var fs0 := Abs();
      ghost var gone: iset<Place> := iset{};
      var k := 0;
      while k < 7
        invariant k <= 7 && inode[..] == fs0.inode[i := inode[i]]
        invariant inode[i].mode == fs0.inode[i].mode
        invariant forall l | 0 <= l < 9 :: inode[i].zone[l] == if l < k then 0 else fs0.inode[i].zone[l]
        invariant gone == iset q | IsPlace(q) && q.Zone? && q.k < k
        invariant Released(fs0, Abs(), first, i, held, gone)
      {
        if inode[i].zone[k] != 0 {
          FreeAt(inode[i].zone[k], held, fs0, i, gone, Zone(k));
          ghost var fs := Abs();
          inode[i] := inode[i].(zone := inode[i].zone[k := 0]);
          InodesDoNotMatter(fs0, fs, Abs(), first, i, held, gone + iset{Zone(k)});
        } else {
          ReleaseNothing(fs0, Abs(), first, i, held, gone, iset{Zone(k)});
        }
        gone := gone + iset{Zone(k)};
        k := k + 1;
      }
      FreeInd(inode[i].zone[7], held, fs0, i, gone, Zone(7));
      gone := gone + Below(Zone(7));
      FreeDind(inode[i].zone[8], held, fs0, i, gone);
      gone := gone + Below(Zone(8));
      ghost var fs := Abs();
      inode[i] := inode[i].(zone := inode[i].zone[7 := 0][8 := 0], size := 0);
      InodesDoNotMatter(fs0, fs, Abs(), first, i, held, gone);
      AllReleased(fs0, Abs(), first, i, held, gone, inode[i].zone);
    }

    // ----- file_dev.c -----

    /**
      file_read (file_dev.c:17-46): the bytes of the file from f_pos on go to user memory, holes as
      zeros.
    */
    method FileRead(i: nat, filp: File, buf: array<Byte>, count: int) returns (n: int)
      requires Valid() && i < inode.Length && !inode[i].mode.Other?
      requires count > 0 ==> count <= buf.Length && filp.pos + count <= MAX_BYTES
      modifies filp, buf, data, zmap, inode
      ensures Abs() == old(Abs()) && Valid()
      ensures n == (if count > 0 then count else 0) && filp.pos == old(filp.pos) + n
      ensures forall k | 0 <= k < n :: buf[k] == FileByte(Abs(), i, old(filp.pos) + k)
      ensures buf[n..] == old(buf[n..])
    {
      hide Ok, Grown, OthersMapped, FileByte, At, PlaceOf, Full, DataBlocks;
      if count <= 0 {
        return 0;
      }
      ghost var start, fs := filp.pos, Abs();
      var left := count;
      while left > 0
        invariant 0 <= left <= count && filp.pos == start + (count - left) && Abs() == fs
        invariant forall k | 0 <= k < count - left :: buf[k] == FileByte(fs, i, start + k)
        invariant buf[count..] == old(buf[count..])
      {
        var nr := Bmap(i, filp.pos / BLOCK_SIZE, false);
        var chars := if BLOCK_SIZE - filp.pos % BLOCK_SIZE < left then BLOCK_SIZE - filp.pos % BLOCK_SIZE else left;
        PutBytes(nr, filp.pos % BLOCK_SIZE, chars, buf, count - left, i, start);
        filp.pos := filp.pos + chars;
        left := left - chars;
      }
      n := count - left;
    }

    /** The copy to user memory of one turn of the loop (file_dev.c:33-41). */
    method PutBytes(nr: nat, c: nat, chars: nat, buf: array<Byte>, at: nat, ghost i: nat, ghost start: nat)
      requires Valid() && i < inode.Length && 0 < chars && start + at + chars <= MAX_BYTES && nr == At(Abs(), i, PlaceOf((start + at) / BLOCK_SIZE))
      requires c == (start + at) % BLOCK_SIZE && c + chars <= BLOCK_SIZE && at + chars <= buf.Length
      modifies buf
      ensures forall k | at <= k < at + chars :: buf[k] == FileByte(Abs(), i, start + k)
      ensures buf[..at] == old(buf[..at]) && buf[at + chars..] == old(buf[at + chars..])
    {
      var k := at;
      while k < at + chars
        invariant at <= k <= at + chars
        invariant forall l | at <= l < k :: buf[l] == FileByte(Abs(), i, start + l)
        invariant buf[..at] == old(buf[..at]) && buf[at + chars..] == old(buf[at + chars..])
      {
        OffsetInBlock(start + at, chars, start + k);
        buf[k] := if nr != 0 then data[nr][c + (k - at)] else 0;
        assert buf[k] == FileByte(Abs(), i, start + k);
        k := k + 1;
      }
    }

    /** The copy from user memory of one turn of the loop (file_dev.c:68-81). */
    method GetBytes(block: nat, c: nat, more: seq<Byte>)
      requires block < data.Length && c + |more| <= BLOCK_SIZE
      modifies data
      ensures data[..] == old(data[..])[block := data[block]]
      ensures forall k | 0 <= k < BLOCK_SIZE :: data[block][k] == if c <= k < c + |more| then more[k - c] else old(data[block])[k]
    {
      var k := 0;
      while k < |more|
        invariant k <= |more| && data[..] == old(data[..])[block := data[block]]
        invariant forall l | 0 <= l < BLOCK_SIZE :: data[block][l] == if c <= l < c + k then more[l - c] else old(data[block])[l]
      {
        data[block] := data[block][c + k := more[k]];
        k := k + 1;
      }
    }

    /** The rest of one turn: i_size is raised and the bytes go into the block (file_dev.c:69-81). */
    method WriteBlock(i: nat, block: nat, pos: nat, more: seq<Byte>, ghost fs0: Fs, ghost start: nat, ghost bytes: seq<Byte>)
      requires i < inode.Length && |fs0.inode| == inode.Length && Written(fs0, Abs(), first, i, start, bytes)
      requires pos == start + |bytes| && more != [] && pos % BLOCK_SIZE + |more| <= BLOCK_SIZE && pos / BLOCK_SIZE < MAX_BLOCKS
      requires block == At(Abs(), i, PlaceOf(pos / BLOCK_SIZE)) && block != 0
      modifies data, inode
      ensures Written(fs0, Abs(), first, i, start, bytes + more)
    {
      ghost var fs := Abs();
      assert block < data.Length;
      if pos + |more| > inode[i].size {
        inode[i] := inode[i].(size := pos + |more|);
      }
      GetBytes(block, pos % BLOCK_SIZE, more);
      WrittenBlock(fs0, fs, Abs(), first, i, start, bytes, more, data[block]);
    }

    /**
      file_write (file_dev.c:48-90).  As a sequence of bytes the file becomes its old contents,
      zero-extended, with the bytes taken laid over it; it takes fewer than count only when the disk
      is full.
    */
    method FileWrite(i: nat, filp: File, buf: seq<Byte>, count: int) returns (r: int)
      requires Valid() && ZeroPast(Abs()) && i < inode.Length && !inode[i].mode.Other? && inode[i].size <= MAX_BYTES
      requires count <= |buf| && (if filp.append then inode[i].size else filp.pos) + |buf| <= MAX_BYTES
      modifies filp, data, zmap, inode
      ensures Valid() && ZeroPast(Abs()) && (r == -1 || 0 < r <= count)
      ensures var pos := if filp.append then old(inode[i].size) else old(filp.pos);
        var n := if r == -1 then 0 else r;
        && Written(old(Abs()), Abs(), first, i, pos, buf[..n])
        && inode[i].size <= MAX_BYTES
        && (n > 0 ==> Contents(Abs(), i) == Overlay(old(Contents(Abs(), i)), pos, buf[..n]))
        && (n == 0 ==> Contents(Abs(), i) == old(Contents(Abs(), i)))
        && (n < count ==> Full(Abs(), first))
        && filp.pos == if filp.append then old(filp.pos) else pos + n
    {
      hide Written, Grown, OthersMapped, Ok, ZeroPast, Contents, Overlay, Full, DataBlocks;
      ghost var fs0 := Abs();
      var pos := if filp.append then inode[i].size else filp.pos;
      ghost var start := pos;
      var n := 0;
      WrittenNothing(fs0, first, i, start);
      assert buf[..n] == [];
      while n < count
        invariant 0 <= n && (n <= count || n == 0) && pos == start + n
        invariant Valid() && Written(fs0, Abs(), first, i, start, buf[..n])
        invariant filp.pos == old(filp.pos) && inode[i].mode == old(inode[i].mode)
      {
        ghost var fs1 := Abs();
        var block := Bmap(i, pos / BLOCK_SIZE, true);
        WrittenGrows(fs0, fs1, Abs(), first, i, start, buf[..n], pos / BLOCK_SIZE);
        WrittenShape(fs0, Abs(), first, i, start, buf[..n]);
        if block == 0 {
          break;
        }
        var c := BLOCK_SIZE - pos % BLOCK_SIZE;
        if c > count - n {
          c := count - n;
        }
        WriteBlock(i, block, pos, buf[n..n + c], fs0, start, buf[..n]);
        assert buf[..n] + buf[n..n + c] == buf[..n + c];
        pos, n := pos + c, n + c;
        WrittenShape(fs0, Abs(), first, i, start, buf[..n]);
      }
      WrittenZeroPast(fs0, Abs(), first, i, start, buf[..n]);
      WrittenShape(fs0, Abs(), first, i, start, buf[..n]);
      if n > 0 {
        WrittenContents(fs0, Abs(), first, i, start, buf[..n]);
      } else {
        WrittenNoContents(fs0, Abs(), first, i, start);
      }
      if !filp.append {
        filp.pos := pos;
      }
      r := if n > 0 then n else -1;
    }

    /** The part of sys_read for regular files and directories (read_write.c:72-78): at most up to i_size. */
    method SysRead(i: nat, filp: File, buf: array<Byte>, count: nat) returns (n: int)
      requires Valid() && i < inode.Length && !inode[i].mode.Other? && inode[i].size <= MAX_BYTES && count <= buf.Length
      modifies filp, buf, data, zmap, inode
      ensures Abs() == old(Abs()) && Valid()
      ensures var c := Contents(Abs(), i); var pos := old(filp.pos);
        && n == (if pos + count <= |c| then count else if pos < |c| then |c| - pos else 0)
        && filp.pos == pos + n && (n > 0 ==> buf[..n] == c[pos..pos + n]) && buf[n..] == old(buf[n..])
    {
      hide Ok, SameBytes;
      var chars: int := count;
      if chars + filp.pos > inode[i].size {
        chars := inode[i].size - filp.pos;
      }
      if chars <= 0 {
        return 0;
      }
      n := FileRead(i, filp, buf, chars);
    }

    /**
      Any run of writes, appends and truncates: the files of the device stay what the same run makes
      of plain byte sequences.  trace is the device before and after each operation.
    */
    method Run(ops: seq<Op>) returns (taken: seq<nat>, ghost trace: seq<Fs>)
      requires Valid() && ZeroPast(Abs()) && SizesOk(Abs())
      modifies data, zmap, inode
      ensures Valid() && ZeroPast(Abs()) && SizesOk(Abs()) && |taken| == |ops|
      ensures Files(Abs()) == ApplyAll(old(Files(Abs())), ops, taken)
      ensures |trace| == |ops| + 1 && trace[0] == old(Abs()) && trace[|ops|] == Abs()
      ensures forall k | 0 <= k < |ops| :: Did(trace[k], ops[k], taken[k], trace[k + 1], first)
    {
      hide Ok, ZeroPast, SizesOk, Files, Apply, Written, Truncated, Refused, Full;
      taken, trace := [], [Abs()];
      ghost var files := Files(Abs());
      var k := 0;
      while k < |ops|
        invariant k <= |ops| && |taken| == k && Valid() && ZeroPast(Abs()) && SizesOk(Abs())
        invariant Files(Abs()) == ApplyAll(files, ops[..k], taken)
        invariant |trace| == k + 1 && trace[0] == old(Abs()) && trace[k] == Abs()
        invariant forall j | 0 <= j < k :: Did(trace[j], ops[j], taken[j], trace[j + 1], first)
      {
        var n := Do(ops[k]);
        assert ops[..k + 1][..k] == ops[..k] && (taken + [n])[..k] == taken;
        taken, trace, k := taken + [n], trace + [Abs()], k + 1;
      }
      assert ops[..k] == ops;
    }

    /** One operation of a run; one that the system call layer refuses takes nothing. */
    method Do(op: Op) returns (n: nat)
      requires Valid() && ZeroPast(Abs()) && SizesOk(Abs())
      modifies data, zmap, inode
      ensures Valid() && ZeroPast(Abs()) && SizesOk(Abs())
      ensures Did(old(Abs()), op, n, Abs(), first)
    {
      hide Ok, ZeroPast, Written, Truncated, Contents, Overlay, Full;
      ghost var fs := Abs();
      n := 0;
      if op.i >= inode.Length || !inode[op.i].mode.Regular? {
        return;
      }
      match op {
        case Put(i, pos, buf) =>
          if pos + |buf| <= MAX_BYTES {
            var filp := new File(false);
            filp.pos := pos;
            var r := FileWrite(i, filp, buf, |buf|);
            n := if r == -1 then 0 else r;
            WrittenFiles(fs, Abs(), first, i, pos, buf[..n]);
          }
        case Append(i, buf) =>
          if inode[i].size + |buf| <= MAX_BYTES {
            var filp := new File(true);
            var r := FileWrite(i, filp, buf, |buf|);
            n := if r == -1 then 0 else r;
            WrittenFiles(fs, Abs(), first, i, fs.inode[i].size, buf[..n]);
            OverlayAtEnd(Files(fs)[i], buf[..n]);
          }
        case Cut(i, held) =>
          Truncate(i, held);
          TruncatedFiles(fs, Abs(), first, i, held);
          n := 1;
      }
    }
  }
}
