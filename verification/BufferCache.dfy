/**
  linux-0.11/fs/buffer.c over the buffer heads at start_buffer, with the disk below it.  Every method
  runs from one sleep point to the next, so any sequence of them is a possible history of the kernel.
*/
module BufferCache {
  import opened BlockTree
  import opened BufferLists
  import opened Bytes
  import opened CacheRuns
  import opened CacheState
  import opened Sequences

  /** The heads buffer_init lays out: no device, and linked in one ring in order (buffer.c:419-444). */
  method NewHeads(n: nat) returns (h: array<Head>)
    requires n >= 2
    ensures fresh(h) && h.Length == n
    ensures forall b | 0 <= b < n :: Blank(h[b]) && h[b].next == NIL && h[b].prev == NIL
    ensures forall b | 0 <= b < n :: h[b].nextFree == if b + 1 < n then b + 1 else 0
    ensures forall b | 0 <= b < n :: h[b].prevFree == if b > 0 then b - 1 else n - 1
  {
    var clear: Block := seq(BLOCK_SIZE, _ => 0);
    h := new Head[n](_ => Head(0, 0, false, false, 0, Unlocked, clear, NIL, NIL, NIL, NIL));
    var i := 0;
    while i < n
      invariant i <= n
      invariant forall b | 0 <= b < i :: h[b] == Head(0, 0, false, false, 0, Unlocked, clear, NIL, NIL, b + 1, b - 1)
    {
      h[i] := Head(0, 0, false, false, 0, Unlocked, clear, NIL, NIL, i + 1, i - 1);
      i := i + 1;
    }
    h[0] := h[0].(prevFree := n - 1);
    h[n - 1] := h[n - 1].(nextFree := 0);
  }

  predicate Blank(x: Head) {
    x.dev == 0 && x.count == 0 && !x.uptodate && !x.dirt && x.io.Unlocked?
  }

  class Cache {
    const bh: array<Head>           // start_buffer
    const hash: array<int>          // hash_table
    const calls: array<Call>
    var freeList: int
    var disk: Disk
    ghost var chains: seq<seq<nat>>
    ghost var ring: seq<nat>

    ghost predicate Linked(out: int)
      reads this, bh, hash
    {
      bh.Length >= 2 && Hashed(bh[..], hash[..], chains, out) && Free(bh[..], freeList, ring, out)
    }

    ghost predicate Valid()
      reads this, bh, hash, calls
    {
      Linked(NIL) && Inv(bh[..], disk, calls[..])
    }

    /** buffer_init (buffer.c:407-449) with room for n buffers, before any call has been made. */
    constructor (n: nat, m: nat, disk: Disk)
      requires n >= 2
      ensures Valid() && bh.Length == n && calls.Length == m && this.disk == disk
      ensures forall b | 0 <= b < n :: bh[b].dev == 0 && bh[b].count == 0
      ensures forall p | 0 <= p < m :: calls[p].pc.Idle?
      ensures forall d: Word32, k: Word32 :: Value(bh[..], disk, d, k) == disk(d, k)
    {
      hide Hashed, Free, Inv, Value, HashFn;
      var h := NewHeads(n);
      bh := h;
      hash := new int[NR_HASH](_ => NIL);
      calls := new Call[m](_ => Call(Idle, 0, 0, false));
      freeList := 0;
      this.disk := disk;
      chains := seq(NR_HASH, _ => []);
      ring := seq(n, k => k);
      new;
      NewLists(bh[..], hash[..], chains, ring);
      NewInv(bh[..], disk, calls[..]);
    }

    /** remove_from_queues, hash part (buffer.c:148-154). */
    method Unhash(b: nat)
      requires Linked(NIL) && b < bh.Length
      modifies this`chains, bh, hash
      ensures Hashed(bh[..], hash[..], chains, b) && Free(bh[..], freeList, ring, NIL)
      ensures Unchained(old(chains), chains, bh[b], b) && SameContents(old(bh[..]), bh[..], NIL)
    {
      hide Hashed, Free, HashFn, SameContents;
      ghost var h, t := bh[..], hash[..];
      LinksInRange(h, t, chains, b);
      var m := HashFn(bh[b].dev, bh[b].blocknr);
      var next, prev := bh[b].next, bh[b].prev;
      if next != NIL {
        bh[next] := bh[next].(prev := prev);
      }
      if prev != NIL {
        bh[prev] := bh[prev].(next := next);
      }
      if hash[m] == b {
        hash[m] := next;
      }
      assert HashUnlinked(h, bh[..], b);
      chains := UnhashStep(h, bh[..], t, chains, b);
      assert hash[..] == t[m := if t[m] == b then next else t[m]];
      HashUnlinkedKeeps(h, bh[..], freeList, ring, b);
    }

    /** remove_from_queues, free list part (buffer.c:157-162). */
    method Unfree(b: nat)
      requires Hashed(bh[..], hash[..], chains, b) && Free(bh[..], freeList, ring, NIL) && b < bh.Length && bh.Length >= 2
      modifies this`freeList, this`ring, bh
      ensures Linked(b) && TakenOut(old(ring), ring, b) && SameContents(old(bh[..]), bh[..], NIL)
    {
      hide Hashed, Free, HashFn, SameContents;
      ghost var h := bh[..];
      FreeInRange(h, freeList, ring, b);
      var next, prev := bh[b].nextFree, bh[b].prevFree;
      bh[next] := bh[next].(prevFree := prev);
      bh[prev] := bh[prev].(nextFree := next);
      if freeList == b {
        freeList := next;
      }
      assert FreeUnlinked(h, bh[..], b);
      ring := UnfreeStep(h, bh[..], old(freeList), ring, b);
      FreeUnlinkedKeeps(h, bh[..], hash[..], chains, b);
    }

    /** insert_into_queues, free list part (buffer.c:168-171). */
    method Enfree(b: nat)
      requires Linked(b) && b < bh.Length
      modifies this`ring, bh
      ensures Hashed(bh[..], hash[..], chains, b) && Free(bh[..], freeList, ring, NIL)
      ensures ring == old(ring) + [b] && SameContents(old(bh[..]), bh[..], NIL)
    {
      hide Hashed, Free, HashFn, SameContents;
      ghost var h := bh[..];
      FreeHead(h, freeList, ring, b);
      var last := bh[freeList].prevFree;
      bh[b] := bh[b].(nextFree := freeList);
      bh[b] := bh[b].(prevFree := last);
      bh[last] := bh[last].(nextFree := b);
      bh[freeList] := bh[freeList].(prevFree := b);
      assert FreeLinked(h, bh[..], freeList, b);
      FreeLinkedKeeps(h, bh[..], freeList, ring, hash[..], chains, b);
      ring := ring + [b];
    }

    /** insert_into_queues, hash part (buffer.c:173-180), with the store through b_next guarded. */
    method Enhash(b: nat)
      requires Hashed(bh[..], hash[..], chains, b) && Free(bh[..], freeList, ring, NIL) && b < bh.Length && bh.Length >= 2
      modifies this`chains, bh, hash
      ensures Linked(NIL) && Chained(old(chains), chains, bh[b], b) && SameContents(old(bh[..]), bh[..], NIL)
    {
      hide Hashed, Free, HashFn, SameContents;
      ghost var h, t := bh[..], hash[..];
      var m := HashFn(bh[b].dev, bh[b].blocknr);
      ChainHeadInRange(h, t, chains, m, b);
      bh[b] := bh[b].(prev := NIL);
      bh[b] := bh[b].(next := NIL);
      if bh[b].dev != 0 {
        bh[b] := bh[b].(next := hash[m]);
        hash[m] := b;
        if bh[b].next != NIL {
          bh[bh[b].next] := bh[bh[b].next].(prev := b);
        }
      }
      assert HashLinked(h, bh[..], t[m], b);
      chains := HashStep(h, bh[..], t, chains, b);
      assert hash[..] == if h[b].dev == 0 then t else t[m := b];
      HashLinkedKeeps(h, bh[..], freeList, ring, t[m], b);
    }

    /** find_buffer (buffer.c:183-192). */
    method FindBuffer(dev: Word32, block: Word32) returns (b: int)
      requires Linked(NIL) && dev != 0
      ensures NIL <= b < bh.Length
      ensures b != NIL ==> bh[b].dev == dev && bh[b].blocknr == block
      ensures b == NIL ==> forall c: nat | c < bh.Length :: bh[c].dev != dev || bh[c].blocknr != block
    {
      hide HashFn, Free;
      var m := HashFn(dev, block);
      ghost var q := chains[m];
      b := hash[m];
      ghost var k := 0;
      while b != NIL
        invariant k <= |q| && b == (if k < |q| then q[k] else NIL)
        invariant forall i | 0 <= i < k :: q[i] < bh.Length && (bh[q[i]].dev != dev || bh[q[i]].blocknr != block)
        decreases |q| - k
      {
        ChainNext(bh[..], hash[m], q, k);
        if bh[b].dev == dev && bh[b].blocknr == block {
          return;
        }
        b, k := bh[b].next, k + 1;
      }
      NotOnChain(bh[..], hash[..], chains, dev, block);
      assert forall c: nat | c < bh.Length :: bh[c] == bh[..][c];
    }

    /**
      The search of getblk (buffer.c:242-253): of the buffers nobody uses, the least bad one, and the
      first such on the free list.
    */
    method Choose() returns (b: int)
      requires Linked(NIL)
      ensures b == NIL ==> forall c | 0 <= c < bh.Length :: bh[c].count > 0
      ensures b != NIL ==> 0 <= b && LeastBad(bh[..], b)
      ensures b != NIL ==> exists j: nat :: j < |ring| && ring[j] == b && FirstBest(bh[..], ring, j)
    {
      hide Hashed, Ring, Badness, Chosen, LeastBad;
      b := NIL;
      RingDistinct(bh[..], ring);
      var tmp, more := freeList, true;
      ghost var j: nat, k := 0, 0;
      NothingChosen(bh[..], ring);
      while more
        invariant b == NIL || (0 <= b < bh.Length && bh[b].count == 0)
        invariant if more then k < |ring| && tmp == ring[k] else k == |ring|
        invariant Chosen(bh[..], ring, k, b, j)
        decreases more, |ring| - k
      {
        ChosenNext(bh[..], ring, k, b, j);
        if bh[tmp].count == 0 && (b == NIL || Badness(bh[tmp]) < Badness(bh[b])) {
          b, j := tmp, k;
          if Badness(bh[tmp]) == 0 {
            ChosenIsFirst(bh[..], ring, k + 1, b, j);
            NoneBetter(bh[..], b);
            return;
          }
        }
        RingNext(bh[..], ring, k);
        tmp := bh[tmp].nextFree;
        more := tmp != freeList;
        k := k + 1;
      }
      ChosenOfAll(bh[..], ring, b, j);
      ChosenIsFirst(bh[..], ring, k, b, j);
      assert forall c: nat | c < bh.Length :: bh[c] == bh[..][c];
    }

    /** The state between two events. */
    function Snapshot(): Snap
      reads `disk, bh, calls
    {
      Snap(bh[..], disk, calls[..])
    }

    // ----- Steps of a call -----

    /** Valid() carries over when only fields the lists do not use have changed. */
    twostate lemma StillLinked(new h: seq<Head>)
      requires old(Linked(NIL)) && h == old(bh[..]) && SameLinks(h, bh[..])
      requires hash[..] == old(hash[..]) && freeList == old(freeList) && chains == old(chains) && ring == old(ring)
      ensures Linked(NIL)
    {
      ListsKept(h, bh[..], hash[..], chains, freeList, ring);
    }

    /** The call is for this block from now on. */
    method Start(p: nat, dev: Word32, block: Word32, read: bool)
      requires Valid() && p < calls.Length && calls[p].pc.Idle? && dev != 0
      modifies calls
      ensures Valid() && calls[..] == old(calls[..])[p := Call(Again, dev, block, read)]
    {
      hide Linked, Inv;
      MoveStep(bh[..], disk, calls[..], p, Call(Again, dev, block, read));
      ghost var cs := calls[..];
      calls[p] := Call(Again, dev, block, read);
      assert calls[..] == cs[p := calls[p]];
    }

    /** The call sleeps, or may be overtaken, somewhere else; no buffer changes. */
    method MoveTo(p: nat, pc: Pc)
      requires Valid() && p < calls.Length && Holds(calls[p].(pc := pc)) == Holds(calls[p]) && Asks(calls[p].(pc := pc)) == NIL
      requires CallOk(bh[..], calls[p].(pc := pc))
      modifies calls
      ensures Valid() && Quiet(bh[..], disk, old(calls[..]), bh[..], disk, calls[..], p) && calls[p] == old(calls[p]).(pc := pc)
    {
      hide Linked, Inv, SameValues, Reclaims, CallOk;
      MoveStep(bh[..], disk, calls[..], p, calls[p].(pc := pc));
      ghost var cs := calls[..];
      calls[p] := calls[p].(pc := pc);
      assert calls[..] == cs[p := calls[p]];
      SameStateIsQuiet(bh[..], disk);
      QuietOne(bh[..], disk, cs, bh[..], calls[p], p);
    }

    /** b_count++ for call p, which now waits for buffer b (buffer.c:209-210). */
    method Take(p: nat, b: nat)
      requires Valid() && p < calls.Length && b < bh.Length && Holds(calls[p]) == NIL && Asks(calls[p]) == NIL
      requires bh[b].dev == calls[p].dev != 0 && bh[b].blocknr == calls[p].block
      modifies bh, calls
      ensures Valid() && Quiet(old(bh[..]), disk, old(calls[..]), bh[..], disk, calls[..], p) && calls[p] == old(calls[p]).(pc := Found(b))
      ensures bh[..] == old(bh[..])[b := old(bh[b]).(count := old(bh[b]).count + 1)]
    {
      hide Linked, Inv, SameValues;
      ghost var h, cs := bh[..], calls[..];
      CountStep(h, disk, cs, p, calls[p].(pc := Found(b)), b, bh[b].count + 1);
      bh[b] := bh[b].(count := bh[b].count + 1);
      calls[p] := calls[p].(pc := Found(b));
      assert bh[..] == h[b := bh[b]] && calls[..] == cs[p := calls[p]];
      StillLinked(h);
      QuietOne(h, disk, cs, bh[..], calls[p], p);
    }

    /** brelse once the buffer is unlocked (buffer.c:300-304); a count of zero would be a panic. */
    method Drop(p: nat, b: nat)
      requires Valid() && p < calls.Length && b < bh.Length && Holds(calls[p]) == b && Asks(calls[p]) == NIL
      modifies bh, calls
      ensures Valid() && Quiet(old(bh[..]), disk, old(calls[..]), bh[..], disk, calls[..], p) && calls[p] == old(calls[p]).(pc := Idle)
      ensures Released(old(bh[..]), bh[..], b)
      ensures SameBlocks(old(bh[..]), bh[..])
    {
      hide Linked, Inv, SameValues;
      ghost var h, cs := bh[..], calls[..];
      assert bh[b].count > 0 by { Counts(p); }
      CountStep(h, disk, cs, p, calls[p].(pc := Idle), b, bh[b].count - 1);
      bh[b] := bh[b].(count := bh[b].count - 1);
      calls[p] := calls[p].(pc := Idle);
      assert bh[..] == h[b := bh[b]] && calls[..] == cs[p := calls[p]];
      StillLinked(h);
      QuietOne(h, disk, cs, bh[..], calls[p], p);
    }

    lemma Counts(p: nat)
      requires Valid() && p < calls.Length && 0 <= Holds(calls[p]) < bh.Length
      ensures bh[Holds(calls[p])].count > 0
    {
      HeldIsCounted(bh[..], calls[..], p);
    }

    /** make_request has the lock of buffer i and looks for a slot (ll_rw_blk.c:121-148). */
    method Lock(p: nat, i: nat, rw: Transfer, pc: Pc)
      requires Valid() && p < calls.Length && i < bh.Length && bh[i].io.Unlocked? && bh[i].dev != 0
      requires if rw.READ? then !bh[i].uptodate && pc == ReadSlot(i) && Holds(calls[p]) == i
        else bh[i].dirt && pc.SyncSlot? && pc.i == i && calls[p].pc.SyncAt? && calls[p].pc.picked == pc.picked
      modifies bh, calls
      ensures Valid() && Quiet(old(bh[..]), disk, old(calls[..]), bh[..], disk, calls[..], p)
      ensures calls[p] == old(calls[p]).(pc := pc) && SameBlocks(old(bh[..]), bh[..])
      ensures bh[..] == old(bh[..])[i := old(bh[i]).(io := Asking(rw))]
    {
      hide Linked, Inv, SameValues;
      ghost var h, cs := bh[..], calls[..];
      CallIsOk(p);
      LockStep(h, disk, cs, p, calls[p].(pc := pc), i, rw);
      bh[i] := bh[i].(io := Asking(rw));
      calls[p] := calls[p].(pc := pc);
      assert bh[..] == h[i := bh[i]] && calls[..] == cs[p := calls[p]];
      StillLinked(h);
      QuietOne(h, disk, cs, bh[..], calls[p], p);
    }

    lemma CallIsOk(p: nat)
      requires Valid() && p < calls.Length
      ensures CallOk(bh[..], calls[p])
    {
    }

    /** The slot is found: the request joins its queue and the buffer counts as clean. */
    method Enqueue(p: nat, i: nat, pc: Pc)
      requires Valid() && p < calls.Length && Asks(calls[p]) == i && i < bh.Length
      requires if calls[p].pc.ReadSlot? then pc == ReadWait(i) else pc == SyncAt(calls[p].pc.picked, calls[p].pc.sdev, i + 1, calls[p].pc.pass)
      modifies bh, calls
      ensures Valid() && Quiet(old(bh[..]), disk, old(calls[..]), bh[..], disk, calls[..], p)
      ensures calls[p] == old(calls[p]).(pc := pc) && SameBlocks(old(bh[..]), bh[..])
      ensures bh[..] == old(bh[..])[i := old(bh[i]).(io := Queued(if old(calls[p].pc.ReadSlot?) then READ else WRITE), dirt := false)]
    {
      hide Linked, Inv, SameValues;
      ghost var h, cs := bh[..], calls[..];
      CallIsOk(p);
      var rw := if calls[p].pc.ReadSlot? then READ else WRITE;
      QueueStep(h, disk, cs, p, calls[p].(pc := pc), i, rw);
      bh[i] := bh[i].(io := Queued(rw), dirt := false);
      calls[p] := calls[p].(pc := pc);
      assert bh[..] == h[i := bh[i]] && calls[..] == cs[p := calls[p]];
      StillLinked(h);
      QuietOne(h, disk, cs, bh[..], calls[p], p);
    }

    /** The end of getblk, and the start of bread's read (buffer.c:319-324); slot tells if one is free. */
    method Got(p: nat, b: nat, slot: bool)
      requires Valid() && p < calls.Length && calls[p].pc == Found(b) && b < bh.Length && bh[b].io.Unlocked?
      modifies bh, calls
      ensures Valid() && Quiet(old(bh[..]), disk, old(calls[..]), bh[..], disk, calls[..], p) && SameBlocks(old(bh[..]), bh[..])
      ensures calls[p] == old(calls[p]).(pc := calls[p].pc)
      ensures FoundRanOn(old(bh[..]), old(calls[p]), bh[..], calls[p].pc, b, if slot then 1 else 0)
    {
      hide Linked, Inv, SameValues, Reclaims, Quiet;
      ghost var h, cs := bh[..], calls[..];
      CallIsOk(p);
      SameStateIsQuiet(h, disk);
      assert h[b] == bh[b];
      if !calls[p].read || bh[b].uptodate {
        MoveTo(p, Have(b));
        return;
      }
      Lock(p, b, READ, ReadSlot(b));
      if slot {
        ghost var h1, cs1 := bh[..], calls[..];
        Enqueue(p, b, ReadWait(b));
        QuietThen(h, disk, cs, h1, disk, cs1, bh[..], disk, calls[..], p);
      }
    }

    /** buffer.c:284-290, once find_buffer has said that no buffer has the block. */
    method Claim(p: nat, b: nat)
      requires Valid() && p < calls.Length && calls[p].pc == Picked(b) && b < bh.Length
      requires bh[b].count == 0 && bh[b].io.Unlocked? && !bh[b].dirt
      requires forall c: nat | c < bh.Length :: bh[c].dev != calls[p].dev || bh[c].blocknr != calls[p].block
      modifies this`freeList, this`chains, this`ring, bh, hash, calls
      ensures Valid() && Quiet(old(bh[..]), disk, old(calls[..]), bh[..], disk, calls[..], p) && calls[p] == old(calls[p]).(pc := Found(b))
      ensures SameContents(old(bh[..]), bh[..], b)
      ensures SameHead(old(bh[b]).(dev := calls[p].dev, blocknr := calls[p].block, count := 1, dirt := false, uptodate := false), bh[b])
      ensures |ring| > 0 && TakenOut(old(ring), ring[..|ring| - 1], b) && ring[|ring| - 1] == b
    {
      hide Linked, Inv, SameValues, TakenOut;
      ghost var h, cs := bh[..], calls[..];
      CallIsOk(p);
      bh[b] := bh[b].(count := 1, dirt := false, uptodate := false);
      StillLinked(h);
      ghost var h1 := bh[..];
      Rename(b, calls[p].dev, calls[p].block);
      calls[p] := calls[p].(pc := Found(b));
      assert calls[..] == cs[p := calls[p]];
      ContentsThrough(h, h1, bh[..], b);
      ClaimStep(h, bh[..], disk, cs, p, calls[p], b);
      QuietOne(h, disk, cs, bh[..], calls[p], p);
    }

    /** The buffer is taken off the lists, becomes that of another block, and goes back (buffer.c:287-290). */
    method Rename(b: nat, dev: Word32, block: Word32)
      requires Linked(NIL) && b < bh.Length
      modifies this`freeList, this`chains, this`ring, bh, hash
      ensures Linked(NIL) && SameContents(old(bh[..]), bh[..], b)
      ensures SameHead(old(bh[b]).(dev := dev, blocknr := block), bh[b])
      ensures |ring| > 0 && TakenOut(old(ring), ring[..|ring| - 1], b) && ring[|ring| - 1] == b
    {
      hide Hashed, Free, HashFn, TakenOut;
      ghost var h1 := bh[..];
      RemoveFromQueues(b);
      ghost var h2 := bh[..];
      bh[b] := bh[b].(dev := dev);
      bh[b] := bh[b].(blocknr := block);
      OutChanges(h2, bh[..], hash[..], chains, freeList, ring, b);
      ghost var h3, ring3 := bh[..], ring;
      InsertIntoQueues(b);
      assert ring[..|ring| - 1] == ring3;
      SameContentsThrough(h1, h2, h3, bh[..], b);
    }

    /** remove_from_queues (buffer.c:146-163): b leaves its chain and the free list, and no other buffer does. */
    method RemoveFromQueues(b: nat)
      requires Linked(NIL) && b < bh.Length
      modifies this`freeList, this`chains, this`ring, bh, hash
      ensures Linked(b) && SameContents(old(bh[..]), bh[..], NIL)
      ensures Unchained(old(chains), chains, bh[b], b) && TakenOut(old(ring), ring, b)
    {
      hide Hashed, Free, HashFn;
      ghost var h := bh[..];
      Unhash(b);
      ghost var h1 := bh[..];
      Unfree(b);
      assert forall c: nat | c < |h| :: h1[c].dev == h[c].dev;
    }

    /** insert_into_queues (buffer.c:165-181): b goes to the end of the free list and the front of its chain. */
    method InsertIntoQueues(b: nat)
      requires Linked(b) && b < bh.Length
      modifies this`chains, this`ring, bh, hash
      ensures Linked(NIL) && SameContents(old(bh[..]), bh[..], NIL)
      ensures Chained(old(chains), chains, bh[b], b) && ring == old(ring) + [b]
    {
      hide Hashed, Free, HashFn;
      ghost var h := bh[..];
      Enfree(b);
      ghost var h1 := bh[..];
      Enhash(b);
      assert forall c: nat | c < |h| :: h1[c].dev == h[c].dev;
    }

    /** From the label repeat to the next sleep (buffer.c:234-260). */
    method Repeat(p: nat)
      requires Valid() && p < calls.Length && calls[p].pc == Again
      modifies bh, calls
      ensures Valid() && Quiet(old(bh[..]), disk, old(calls[..]), bh[..], disk, calls[..], p)
      ensures |bh[..]| == |old(bh[..])| && RanOn(old(bh[..]), old(calls[p]), bh[..], calls[p], 0)
    {
      hide Inv, SameValues, Reclaims, Quiet, Hashed, Free;
      CallIsOk(p);
      var b := FindBuffer(calls[p].dev, calls[p].block);
      if b != NIL {
        Take(p, b);
        return;
      }
      b := Choose();
      if b == NIL {
        MoveTo(p, NoneFree);
      } else {
        MoveTo(p, Picked(b));
      }
    }

    /**
      getblk with a buffer picked, from the moment it is unlocked (buffer.c:262-292): it may have been
      taken or dirtied meanwhile, and another call may have brought in the block.
    */
    method ResumePicked(p: nat)
      requires Valid() && p < calls.Length && calls[p].pc.Picked?
      modifies this`freeList, this`chains, this`ring, bh, hash, calls
      ensures Valid() && Quiet(old(bh[..]), disk, old(calls[..]), bh[..], disk, calls[..], p)
      ensures old(calls[p].pc.b) < bh.Length == |old(bh[..])| && calls[p] == old(calls[p]).(pc := calls[p].pc)
      ensures PickedRanOn(old(bh[..]), old(calls[p]), bh[..], calls[p].pc, old(calls[p].pc.b))
    {
      hide Inv, SameValues, Reclaims, Quiet, Hashed, Free, SameContents;
      CallIsOk(p);
      ghost var h, cs := bh[..], calls[..];
      SameStateIsQuiet(h, disk);
      var b := calls[p].pc.b;
      if bh[b].io != Unlocked {
        MoveTo(p, Picked(b));
      } else if bh[b].count > 0 {
        MoveTo(p, Again);
      } else if bh[b].dirt {
        MoveTo(p, SyncAt(b, bh[b].dev, 0, 0));
      } else {
        var other := FindBuffer(calls[p].dev, calls[p].block);
        if other != NIL {
          MoveTo(p, Again);
        } else {
          Claim(p, b);
        }
      }
    }

    /**
      The loops of sync_dev (buffer.c:64-92) from buffer i to the next sleep.  slots is the number of
      request slots that writes can take before one has to wait.  Between the two passes sync_inodes
      runs; its steps are those of other calls.
    */
    method Sync(p: nat, slots: nat)
      requires Valid() && p < calls.Length && calls[p].pc.SyncAt?
      modifies bh, calls
      ensures Valid() && Quiet(old(bh[..]), disk, old(calls[..]), bh[..], disk, calls[..], p) && SameBlocks(old(bh[..]), bh[..])
      ensures calls[p] == old(calls[p]).(pc := calls[p].pc) && old(calls[p].pc.picked) >= NIL && |bh[..]| == |old(bh[..])|
      ensures var c := old(calls[p].pc); SyncRan(old(bh[..]), bh[..], c.picked, c.sdev, c.i, c.pass, slots, calls[p].pc)
    {
      hide Inv, SameValues, Reclaims, Quiet, Hashed, Free, Linked, CallOk, PassedOver, ToWrite;
      ghost var h, cs := bh[..], calls[..];
      ghost var start := calls[p].pc.i;
      var left, picked, dev, i, pass := slots, calls[p].pc.picked, calls[p].pc.sdev, calls[p].pc.i, calls[p].pc.pass;
      CallIsOk(p);
      SyncCallOk(h, calls[p], picked, dev, i, pass);
      SameStateIsQuiet(h, disk);
      QuietOne(h, disk, cs, h, cs[p], p);
      assert cs[p := cs[p]] == cs;
      PassStarts(h, dev, i);
      while i < bh.Length
        invariant Valid() && Quiet(h, disk, cs, bh[..], disk, calls[..], p) && SameBlocks(h, bh[..])
        invariant calls[p].pc.SyncAt? && calls[p].pc == SyncAt(picked, dev, calls[p].pc.i, pass)
        invariant calls[p] == cs[p].(pc := calls[p].pc) && start <= i
        invariant PassedOver(h, bh[..], dev, start, i) && left == slots - |ToWrite(h, dev, start, i)|
      {
        ghost var h1, cs1 := bh[..], calls[..];
        CallIsOk(p);
        NotYet(h, h1, dev, start, i);
        if bh[i].dev == dev {
          if bh[i].io != Unlocked {
            SyncCallOk(bh[..], calls[p], picked, dev, i, pass);
            MoveTo(p, SyncAt(picked, dev, i, pass));
            QuietThen(h, disk, cs, h1, disk, cs1, bh[..], disk, calls[..], p);
            assert StoppedAtLock(h, bh[..], picked, dev, start, pass, slots, calls[p].pc);
            return;
          }
          if bh[i].dirt {
            HasDevice(i);
            Lock(p, i, WRITE, SyncSlot(picked, dev, i, pass));
            QuietThen(h, disk, cs, h1, disk, cs1, bh[..], disk, calls[..], p);
            if left == 0 {
              assert bh[..][i := h[i]] == h1;
              assert StoppedForSlot(h, bh[..], picked, dev, start, pass, slots, calls[p].pc);
              return;
            }
            left := left - 1;
            ghost var h2, cs2 := bh[..], calls[..];
            Enqueue(p, i, SyncAt(picked, dev, i + 1, pass));
            QuietThen(h, disk, cs, h2, disk, cs2, bh[..], disk, calls[..], p);
            assert bh[..] == h1[i := WriteQueued(h[i])];
          }
        }
        PassNext(h, h1, bh[..], dev, start, i);
        i := i + 1;
      }
      PassedAll(h, bh[..], dev, start, i);
      ghost var h1, cs1 := bh[..], calls[..];
      CallIsOk(p);
      SyncCallOk(bh[..], calls[p], picked, dev, 0, 1);
      MoveTo(p, if pass == 0 then SyncAt(picked, dev, 0, 1) else AfterSync(picked));
      QuietThen(h, disk, cs, h1, disk, cs1, bh[..], disk, calls[..], p);
    }

    lemma HasDevice(i: nat)
      requires Valid() && i < bh.Length && bh[i].dirt
      ensures bh[i].dev != 0
    {
      assert HeadOk(bh[..][i], disk);
    }

    /** A process calls sync_dev. */
    method StartSync(p: nat, dev: Word32)
      requires Valid() && p < calls.Length && calls[p].pc.Idle?
      modifies calls
      ensures Valid() && calls[..] == old(calls[..])[p := old(calls[p]).(pc := SyncAt(NIL, dev, 0, 0))]
    {
      hide Linked, Inv, SameValues, Reclaims;
      CallIsOk(p);
      MoveTo(p, SyncAt(NIL, dev, 0, 0));
    }

    /**
      get_from_hash_table after the wait (buffer.c:210-219).  The buffer cannot have changed hands, for
      the call has counted it.
    */
    method ResumeFound(p: nat, slot: bool)
      requires Valid() && p < calls.Length && calls[p].pc.Found?
      modifies bh, calls
      ensures Valid() && Quiet(old(bh[..]), disk, old(calls[..]), bh[..], disk, calls[..], p) && SameBlocks(old(bh[..]), bh[..])
      ensures old(calls[p].pc.b) < |old(bh[..])| && calls[p] == old(calls[p]).(pc := calls[p].pc)
      ensures FoundRanOn(old(bh[..]), old(calls[p]), bh[..], calls[p].pc, old(calls[p].pc.b), if slot then 1 else 0)
    {
      hide Linked, Inv, SameValues, Reclaims, Quiet;
      CallIsOk(p);
      var b := calls[p].pc.b;
      SameStateIsQuiet(bh[..], disk);
      if bh[b].io != Unlocked {
        MoveTo(p, Found(b));
      } else {
        assert bh[b].dev == calls[p].dev && bh[b].blocknr == calls[p].block;
        Got(p, b, slot);
      }
    }

    /** A slot has become free for the request of call p (ll_rw_blk.c:146-164). */
    method ResumeSlot(p: nat, slots: nat)
      requires Valid() && p < calls.Length && (calls[p].pc.ReadSlot? || calls[p].pc.SyncSlot?)
      modifies bh, calls
      ensures Valid() && Quiet(old(bh[..]), disk, old(calls[..]), bh[..], disk, calls[..], p) && SameBlocks(old(bh[..]), bh[..])
      ensures |bh[..]| == |old(bh[..])| && RanOn(old(bh[..]), old(calls[p]), bh[..], calls[p], slots)
    {
      hide Linked, Inv, SameValues, Reclaims, Quiet;
      CallIsOk(p);
      ghost var h, cs := bh[..], calls[..];
      SameStateIsQuiet(h, disk);
      if slots == 0 {
        QuietOne(h, disk, cs, h, cs[p], p);
        assert cs[p := cs[p]] == cs;
        return;
      }
      match calls[p].pc {
        case ReadSlot(b) => Enqueue(p, b, ReadWait(b));
        case SyncSlot(picked, dev, i, pass) =>
          Enqueue(p, i, SyncAt(picked, dev, i + 1, pass));
          ghost var h1, cs1 := bh[..], calls[..];
          Sync(p, slots - 1);
          QuietThen(h, disk, cs, h1, disk, cs1, bh[..], disk, calls[..], p);
      }
    }

    /** bread after its wait (buffer.c:324-330): the buffer, or NULL if it could not be read. */
    method ResumeRead(p: nat)
      requires Valid() && p < calls.Length && calls[p].pc.ReadWait?
      modifies bh, calls
      ensures Valid() && Quiet(old(bh[..]), disk, old(calls[..]), bh[..], disk, calls[..], p) && SameBlocks(old(bh[..]), bh[..])
      ensures |bh[..]| == |old(bh[..])| && RanOn(old(bh[..]), old(calls[p]), bh[..], calls[p], 0)
    {
      hide Linked, Inv, SameValues, Reclaims, Quiet;
      CallIsOk(p);
      var b := calls[p].pc.b;
      SameStateIsQuiet(bh[..], disk);
      if bh[b].io != Unlocked {
        MoveTo(p, ReadWait(b));
      } else if bh[b].uptodate {
        MoveTo(p, Have(b));
      } else {
        Drop(p, b);
      }
    }

    /** brelse (buffer.c:295-305). */
    method Release(p: nat)
      requires Valid() && p < calls.Length && (calls[p].pc.Have? || calls[p].pc.Releasing?)
      modifies bh, calls
      ensures Valid() && Quiet(old(bh[..]), disk, old(calls[..]), bh[..], disk, calls[..], p) && SameBlocks(old(bh[..]), bh[..])
      ensures old(calls[p].pc.b) < |old(bh[..])| && calls[p] == old(calls[p]).(pc := calls[p].pc)
      ensures LetGoOf(old(bh[..]), bh[..], calls[p].pc, old(calls[p].pc.b))
    {
      hide Linked, Inv, SameValues, Reclaims, Quiet;
      CallIsOk(p);
      var b := calls[p].pc.b;
      SameStateIsQuiet(bh[..], disk);
      if bh[b].io != Unlocked {
        MoveTo(p, Releasing(b));
      } else {
        Drop(p, b);
      }
    }

    /**
      The driver is done with the request of buffer b (end_request, blk.h:117-139).  A read may fail;
      a write puts the buffer on the disk, or, if the buffer was stored into meanwhile, anything.
    */
    method Complete(b: nat, uptodate: bool, written: Block)
      requires Valid() && b < bh.Length && bh[b].io.Queued? && (bh[b].io.rw.WRITE? && !bh[b].dirt ==> written == bh[b].data)
      modifies this`disk, bh
      ensures Valid() && SameValues(old(bh[..]), old(disk), bh[..], disk) && SameBlocks(old(bh[..]), bh[..])
      ensures bh[..] == old(bh[..])[b := bh[b]] && bh[b].io.Unlocked? && bh[b].count == old(bh[b].count)
      ensures old(bh[b].io.rw.READ?) ==> bh[b].uptodate == uptodate && (uptodate ==> bh[b].data == disk(bh[b].dev, bh[b].blocknr))
      ensures old(bh[b].io.rw.READ?) ==> disk == old(disk)
      ensures old(bh[b].io.rw.WRITE?) ==> disk(bh[b].dev, bh[b].blocknr) == written && bh[b] == old(bh[b]).(io := Unlocked)
    {
      hide Linked, Inv, SameValues;
      ghost var h := bh[..];
      if bh[b].io.rw.READ? {
        var x := if uptodate then bh[b].(io := Unlocked, uptodate := true, data := disk(bh[b].dev, bh[b].blocknr))
                 else bh[b].(io := Unlocked, uptodate := false);
        ReadDone(h, disk, calls[..], b, x);
        bh[b] := x;
      } else {
        WriteDone(h, disk, calls[..], b, written);
        disk := DiskWith(disk, bh[b].dev, bh[b].blocknr, written);
        bh[b] := bh[b].(io := Unlocked);
      }
      assert bh[..] == h[b := bh[b]];
      StillLinked(h);
    }

    /**
      The holder of a buffer that is up to date stores into it and marks it dirty; new_block does so to
      a fresh one that it alone holds (bitmap.c:120-128).  The value of that block changes, no other.
    */
    method Store(p: nat, data: Block)
      requires Valid() && StoreAllowed(Snapshot(), p)
      modifies bh
      ensures Valid() && SameBlocks(old(bh[..]), bh[..])
      ensures calls[p].pc.b < bh.Length
      ensures bh[..] == old(bh[..])[calls[p].pc.b := old(bh[calls[p].pc.b]).(data := data, uptodate := true, dirt := true)]
      ensures forall d: Word32, k: Word32 {:trigger Value(bh[..], disk, d, k)} | d != 0 :: Value(bh[..], disk, d, k)
                == if d == calls[p].dev && k == calls[p].block then data else Value(old(bh[..]), disk, d, k)
    {
      hide Linked, Inv, Value;
      ghost var h := bh[..];
      CallIsOk(p);
      var b := calls[p].pc.b;
      StoreStep(h, disk, calls[..], b, data);
      bh[b] := bh[b].(data := data, uptodate := true, dirt := true);
      assert bh[..] == h[b := bh[b]];
      StillLinked(h);
    }

    // ----- Runs -----

    /** What a call does when it gets to run again. */
    method Resume(p: nat, slots: nat)
      requires Valid() && p < calls.Length && !calls[p].pc.Idle? && !calls[p].pc.Have?
      modifies this`freeList, this`chains, this`ring, bh, hash, calls
      ensures Valid() && Quiet(old(bh[..]), disk, old(calls[..]), bh[..], disk, calls[..], p)
      ensures RanOn(old(bh[..]), old(calls[p]), bh[..], calls[p], slots)
    {
      hide Linked, Inv, SameValues, Reclaims, Quiet;
      CallIsOk(p);
      match calls[p].pc {
        case Again => Repeat(p);
        case Found(_) => ResumeFound(p, slots > 0);
        case NoneFree => MoveTo(p, Again);
        case Picked(_) => ResumePicked(p);
        case SyncAt(_, _, _, _) => Sync(p, slots);
        case SyncSlot(_, _, _, _) => ResumeSlot(p, slots);
        case ReadSlot(_) => ResumeSlot(p, slots);
        case ReadWait(_) => ResumeRead(p);
        case Releasing(_) => Release(p);
      }
    }

    /** One event; those that cannot happen in this state do nothing. */
    method Do(e: Event) returns (log: seq<Stored>)
      requires Valid()
      modifies this`freeList, this`chains, this`ring, this`disk, bh, hash, calls
      ensures Valid() && Happened(e, old(Snapshot()), Snapshot()) && log == LogOne(e, old(Snapshot()))
    {
      hide Linked, Inv, Value, Reclaims, RanOn;
      ghost var s := Snapshot();
      log := [];
      SameStateIsQuiet(s.h, disk);
      if !Possible(e, Snapshot()) {
        return;
      }
      match e {
        case Begin(p, dev, block, read) =>
          Start(p, dev, block, read);
          assert Snapshot() == Snap(s.h, s.disk, s.calls[p := Call(Again, dev, block, read)]);
        case BeginSync(p, dev) =>
          StartSync(p, dev);
          assert Snapshot() == Snap(s.h, s.disk, s.calls[p := s.calls[p].(pc := SyncAt(NIL, dev, 0, 0))]);
        case Resumed(p, slots) =>
          Resume(p, slots);
        case Done(b, uptodate, written) =>
          Complete(b, uptodate, written);
          SameBlocksReclaim(s.h, bh[..]);
        case Put(p, data) =>
          Store(p, data);
          SameBlocksReclaim(s.h, bh[..]);
          log := [Stored(calls[p].dev, calls[p].block, data)];
          LatestOfOne(log[0]);
        case LetGo(p) =>
          Release(p);
      }
      assert log == LogOne(e, s);
    }

    /**
      Any history.  trace is the state before and after each event, log the stores among the events:
      every block has the value stored into it last, or the one it had at the start, and whoever holds
      a buffer that bread returned finds that value in it.
    */
    method Run(events: seq<Event>) returns (log: seq<Stored>, ghost trace: seq<Snap>)
      requires Valid()
      modifies this`freeList, this`chains, this`ring, this`disk, bh, hash, calls
      ensures Valid() && IsRun(events, trace) && trace[0] == old(Snapshot()) && trace[|events|] == Snapshot()
      ensures log == LogOf(events, trace)
      ensures forall d: Word32, k: Word32 {:trigger Value(bh[..], disk, d, k)} | d != 0 ::
                Value(bh[..], disk, d, k) == Latest(log, d, k, Value(old(bh[..]), old(disk), d, k))
      ensures forall p: nat | p < calls.Length && calls[p].pc.Have? && calls[p].read ::
                calls[p].pc.b < bh.Length && bh[calls[p].pc.b].data == Value(bh[..], disk, calls[p].dev, calls[p].block)
    {
      hide Linked, Inv, Value, Happened, LogOne;
      log, trace := [], [Snapshot()];
      var i := 0;
      while i < |events|
        invariant i <= |events| && Valid() && IsRun(events[..i], trace) && trace[0] == old(Snapshot()) && trace[i] == Snapshot()
        invariant log == LogOf(events[..i], trace)
      {
        var more := Do(events[i]);
        RunGoesOn(events, i, trace, Snapshot());
        log, trace, i := log + more, trace + [Snapshot()], i + 1;
      }
      assert events[..i] == events;
      forall d: Word32, k: Word32 | d != 0
        ensures Value(bh[..], disk, d, k) == Latest(log, d, k, Value(old(bh[..]), old(disk), d, k))
      {
        ValuesOverRun(events, trace, d, k);
      }
      forall p: nat | p < calls.Length && calls[p].pc.Have? && calls[p].read
        ensures calls[p].pc.b < bh.Length && bh[calls[p].pc.b].data == Value(bh[..], disk, calls[p].dev, calls[p].block)
      {
        CallIsOk(p);
        BreadReturnsValue(bh[..], disk, calls[..], p);
      }
    }
  }

  lemma NewLists(h: seq<Head>, hash: seq<int>, chains: seq<seq<nat>>, ring: seq<nat>)
    requires |h| >= 2 && |hash| == NR_HASH == |chains| && |ring| == |h|
    requires forall b | 0 <= b < |h| :: ring[b] == b && h[b].dev == 0 && h[b].next == NIL && h[b].prev == NIL
    requires forall b | 0 <= b < |h| :: h[b].nextFree == if b + 1 < |h| then b + 1 else 0
    requires forall b | 0 <= b < |h| :: h[b].prevFree == if b > 0 then b - 1 else |h| - 1
    requires forall m | 0 <= m < NR_HASH :: hash[m] == NIL && chains[m] == []
    ensures Hashed(h, hash, chains, NIL) && Free(h, 0, ring, NIL)
  {
    hide HashFn;
    forall b: nat | b < |h| ensures b in ring {
      assert ring[b] == b;
    }
  }

  lemma NewInv(h: seq<Head>, disk: Disk, calls: seq<Call>)
    requires forall b | 0 <= b < |h| :: Blank(h[b])
    requires forall p | 0 <= p < |calls| :: calls[p].pc.Idle?
    ensures Inv(h, disk, calls)
    ensures forall d: Word32, k: Word32 :: Value(h, disk, d, k) == disk(d, k)
  {
    forall b: nat | b < |h| ensures h[b].count == |Holders(calls, b)| {
      assert Holders(calls, b) == {};
    }
  }

  lemma SyncCallOk(h: seq<Head>, c: Call, picked: int, dev: Word32, i: nat, pass: nat)
    requires CallOk(h, c) && c.pc.SyncAt? && c.pc.picked == picked
    ensures CallOk(h, c.(pc := SyncAt(picked, dev, i, pass))) && picked >= NIL && CallOk(h, c.(pc := AfterSync(picked)))
  {
  }

  /** b is the choice among the first k buffers of the free list, and stands at j. */
  ghost predicate Chosen(h: seq<Head>, ring: seq<nat>, k: nat, b: int, j: nat) {
    && k <= |ring| && (forall i | 0 <= i < k :: ring[i] < |h|)
    && (b == NIL ==> forall i | 0 <= i < k :: h[ring[i]].count > 0)
    && (b != NIL ==> j < k && ring[j] == b && h[b].count == 0)
    && (b != NIL ==> forall i | 0 <= i < k && h[ring[i]].count == 0 ::
          if i < j then Badness(h[b]) < Badness(h[ring[i]]) else Badness(h[b]) <= Badness(h[ring[i]]))
  }

  lemma NothingChosen(h: seq<Head>, ring: seq<nat>)
    ensures Chosen(h, ring, 0, NIL, 0)
  {
  }

  lemma ChosenNext(h: seq<Head>, ring: seq<nat>, k: nat, b: int, j: nat)
    requires Chosen(h, ring, k, b, j) && k < |ring| && ring[k] < |h| && (b == NIL || 0 <= b < |h|)
    ensures if h[ring[k]].count == 0 && (b == NIL || Badness(h[ring[k]]) < Badness(h[b]))
      then Chosen(h, ring, k + 1, ring[k], k) else Chosen(h, ring, k + 1, b, j)
  {
  }

  lemma ChosenOfAll(h: seq<Head>, ring: seq<nat>, b: int, j: nat)
    requires Chosen(h, ring, |ring|, b, j) && forall c: nat | c < |h| :: c in ring
    ensures b == NIL ==> forall c: nat | c < |h| :: h[c].count > 0
    ensures b != NIL ==> 0 <= b < |h| && LeastBad(h, b)
  {
    hide Badness;
    forall c: nat | c < |h|
      ensures b == NIL ==> h[c].count > 0
      ensures b != NIL && h[c].count == 0 ==> !Better(h[c], h[b])
    {
      assert c in ring;
      var i :| 0 <= i < |ring| && ring[i] == c;
      if b != NIL {
        BadnessRanks(h[c], h[b]);
      }
    }
  }

  /** Of the unreferenced buffers before it on the free list, each is a worse choice. */
  ghost predicate FirstBest(h: seq<Head>, ring: seq<nat>, j: nat)
    requires j < |ring|
  {
    ring[j] < |h| && forall i | 0 <= i < j && ring[i] < |h| && h[ring[i]].count == 0 :: Better(h[ring[j]], h[ring[i]])
  }

  lemma ChosenIsFirst(h: seq<Head>, ring: seq<nat>, k: nat, b: int, j: nat)
    requires Chosen(h, ring, k, b, j)
    ensures b != NIL ==> j < |ring| && ring[j] == b && FirstBest(h, ring, j)
  {
    if b != NIL {
      forall i | 0 <= i < j ensures Badness(h[b]) < Badness(h[ring[i]]) <==> Better(h[b], h[ring[i]]) {
        BadnessRanks(h[b], h[ring[i]]);
      }
    }
  }

  lemma NoneBetter(h: seq<Head>, b: nat)
    requires b < |h| && h[b].count == 0 && Badness(h[b]) == 0
    ensures LeastBad(h, b)
  {
  }
}
