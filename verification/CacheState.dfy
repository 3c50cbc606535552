/**
  The buffers, the disk and the processes inside linux-0.11/fs/buffer.c between two sleep points, and
  what each atomic step may do to them.  A call is one getblk, bread or sync_dev, together with the
  reference to a buffer that it leaves behind; a process that holds several buffers is several calls.
*/
module CacheState {
  import opened BlockTree
  import opened BufferLists
  import opened Bytes
  import opened Sets

  type Disk = (Word32, Word32) -> Block

  /**
    Where a call sleeps, or may be interleaved with others: at the label repeat, in wait_on_buffer for
    the buffer found or the buffer picked, on buffer_wait, in sync_dev at buffer i (on its lock, or
    with the lock held and no request slot), holding the buffer returned, and in bread.
  */
  datatype Pc = Idle | Again | Found(b: nat) | NoneFree | Picked(b: nat)
              | SyncAt(picked: int, sdev: Word32, i: nat, pass: nat) | SyncSlot(picked: int, sdev: Word32, i: nat, pass: nat)
              | Have(b: nat) | ReadSlot(b: nat) | ReadWait(b: nat) | Releasing(b: nat)

  datatype Call = Call(pc: Pc, dev: Word32, block: Word32, read: bool)

  /** The buffer a call has counted in b_count. */
  function Holds(c: Call): int {
    match c.pc
    case Found(b) => b
    case Have(b) => b
    case ReadSlot(b) => b
    case ReadWait(b) => b
    case Releasing(b) => b
    case _ => NIL
  }

  /** The buffer a call has locked while it waits for a request slot. */
  function Asks(c: Call): int {
    match c.pc
    case ReadSlot(b) => b
    case SyncSlot(_, _, i, _) => i
    case _ => NIL
  }

  ghost function Holders(calls: seq<Call>, b: int): set<nat> {
    set p: nat | p < |calls| && Holds(calls[p]) == b
  }

  ghost predicate Counted(h: seq<Head>, calls: seq<Call>) {
    forall b: nat {:trigger h[b]} | b < |h| :: h[b].count == |Holders(calls, b)|
  }

  /** A buffer a call holds keeps being the buffer of the block the call asked for. */
  ghost predicate CallOk(h: seq<Head>, c: Call) {
    && (Holds(c) != NIL ==> 0 <= Holds(c) < |h| && h[Holds(c)].dev == c.dev && h[Holds(c)].blocknr == c.block)
    && (Asks(c) != NIL ==> 0 <= Asks(c) < |h| && h[Asks(c)].io == Asking(if c.pc.ReadSlot? then READ else WRITE))
    && (c.pc.Have? && c.read ==> h[c.pc.b].uptodate)
    && (c.pc.Picked? ==> c.pc.b < |h|)
    && (c.pc.SyncAt? || c.pc.SyncSlot? ==> NIL <= c.pc.picked < |h|)
    && (!c.pc.Idle? && !((c.pc.SyncAt? || c.pc.SyncSlot?) && c.pc.picked == NIL) ==> c.dev != 0)
  }

  ghost predicate CallsOk(h: seq<Head>, calls: seq<Call>) {
    && (forall p | 0 <= p < |calls| :: CallOk(h, calls[p]))
    && (forall p, q | 0 <= p < |calls| && 0 <= q < |calls| && p != q && Asks(calls[p]) != NIL :: Asks(calls[p]) != Asks(calls[q]))
  }

  /**
    Dirty implies up to date; up to date, clean and not being written implies equal to the disk; a
    buffer is read only while not up to date.
  */
  ghost predicate Coherent(h: seq<Head>, disk: Disk) {
    forall b: nat {:trigger h[b]} | b < |h| :: HeadOk(h[b], disk)
  }

  predicate HeadOk(x: Head, disk: Disk) {
    && (x.dirt ==> x.uptodate)
    && (x.io == Asking(READ) || x.io == Queued(READ) ==> !x.uptodate)
    && (x.io == Asking(WRITE) || x.io == Queued(WRITE) ==> x.uptodate)
    && (x.uptodate && !x.dirt && x.io != Queued(WRITE) && x.dev != 0 ==> x.data == disk(x.dev, x.blocknr))
    && (x.dev == 0 ==> !x.uptodate && x.io.Unlocked?)
  }

  ghost predicate Inv(h: seq<Head>, disk: Disk, calls: seq<Call>) {
    Unique(h) && Coherent(h, disk) && Counted(h, calls) && CallsOk(h, calls)
  }

  // ----- The abstract value of a block -----

  predicate Caches(x: Head, d: Word32, k: Word32) {
    x.dev == d && x.blocknr == k && x.uptodate
  }

  /** The cached copy if it is up to date, else what the disk holds. */
  ghost function Value(h: seq<Head>, disk: Disk, d: Word32, k: Word32): Block {
    if exists b: nat :: b < |h| && Caches(h[b], d, k) then (var b: nat :| b < |h| && Caches(h[b], d, k); h[b].data) else disk(d, k)
  }

  lemma ValueCached(h: seq<Head>, disk: Disk, b: nat)
    requires Unique(h) && b < |h| && h[b].dev != 0 && h[b].uptodate
    ensures Value(h, disk, h[b].dev, h[b].blocknr) == h[b].data
  {
    assert Caches(h[b], h[b].dev, h[b].blocknr);
  }

  /** When only buffer b changes, the value of a block is decided by b and the disk, or does not change. */
  lemma ValueAfter(h: seq<Head>, h': seq<Head>, disk: Disk, disk': Disk, b: nat, d: Word32, k: Word32)
    requires Unique(h) && Unique(h') && b < |h| && SameContents(h, h', b) && d != 0
    ensures || Value(h', disk', d, k) == Value(h, disk, d, k)
            || (&& Value(h, disk, d, k) == (if Caches(h[b], d, k) then h[b].data else disk(d, k))
                && Value(h', disk', d, k) == (if Caches(h'[b], d, k) then h'[b].data else disk'(d, k)))
  {
    if c: nat :| c < |h| && c != b && Caches(h[c], d, k) {
      ValueCached(h, disk, c);
      ValueCached(h', disk', c);
    } else {
      assert forall c: nat | c < |h| && c != b :: !Caches(h[c], d, k);
      assert forall c: nat | c < |h| && c != b :: !Caches(h'[c], d, k);
      if Caches(h[b], d, k) {
        ValueCached(h, disk, b);
      }
      if Caches(h'[b], d, k) {
        ValueCached(h', disk', b);
      }
    }
  }

  ghost predicate SameValues(h: seq<Head>, disk: Disk, h': seq<Head>, disk': Disk) {
    forall d: Word32, k: Word32 {:trigger Value(h', disk', d, k)} | d != 0 :: Value(h', disk', d, k) == Value(h, disk, d, k)
  }

  lemma SameValuesFrom(h: seq<Head>, h': seq<Head>, disk: Disk, b: nat)
    requires Unique(h) && Unique(h') && b < |h| && SameContents(h, h', b)
    requires h'[b].dev == h[b].dev && h'[b].blocknr == h[b].blocknr && h'[b].uptodate == h[b].uptodate && h'[b].data == h[b].data
    ensures SameValues(h, disk, h', disk)
  {
    forall d: Word32, k: Word32 | d != 0 ensures Value(h', disk, d, k) == Value(h, disk, d, k) {
      ValueAfter(h, h', disk, disk, b, d, k);
    }
  }

  // ----- Counting references -----

  lemma HoldersAfter(calls: seq<Call>, p: nat, c: Call, b: int)
    requires p < |calls|
    ensures Holds(c) == Holds(calls[p]) ==> Holders(calls[p := c], b) == Holders(calls, b)
    ensures b != Holds(c) && b != Holds(calls[p]) ==> Holders(calls[p := c], b) == Holders(calls, b)
    ensures b == Holds(c) != Holds(calls[p]) ==> |Holders(calls[p := c], b)| == |Holders(calls, b)| + 1
    ensures b == Holds(calls[p]) != Holds(c) ==> |Holders(calls[p := c], b)| == |Holders(calls, b)| - 1
  {
    hide Holders;
    var s, s' := Holders(calls, b), Holders(calls[p := c], b);
    HoldersAre(calls, b);
    HoldersAre(calls[p := c], b);
    CardDifferAtOne(s, s', p);
  }

  lemma HoldersAre(calls: seq<Call>, b: int)
    ensures forall q: nat :: q in Holders(calls, b) <==> q < |calls| && Holds(calls[q]) == b
  {
  }

  /** Nobody holds a buffer whose b_count is zero. */
  lemma Unheld(h: seq<Head>, calls: seq<Call>, b: nat, p: nat)
    requires Counted(h, calls) && b < |h| && h[b].count == 0 && p < |calls|
    ensures Holds(calls[p]) != b
  {
    assert Holders(calls, b) == {};
    assert p !in Holders(calls, b);
  }

  // ----- The steps -----

  /** The call moves on; no buffer changes. */
  lemma MoveStep(h: seq<Head>, disk: Disk, calls: seq<Call>, p: nat, c: Call)
    requires Inv(h, disk, calls) && p < |calls| && CallOk(h, c) && Asks(c) == NIL && Holds(c) == Holds(calls[p])
    ensures Inv(h, disk, calls[p := c])
  {
    forall b: nat | b < |h| ensures h[b].count == |Holders(calls[p := c], b)| {
      HoldersAfter(calls, p, c, b);
    }
  }

  /** b_count++ or b_count--, by the call that takes or gives up the reference. */
  lemma CountStep(h: seq<Head>, disk: Disk, calls: seq<Call>, p: nat, c: Call, b: nat, count: nat)
    requires Inv(h, disk, calls) && p < |calls| && b < |h| && CallOk(h, c) && Asks(c) == NIL
    requires (Holds(calls[p]) == NIL && Holds(c) == b && count == h[b].count + 1)
          || (Holds(calls[p]) == b && Holds(c) == NIL && count == h[b].count - 1)
    ensures Inv(h[b := h[b].(count := count)], disk, calls[p := c])
    ensures SameValues(h, disk, h[b := h[b].(count := count)], disk)
  {
    var h' := h[b := h[b].(count := count)];
    forall a: nat | a < |h| ensures h'[a].count == |Holders(calls[p := c], a)| {
      HoldersAfter(calls, p, c, a);
    }
    forall q | 0 <= q < |calls| && q != p ensures CallOk(h', calls[q]) {
      assert CallOk(h, calls[q]);
    }
    SameValuesFrom(h, h', disk, b);
  }

  lemma HeldIsCounted(h: seq<Head>, calls: seq<Call>, p: nat)
    requires Counted(h, calls) && p < |calls| && 0 <= Holds(calls[p]) < |h|
    ensures h[Holds(calls[p])].count > 0
  {
    assert p in Holders(calls, Holds(calls[p]));
  }

  /** make_request takes the lock (ll_rw_blk.c:121-126); the call then looks for a slot. */
  lemma LockStep(h: seq<Head>, disk: Disk, calls: seq<Call>, p: nat, c: Call, b: nat, rw: Transfer)
    requires Inv(h, disk, calls) && p < |calls| && b < |h| && h[b].io.Unlocked? && h[b].dev != 0
    requires rw.READ? ==> !h[b].uptodate
    requires rw.WRITE? ==> h[b].dirt
    requires Asks(c) == b && CallOk(h[b := h[b].(io := Asking(rw))], c) && Holds(c) == Holds(calls[p])
    ensures var h' := h[b := h[b].(io := Asking(rw))]; Inv(h', disk, calls[p := c]) && SameValues(h, disk, h', disk)
  {
    var h' := h[b := h[b].(io := Asking(rw))];
    forall a: nat | a < |h| ensures h'[a].count == |Holders(calls[p := c], a)| {
      HoldersAfter(calls, p, c, a);
    }
    forall q | 0 <= q < |calls| && q != p ensures CallOk(h', calls[q]) && Asks(calls[q]) != b {
      assert CallOk(h, calls[q]);
    }
    SameValuesFrom(h, h', disk, b);
  }

  /** The request gets its slot, and b_dirt is cleared (ll_rw_blk.c:71-72, 151-164). */
  lemma QueueStep(h: seq<Head>, disk: Disk, calls: seq<Call>, p: nat, c: Call, b: nat, rw: Transfer)
    requires Inv(h, disk, calls) && p < |calls| && Asks(calls[p]) == b && b < |h| && h[b].io == Asking(rw)
    requires Asks(c) == NIL && CallOk(h, c) && Holds(c) == Holds(calls[p])
    ensures var h' := h[b := h[b].(io := Queued(rw), dirt := false)]; Inv(h', disk, calls[p := c]) && SameValues(h, disk, h', disk)
  {
    var h' := h[b := h[b].(io := Queued(rw), dirt := false)];
    forall a: nat | a < |h| ensures h'[a].count == |Holders(calls[p := c], a)| {
      HoldersAfter(calls, p, c, a);
    }
    forall q | 0 <= q < |calls| && q != p ensures CallOk(h', calls[q]) {
      assert CallOk(h, calls[q]);
    }
    SameValuesFrom(h, h', disk, b);
  }

  /** end_request after a read: the buffer holds the disk's block, or is still not up to date. */
  lemma ReadDone(h: seq<Head>, disk: Disk, calls: seq<Call>, b: nat, x: Head)
    requires Inv(h, disk, calls) && b < |h| && h[b].io == Queued(READ)
    requires x == h[b].(io := Unlocked, uptodate := false) || x == h[b].(io := Unlocked, uptodate := true, data := disk(h[b].dev, h[b].blocknr))
    ensures Inv(h[b := x], disk, calls) && SameValues(h, disk, h[b := x], disk)
  {
    var h' := h[b := x];
    forall q | 0 <= q < |calls| ensures CallOk(h', calls[q]) {
      assert CallOk(h, calls[q]);
    }
    forall d: Word32, k: Word32 | d != 0 ensures Value(h', disk, d, k) == Value(h, disk, d, k) {
      ValueAfter(h, h', disk, disk, b, d, k);
    }
  }

  function DiskWith(disk: Disk, d: Word32, k: Word32, w: Block): Disk {
    (d', k') => if d' == d && k' == k then w else disk(d', k')
  }

  /**
    end_request after a write.  The disk holds what the buffer holds, unless the buffer was dirtied
    while the write was under way: then w may be anything in between.
  */
  lemma WriteDone(h: seq<Head>, disk: Disk, calls: seq<Call>, b: nat, w: Block)
    requires Inv(h, disk, calls) && b < |h| && h[b].io == Queued(WRITE) && (!h[b].dirt ==> w == h[b].data)
    ensures var h', disk' := h[b := h[b].(io := Unlocked)], DiskWith(disk, h[b].dev, h[b].blocknr, w);
      Inv(h', disk', calls) && SameValues(h, disk, h', disk')
  {
    var h', disk' := h[b := h[b].(io := Unlocked)], DiskWith(disk, h[b].dev, h[b].blocknr, w);
    forall q | 0 <= q < |calls| ensures CallOk(h', calls[q]) {
      assert CallOk(h, calls[q]);
    }
    forall a: nat | a < |h| ensures HeadOk(h'[a], disk') {
      assert HeadOk(h[a], disk);
    }
    forall d: Word32, k: Word32 | d != 0 ensures Value(h', disk', d, k) == Value(h, disk, d, k) {
      ValueAfter(h, h', disk, disk', b, d, k);
    }
  }

  /** The holder stores into the buffer: the value of its block becomes x, no other value changes. */
  lemma StoreStep(h: seq<Head>, disk: Disk, calls: seq<Call>, b: nat, x: Block)
    requires Inv(h, disk, calls) && b < |h| && h[b].dev != 0 && (h[b].uptodate || h[b].io.Unlocked?)
    ensures var h' := h[b := h[b].(data := x, uptodate := true, dirt := true)];
      && Inv(h', disk, calls)
      && forall d: Word32, k: Word32 {:trigger Value(h', disk, d, k)} | d != 0 ::
           Value(h', disk, d, k) == if d == h[b].dev && k == h[b].blocknr then x else Value(h, disk, d, k)
  {
    var h' := h[b := h[b].(data := x, uptodate := true, dirt := true)];
    forall q | 0 <= q < |calls| ensures CallOk(h', calls[q]) {
      assert CallOk(h, calls[q]);
    }
    ValueCached(h', disk, b);
    forall d: Word32, k: Word32 | d != 0 && !(d == h[b].dev && k == h[b].blocknr) ensures Value(h', disk, d, k) == Value(h, disk, d, k) {
      ValueAfter(h, h', disk, disk, b, d, k);
    }
  }

  /**
    The buffer is given to another block (buffer.c:284-290): nobody referred to it, it was unlocked and
    clean, and no buffer had the new block, so no value changes.
  */
  lemma ClaimStep(h: seq<Head>, h': seq<Head>, disk: Disk, calls: seq<Call>, p: nat, c: Call, b: nat)
    requires Inv(h, disk, calls) && b < |h| && p < |calls|
    requires h[b].count == 0 && h[b].io.Unlocked? && !h[b].dirt
    requires c.dev != 0 && c.pc == Found(b) && Holds(calls[p]) == NIL
    requires forall a: nat | a < |h| :: h[a].dev != c.dev || h[a].blocknr != c.block
    requires SameContents(h, h', b)
    requires h'[b].dev == c.dev && h'[b].blocknr == c.block && h'[b].count == 1 && !h'[b].dirt && !h'[b].uptodate && h'[b].io.Unlocked?
    ensures Inv(h', disk, calls[p := c]) && SameValues(h, disk, h', disk)
  {
    forall a: nat | a < |h| ensures h'[a].count == |Holders(calls[p := c], a)| {
      HoldersAfter(calls, p, c, a);
    }
    forall q | 0 <= q < |calls| && q != p ensures CallOk(h', calls[q]) {
      assert CallOk(h, calls[q]);
      Unheld(h, calls, b, q);
    }
    forall d: Word32, k: Word32 | d != 0 ensures Value(h', disk, d, k) == Value(h, disk, d, k) {
      ValueAfter(h, h', disk, disk, b, d, k);
    }
  }

  // ----- Steps in sequence -----

  /** A buffer that now belongs to another block was unreferenced, unlocked and clean. */
  ghost predicate Reclaims(h: seq<Head>, h': seq<Head>) {
    |h'| == |h| && forall b: nat {:trigger h'[b]} | b < |h| && (h'[b].dev != h[b].dev || h'[b].blocknr != h[b].blocknr) ::
      h[b].count == 0 && h[b].io.Unlocked? && !h[b].dirt
  }

  ghost predicate SameBlocks(h: seq<Head>, h': seq<Head>) {
    |h'| == |h| && forall b: nat {:trigger h'[b]} | b < |h| :: h'[b].dev == h[b].dev && h'[b].blocknr == h[b].blocknr
  }

  /** What one step of call p does for all others: no block's value and no other call changes. */
  ghost predicate Quiet(h: seq<Head>, disk: Disk, calls: seq<Call>, h': seq<Head>, disk': Disk, calls': seq<Call>, p: nat) {
    && SameValues(h, disk, h', disk') && Reclaims(h, h')
    && p < |calls| == |calls'| && calls' == calls[p := calls'[p]]
    && (!calls'[p].pc.Idle? ==> calls'[p].dev == calls[p].dev && calls'[p].block == calls[p].block && calls'[p].read == calls[p].read)
  }

  lemma QuietThen(h: seq<Head>, disk: Disk, calls: seq<Call>, h1: seq<Head>, disk1: Disk, calls1: seq<Call>,
                  h2: seq<Head>, disk2: Disk, calls2: seq<Call>, p: nat)
    requires Quiet(h, disk, calls, h1, disk1, calls1, p) && Quiet(h1, disk1, calls1, h2, disk2, calls2, p)
    requires SameBlocks(h1, h2) && !calls1[p].pc.Idle?
    ensures Quiet(h, disk, calls, h2, disk2, calls2, p)
  {
    forall d: Word32, k: Word32 | d != 0 ensures Value(h2, disk2, d, k) == Value(h, disk, d, k) {
      assert Value(h1, disk1, d, k) == Value(h, disk, d, k);
    }
    forall b: nat | b < |h| && (h2[b].dev != h[b].dev || h2[b].blocknr != h[b].blocknr)
      ensures h[b].count == 0 && h[b].io.Unlocked? && !h[b].dirt
    {
      assert h2[b].dev == h1[b].dev && h2[b].blocknr == h1[b].blocknr;
    }
  }

  lemma SameStateIsQuiet(h: seq<Head>, disk: Disk)
    ensures SameValues(h, disk, h, disk) && Reclaims(h, h) && SameBlocks(h, h)
  {
  }

  lemma QuietOne(h: seq<Head>, disk: Disk, calls: seq<Call>, h': seq<Head>, c: Call, p: nat)
    requires SameValues(h, disk, h', disk) && Reclaims(h, h') && p < |calls|
    requires !c.pc.Idle? ==> c.dev == calls[p].dev && c.block == calls[p].block && c.read == calls[p].read
    ensures Quiet(h, disk, calls, h', disk, calls[p := c], p)
  {
  }

  /** What bread promises: the buffer it returned has the value of the block asked for. */
  lemma BreadReturnsValue(h: seq<Head>, disk: Disk, calls: seq<Call>, p: nat)
    requires Inv(h, disk, calls) && p < |calls| && calls[p].pc.Have? && calls[p].read
    ensures h[calls[p].pc.b].data == Value(h, disk, calls[p].dev, calls[p].block)
  {
    assert CallOk(h, calls[p]);
    ValueCached(h, disk, calls[p].pc.b);
  }
}
