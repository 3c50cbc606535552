/**
  linux-0.11/kernel/blk_drv/ll_rw_blk.c and blk.h: the pool of 32 request slots, the linked queue of
  each block device, and the buffer locks that keep queued keys distinct.

  A process that has to sleep returns `AwaitBuffer` or `AwaitSlot`; any other steps may then run before
  it calls again (lock_buffer's loop and the `repeat` label).
*/
module Requests {
  import opened Elevator

  const NR_REQUEST := 32
  const NR_BLK_DEV := 7
  const WRITE_SLOTS := NR_REQUEST * 2 / 3

  datatype Rw = READ | WRITE | READA | WRITEA
  datatype Outcome = Skipped | Queued(slot: nat) | AwaitBuffer | AwaitSlot

  function Cmd(rw: Rw): nat {
    if rw.READ? || rw.READA? then 0 else 1
  }

  predicate Ahead(rw: Rw) {
    rw.READA? || rw.WRITEA?
  }

  function Major(dev: nat): nat {
    dev / 256
  }

  class BufferHead {
    var dev: nat
    var blocknr: nat
    var lock: bool
    var dirt: bool
    var uptodate: bool

    constructor (dev: nat, blocknr: nat)
      ensures this.dev == dev && this.blocknr == blocknr && !lock && !dirt && !uptodate
    {
      this.dev, this.blocknr, lock, dirt, uptodate := dev, blocknr, false, false, false;
    }
  }

  class Request {
    var dev: int                // -1 when the slot is free
    var cmd: nat
    var startSector: nat
    var bh: BufferHead?
    var next: Request?

    constructor ()
      ensures dev == -1 && next == null && bh == null
    {
      dev, cmd, startSector, bh, next := -1, 0, 0, null, null;
    }

    function Key(): Key
      reads `dev, `cmd, `startSector
    {
      Elevator.Key(cmd, if dev < 0 then 0 else dev, startSector)
    }
  }

  function Keys(q: seq<Request>): (ks: seq<Key>)
    reads q`dev, q`cmd, q`startSector
    ensures |ks| == |q| && forall i | 0 <= i < |q| :: ks[i] == q[i].Key()
  {
    if q == [] then [] else [q[0].Key()] + Keys(q[1..])
  }

  /** ll_rw_blk.c:154-162. */
  method FillSlot(r: Request, rw: Rw, bh: BufferHead)
    modifies r
    ensures r.bh == bh && r.dev == bh.dev && r.cmd == Cmd(rw) && r.startSector == 2 * bh.blocknr && r.next == null
    ensures r.Key() == Key(Cmd(rw), bh.dev, 2 * bh.blocknr)
  {
    r.dev, r.cmd, r.startSector, r.bh, r.next := bh.dev, Cmd(rw), 2 * bh.blocknr, bh, null;
  }

  method FreeSlots() returns (slots: seq<Request>)
    ensures |slots| == NR_REQUEST && fresh(slots)
    ensures forall i | 0 <= i < |slots| :: slots[i].dev == -1
    ensures forall i, j | 0 <= i < j < |slots| :: slots[i] != slots[j]
  {
    slots := [];
    while |slots| < NR_REQUEST
      invariant |slots| <= NR_REQUEST && fresh(slots)
      invariant forall i | 0 <= i < |slots| :: slots[i].dev == -1
      invariant forall i, j | 0 <= i < j < |slots| :: slots[i] != slots[j]
    {
      var r := new Request();
      slots := slots + [r];
    }
  }

  /** The list starting at head runs through the requests of q, in order. */
  ghost predicate Chain(head: Request?, q: seq<Request>)
    reads q`next
  {
    && head == (if q == [] then null else q[0])
    && (q != [] ==> q[|q| - 1].next == null)
    && forall i, j {:trigger q[i], q[j]} | 0 <= i < j < |q| && j == i + 1 :: q[i].next == q[j]
  }

  ghost function Spliced(q: seq<Request>, r: Request, p: nat): seq<Request>
    requires p <= |q|
  {
    q[..p] + [r] + q[p..]
  }

  lemma SplicedKeys(q: seq<Request>, r: Request, p: nat)
    requires q != [] && StopFrom(Keys(q), r.Key(), 0) == p
    ensures p < |q| && Keys(Spliced(q, r, p + 1)) == Insert(Keys(q), r.Key())
  {
    hide StopFrom, InOrder;
    var ks, q' := Keys(q), Spliced(q, r, p + 1);
    var ks' := ks[..p + 1] + [r.Key()] + ks[p + 1..];
    assert Insert(ks, r.Key()) == ks';
    forall j | 0 <= j < |q'| ensures Keys(q')[j] == ks'[j] {
      assert Keys(q')[j] == q'[j].Key();
    }
  }

  lemma KeysShape(q: seq<Key>, k: Key)
    requires TwoRuns(q) && Distinct(q) && k !in q
    ensures TwoRuns(Insert(q, k)) && Distinct(Insert(q, k))
  {
    var u := (set x | x in q) + {k};
    InsertKeepsQueue(u, q, k);
  }

  twostate lemma TailKeys(q: seq<Request>)
    requires q != [] && forall i | 1 <= i < |q| :: unchanged(q[i])
    ensures Keys(q[1..]) == old(Keys(q))[1..]
  {
    SameKeys(q[1..]);
  }

  twostate lemma TailChain(q: seq<Request>)
    requires q != [] && old(Chain(q[0], q)) && forall i | 1 <= i < |q| :: unchanged(q[i])
    ensures Chain(if |q| > 1 then q[1] else null, q[1..])
  {
    var t := q[1..];
    forall i, j | 0 <= i < j < |t| && j == i + 1 ensures t[i].next == t[j] {
      assert t[i] == q[i + 1] && t[j] == q[j + 1] && unchanged(q[i + 1]);
    }
    if t != [] {
      assert t[|t| - 1] == q[|q| - 1];
    }
  }

  lemma EmptyShape()
    ensures TwoRuns(Keys([])) && Distinct(Keys([])) && Chain(null, [])
  {
    EmptyQueue();
  }

  lemma ShapeOfTail(q: seq<Key>)
    requires TwoRuns(q) && Distinct(q) && q != []
    ensures TwoRuns(q[1..]) && Distinct(q[1..])
  {
    CompleteKeepsRuns(q);
  }

  lemma SplicedMembers(q: seq<Request>, r: Request, p: nat)
    requires p <= |q|
    ensures forall x :: x in Spliced(q, r, p) <==> x in q || x == r
  {
    assert q == q[..p] + q[p..];
  }

  twostate lemma SameKeys(q: seq<Request>)
    requires forall i | 0 <= i < |q| :: unchanged(q[i])
    ensures Keys(q) == old(Keys(q))
  {
    if q != [] {
      assert forall i | 0 <= i < |q| - 1 :: q[1..][i] == q[i + 1];
      SameKeys(q[1..]);
    }
  }

  lemma ChainOfOne(r: Request, q: seq<Request>, head: Request?)
    requires Chain(head, q) && head == null && r.next == null
    ensures q == [] && Spliced(q, r, 0) == [r] && Chain(r, [r]) && Keys([r]) == Insert(Keys(q), r.Key())
  {
  }

  lemma ChainHead(head: Request?, q: seq<Request>)
    requires Chain(head, q)
    ensures head != null ==> q != []
  {
  }

  /** The scan of add_request (ll_rw_blk.c:85-89). */
  method FindPlace(head: Request, req: Request, ghost q: seq<Request>) returns (tmp: Request, ghost i: nat)
    requires q != [] && Chain(head, q)
    ensures i < |q| && tmp == q[i] && i == StopFrom(Keys(q), req.Key(), 0)
  {
    hide StopFrom, InOrder, Keys;
    tmp, i := head, 0;
    ghost var ks := Keys(q);
    while tmp.next != null && !((InOrder(tmp.Key(), req.Key()) || !InOrder(tmp.Key(), tmp.next.Key())) && InOrder(req.Key(), tmp.next.Key()))
      invariant i < |q| && tmp == q[i]
      invariant StopFrom(ks, req.Key(), 0) == StopFrom(ks, req.Key(), i)
      decreases |q| - i
    {
      assert i + 1 < |q| ==> q[i].next == q[i + 1];
      assert ks[i] == tmp.Key() && ks[i + 1] == q[i + 1].Key();
      StopFromNext(ks, req.Key(), i);
      tmp := tmp.next;
      i := i + 1;
    }
    if i + 1 < |q| {
      assert q[i].next == q[i + 1];
      assert ks[i] == tmp.Key() && ks[i + 1] == q[i + 1].Key();
    }
    StopFromHere(ks, req.Key(), i);
  }

  /** ll_rw_blk.c:91-92. */
  method LinkBehind(tmp: Request, req: Request, ghost head: Request, ghost q: seq<Request>, ghost i: nat)
    requires i < |q| && tmp == q[i] && Chain(head, q) && Distinct(q) && req !in q
    modifies req`next, tmp`next
    ensures Chain(head, Spliced(q, req, i + 1))
  {
    assert forall j | 0 <= j < |q| :: q[j] in q;
    assert i + 1 < |q| ==> q[i].next == q[i + 1];
    ghost var q' := Spliced(q, req, i + 1);
    req.next := tmp.next;
    tmp.next := req;
    forall j, k | 0 <= j < k < |q'| && k == j + 1 ensures q'[j].next == q'[k] {
      if j < i {
        assert q'[j] == q[j] && q'[k] == q[k];
      } else if j > i + 1 {
        assert q'[j] == q[j - 1] && q'[k] == q[k - 1];
      }
    }
    if i + 1 < |q| {
      assert q'[|q'| - 1] == q[|q| - 1];
    }
  }

  class BlockLayer {
    const request: seq<Request>
    const current: array<Request?>           // blk_dev[].current_request
    ghost const buffers: set<BufferHead>     // the buffer cache
    ghost var queue: seq<seq<Request>>       // the linked list of each device
    ghost var pending: set<BufferHead>       // locked by a process that waits for a slot

    ghost predicate Pool()
      reads `queue, `pending, current
    {
      && |request| == NR_REQUEST && current.Length == NR_BLK_DEV && |queue| == NR_BLK_DEV
      && (forall i, j | 0 <= i < j < NR_REQUEST :: request[i] != request[j])
      && pending <= buffers
    }

    /** The cache holds one buffer per block of a device, and a waiting process has locked its buffer. */
    ghost predicate Buffers()
      reads `pending, buffers
    {
      && (forall b, c | b in buffers && c in buffers && b != c && b.dev != 0 :: b.dev != c.dev || b.blocknr != c.blocknr)
      && (forall b | b in buffers && b in pending :: b.lock)
    }

    /** A slot in use stands in the queue of its device, for a locked buffer of its own. */
    ghost predicate SlotOk(r: Request)
      reads `queue, `pending, r, buffers
      requires |queue| == NR_BLK_DEV
    {
      && r.dev >= 0 && Major(r.dev) < NR_BLK_DEV && r in queue[Major(r.dev)]
      && r.bh != null && r.bh in buffers && r.bh !in pending && r.bh.lock
      && r.dev == r.bh.dev && r.dev != 0 && r.startSector == 2 * r.bh.blocknr && r.cmd < 2
    }

    ghost predicate Slots()
      reads `queue, `pending, request, buffers
      requires |queue| == NR_BLK_DEV && |request| == NR_REQUEST
    {
      && (forall r | r in request && r.dev >= 0 :: SlotOk(r))
      && (forall r, s | r in request && s in request && r != s && r.dev >= 0 && s.dev >= 0 :: r.bh != s.bh)
      && (forall i | 0 <= i < NR_REQUEST && request[i].dev >= 0 && request[i].cmd == 1 :: i < WRITE_SLOTS)
    }

    ghost predicate QueueOk(m: nat)
      reads `queue, current, request
      requires m < NR_BLK_DEV && |queue| == NR_BLK_DEV && current.Length == NR_BLK_DEV
    {
      && (forall i | 0 <= i < |queue[m]| :: queue[m][i] in request && queue[m][i].dev >= 0 && Major(queue[m][i].dev) == m)
      && Chain(current[m], queue[m])
      && TwoRuns(Keys(queue[m])) && Distinct(Keys(queue[m]))
    }

    ghost predicate Valid()
      reads this, request, current, buffers
    {
      Pool() && Buffers() && Slots() && forall m: nat | m < NR_BLK_DEV :: QueueOk(m)
    }

    /** ll_rw_blk.c:180-188. */
    constructor (ghost buffers: set<BufferHead>)
      requires forall b, c | b in buffers && c in buffers && b != c && b.dev != 0 :: b.dev != c.dev || b.blocknr != c.blocknr
      ensures Valid() && this.buffers == buffers && pending == {} && fresh(current) && fresh(request)
      ensures forall m: nat | m < NR_BLK_DEV :: queue[m] == []
    {
      hide TwoRuns, Distinct, Keys, Chain;
      var slots := FreeSlots();
      request := slots;
      current := new Request?[NR_BLK_DEV](_ => null);
      this.buffers := buffers;
      queue := seq(NR_BLK_DEV, _ => []);
      pending := {};
      new;
      EmptyShape();
      forall m: nat | m < NR_BLK_DEV ensures QueueOk(m) {
        assert queue[m] == [];
      }
      assert Slots() by {
        assert forall r | r in request :: r.dev == -1;
      }
    }

    /** ll_rw_blk.c:64-94: links a filled slot into its device's queue at its elevator position. */
    method AddRequest(m: nat, req: Request) returns (ghost p: nat)
      requires m < NR_BLK_DEV == current.Length == |queue|
      requires Chain(current[m], queue[m]) && Distinct(queue[m]) && req !in queue[m]
      requires req.bh != null
      modifies this`queue, current, req`next, req.bh`dirt, queue[m]`next
      ensures p <= |old(queue)[m]| && queue == old(queue)[m := Spliced(old(queue)[m], req, p)]
      ensures Chain(current[m], queue[m]) && !req.bh.dirt
      ensures Keys(queue[m]) == Insert(old(Keys(queue[m])), old(req.Key()))
      ensures forall n: nat | n < NR_BLK_DEV && n != m :: current[n] == old(current[n])
    {
      hide Keys, StopFrom, Insert, Chain, Spliced;
      ghost var q, ks, k := queue[m], Keys(queue[m]), req.Key();
      req.next := null;
      req.bh.dirt := false;
      if current[m] == null {
        ChainOfOne(req, q, current[m]);
        current[m] := req;
        queue := queue[m := [req]];
        return 0;
      }
      ghost var i;
      var tmp;
      ChainHead(current[m], q);
      tmp, i := FindPlace(current[m], req, q);
      assert Keys(q) == ks && req.Key() == k;
      SplicedKeys(q, req, i);
      p := i + 1;
      assert Keys(Spliced(q, req, p)) == Insert(ks, k);
      LinkBehind(tmp, req, current[m], q, i);
      assert Keys(Spliced(q, req, p)) == Insert(ks, k);
      queue := queue[m := Spliced(q, req, p)];
      assert Keys(queue[m]) == Insert(ks, k);
    }

    /** A buffer that is locked but not queued has a key no queued request has. */
    lemma NewKey(m: nat, bh: BufferHead, k: Key)
      requires Valid() && m < NR_BLK_DEV && bh in pending && bh.dev != 0
      requires k.dev == bh.dev && k.sector == 2 * bh.blocknr
      ensures k !in Keys(queue[m])
    {
      hide TwoRuns, Distinct, Chain;
      var ks := Keys(queue[m]);
      assert QueueOk(m);
      forall i | 0 <= i < |ks| ensures ks[i] != k {
        var r := queue[m][i];
        assert SlotOk(r) && ks[i] == r.Key();
      }
    }

    /**
      ll_rw_blk.c:96-128: takes the buffer's lock and finds out whether there is anything to do.  A
      process that found it locked waits in lock_buffer, unless it only wanted to read or write ahead.
    */
    method MakeRequest(rw: Rw, bh: BufferHead) returns (o: Outcome)
      requires Valid() && bh in buffers && bh.dev != 0 && Major(bh.dev) < NR_BLK_DEV
      modifies this`queue, this`pending, current, request, bh
      ensures Valid() && bh.dev == old(bh.dev) && bh.blocknr == old(bh.blocknr) && bh.uptodate == old(bh.uptodate)
      ensures pending == old(pending) + if o == AwaitSlot then {bh} else {}
      ensures !o.Queued? ==> queue == old(queue) && bh.dirt == old(bh.dirt)
      ensures old(bh.lock) ==> bh.lock && o == if rw.READA? || rw.WRITEA? then Skipped else AwaitBuffer
      ensures !old(bh.lock) && (if rw.READ? || rw.READA? then old(bh.uptodate) else !old(bh.dirt)) ==> o == Skipped && !bh.lock
      ensures !old(bh.lock) && (if rw.READ? || rw.READA? then !old(bh.uptodate) else old(bh.dirt)) ==>
                if exists k :: 0 <= k < (if rw.READ? || rw.READA? then 32 else 21) && old(request[k].dev) < 0 then o.Queued?
                else if rw.READA? || rw.WRITEA? then o == Skipped && !bh.lock else o == AwaitSlot && bh.lock
      ensures o.Queued? ==> old(Placed(rw, o.slot)) && bh.lock && !bh.dirt
      ensures o.Queued? ==> request[o.slot].bh == bh && request[o.slot].dev == bh.dev && request[o.slot].startSector == 2 * bh.blocknr
      ensures o.Queued? ==> request[o.slot].cmd == if rw.READ? || rw.READA? then 0 else 1
      ensures o.Queued? ==> QueuedAt(old(queue), queue, old(Keys(queue[bh.dev / 256])), bh.dev / 256, request[o.slot])
    {
      hide QueueOk, Insert, Keys, Spliced, Slots, Buffers, Chain;
      if bh.lock {
        return if Ahead(rw) then Skipped else AwaitBuffer;
      }
      LockBuffer(bh);
      if (Cmd(rw) == 1 && !bh.dirt) || (Cmd(rw) == 0 && bh.uptodate) {
        UnlockBuffer(bh);
        return Skipped;
      }
      o := Resume(rw, bh);
    }

    /** lock_buffer on an unlocked buffer (ll_rw_blk.c:42-49). */
    method LockBuffer(bh: BufferHead)
      requires Valid() && bh in buffers && !bh.lock
      modifies this`pending, bh`lock
      ensures Valid() && bh.lock && bh !in old(pending) && pending == old(pending) + {bh}
    {
      hide QueueOk, Slots, SlotOk;
      PendingAreLocked();
      bh.lock := true;
      pending := pending + {bh};
      LockKeepsSlots(bh);
    }

    lemma PendingAreLocked()
      requires Valid()
      ensures forall b | b in pending :: b.lock
    {
    }

    /** A buffer whose lock changes hands outside the queues has no request. */
    twostate lemma LockKeepsSlots(bh: BufferHead)
      requires |request| == NR_REQUEST && |queue| == NR_BLK_DEV && queue == old(queue) && old(Slots()) && (!old(bh.lock) || bh in old(pending))
      requires pending <= old(pending) + {bh} && bh.dev == old(bh.dev) && bh.blocknr == old(bh.blocknr)
      requires (forall r | r in request :: unchanged(r)) && forall b | b in buffers && b != bh :: unchanged(b)
      ensures Slots()
    {
      forall r | r in request && r.dev >= 0 ensures SlotOk(r) {
        assert old(SlotOk(r));
      }
    }

    /** unlock_buffer for a buffer with no request (ll_rw_blk.c:51-57). */
    method UnlockBuffer(bh: BufferHead)
      requires Valid() && bh in pending
      modifies this`pending, bh`lock
      ensures Valid() && !bh.lock && pending == old(pending) - {bh}
    {
      hide QueueOk, Slots, SlotOk;
      bh.lock := false;
      pending := pending - {bh};
      LockKeepsSlots(bh);
    }

    /** Slot n is the highest free one of those open to reads, or to writes. */
    ghost predicate Placed(rw: Rw, n: nat)
      reads request
      requires |request| == NR_REQUEST
    {
      var slots := if rw.READ? || rw.READA? then 32 else 21;
      n < slots && request[n].dev < 0 && forall k | n < k < slots :: request[k].dev >= 0
    }

    /** r has joined the queue of device m, and no other queue has changed. */
    ghost predicate QueuedAt(q0: seq<seq<Request>>, q: seq<seq<Request>>, ks: seq<Key>, m: nat, r: Request)
      reads r, if m < |q| then q[m] else []
    {
      && m < |q| == |q0|
      && (exists p: nat :: p <= |q0[m]| && q == q0[m := Spliced(q0[m], r, p)])
      && Keys(q[m]) == Insert(ks, r.Key())
    }

    /** ll_rw_blk.c:127-164: looks for a free slot from the top (reads) or from slot 20 down (writes). */
    method Resume(rw: Rw, bh: BufferHead) returns (o: Outcome)
      requires Valid() && bh in pending && bh.dev != 0 && Major(bh.dev) < NR_BLK_DEV
      modifies this`queue, this`pending, current, request, bh
      ensures Valid() && bh.dev == old(bh.dev) && bh.blocknr == old(bh.blocknr) && bh.uptodate == old(bh.uptodate)
      ensures pending == old(pending) - if o == AwaitSlot then {} else {bh}
      ensures !o.Queued? ==> queue == old(queue) && bh.dirt == old(bh.dirt)
      ensures if exists k :: 0 <= k < (if rw.READ? || rw.READA? then 32 else 21) && old(request[k].dev) < 0 then o.Queued?
        else if rw.READA? || rw.WRITEA? then o == Skipped && !bh.lock else o == AwaitSlot && bh.lock
      ensures o.Queued? ==> old(Placed(rw, o.slot)) && bh.lock && !bh.dirt
      ensures o.Queued? ==> request[o.slot].bh == bh && request[o.slot].dev == bh.dev && request[o.slot].startSector == 2 * bh.blocknr
      ensures o.Queued? ==> request[o.slot].cmd == if rw.READ? || rw.READA? then 0 else 1
      ensures o.Queued? ==> QueuedAt(old(queue), queue, old(Keys(queue[bh.dev / 256])), bh.dev / 256, request[o.slot])
    {
      hide QueueOk, Insert, Keys, Spliced, Slots, Buffers, Chain;
      var n := if Cmd(rw) == 0 then NR_REQUEST else WRITE_SLOTS;
      n := n - 1;
      while n >= 0 && request[n].dev >= 0
        invariant -1 <= n < if Cmd(rw) == 0 then NR_REQUEST else WRITE_SLOTS
        invariant forall k | n < k < (if Cmd(rw) == 0 then NR_REQUEST else WRITE_SLOTS) :: request[k].dev >= 0
      {
        n := n - 1;
      }
      if n < 0 {
        if Ahead(rw) {
          UnlockBuffer(bh);
          return Skipped;
        }
        PendingAreLocked();
        return AwaitSlot;
      }
      ghost var p := Enqueue(n, rw, bh);
      o := Queued(n);
    }

    /** ll_rw_blk.c:154-164. */
    method Enqueue(n: nat, rw: Rw, bh: BufferHead) returns (ghost p: nat)
      requires Valid() && bh in pending && bh.dev != 0 && Major(bh.dev) < NR_BLK_DEV
      requires n < (if Cmd(rw) == 0 then NR_REQUEST else WRITE_SLOTS) && request[n].dev < 0
      modifies this`queue, this`pending, current, request, bh
      ensures Valid() && bh.dev == old(bh.dev) && bh.blocknr == old(bh.blocknr)
      ensures request[n].bh == bh && bh.lock && !bh.dirt && bh.uptodate == old(bh.uptodate)
      ensures request[n].dev == bh.dev && request[n].cmd == Cmd(rw) && request[n].startSector == 2 * bh.blocknr
      ensures var m := Major(bh.dev); p <= |old(queue)[m]| && queue == old(queue)[m := Spliced(old(queue)[m], request[n], p)]
      ensures Keys(queue[Major(bh.dev)]) == Insert(old(Keys(queue[Major(bh.dev)])), Key(Cmd(rw), bh.dev, 2 * bh.blocknr))
      ensures pending == old(pending) - {bh}
    {
      hide Keys, Insert, Chain, TwoRuns, Distinct, Spliced, QueueOk, Slots;
      var r, m := request[n], Major(bh.dev);
      ghost var q, k := queue, Key(Cmd(rw), bh.dev, 2 * bh.blocknr);
      ghost var ks := Keys(queue[m]);
      NewKey(m, bh, k);
      DistinctRequests(m);
      QueueFacts(r);
      assert forall i | 0 <= i < |queue[m]| :: queue[m][i] in queue[m];
      FillSlot(r, rw, bh);
      pending := pending - {bh};
      assert Keys(queue[m]) == ks;
      p := AddRequest(m, r);
      SplicedMembers(q[m], r, p);
      assert Slots() by {
        SlotsAfter(n);
      }
      assert QueueOk(m) by {
        KeysShape(ks, k);
        QueueBuilt(m);
      }
      assert forall j: nat | j < NR_BLK_DEV && j != m :: QueueOk(j) by {
        OtherQueuesKept(m);
      }
    }

    twostate lemma OtherQueuesKept(m: nat)
      requires NR_BLK_DEV == |queue| == |old(queue)| && NR_BLK_DEV == current.Length
      requires forall j: nat | j < NR_BLK_DEV :: old(QueueOk(j))
      requires forall j: nat | j < NR_BLK_DEV && j != m :: queue[j] == old(queue[j]) && current[j] == old(current[j])
      requires forall j: nat, x {:trigger x in queue[j]} | j < NR_BLK_DEV && j != m && x in queue[j] :: unchanged(x)
      ensures forall j: nat | j < NR_BLK_DEV && j != m :: QueueOk(j)
    {
      forall j: nat | j < NR_BLK_DEV && j != m ensures QueueOk(j) {
        assert forall i | 0 <= i < |queue[j]| :: queue[j][i] in queue[j];
        QueueKept(j);
      }
    }

    /** What the queues hold, and that a free slot is in none of them. */
    lemma QueueFacts(r: Request)
      requires Valid() && r.dev < 0
      ensures forall j: nat | j < NR_BLK_DEV :: Chain(current[j], queue[j]) && TwoRuns(Keys(queue[j])) && Distinct(Keys(queue[j]))
      ensures forall j: nat, x {:trigger x in queue[j]} | j < NR_BLK_DEV && x in queue[j] ::
                x != r && x in request && x.dev >= 0 && Major(x.dev) == j
    {
      forall j: nat | j < NR_BLK_DEV
        ensures Chain(current[j], queue[j]) && TwoRuns(Keys(queue[j])) && Distinct(Keys(queue[j]))
      {
        assert QueueOk(j);
      }
      forall j: nat, x | j < NR_BLK_DEV && x in queue[j] ensures x != r && x in request && x.dev >= 0 && Major(x.dev) == j {
        assert QueueOk(j);
        var i :| 0 <= i < |queue[j]| && queue[j][i] == x;
      }
    }

    lemma QueueBuilt(m: nat)
      requires m < NR_BLK_DEV && |queue| == NR_BLK_DEV && current.Length == NR_BLK_DEV
      requires forall x | x in queue[m] :: x in request && x.dev >= 0 && Major(x.dev) == m
      requires Chain(current[m], queue[m]) && TwoRuns(Keys(queue[m])) && Distinct(Keys(queue[m]))
      ensures QueueOk(m)
    {
      assert forall i | 0 <= i < |queue[m]| :: queue[m][i] in queue[m];
    }

    /** The n-th slot was free and has been filled for a buffer its owner had locked. */
    twostate lemma SlotsAfter(n: nat)
      requires |old(queue)| == NR_BLK_DEV == |queue| && |request| == NR_REQUEST && n < NR_REQUEST && old(Slots())
      requires forall i, j | 0 <= i < j < NR_REQUEST :: request[i] != request[j]
      requires request[n].bh != null && request[n].bh in old(pending) && request[n].bh in buffers
      requires request[n].cmd == 0 || (request[n].cmd == 1 && n < WRITE_SLOTS)
      requires request[n].dev == request[n].bh.dev != 0 && request[n].startSector == 2 * request[n].bh.blocknr && request[n].bh.lock
      requires Major(request[n].dev) < NR_BLK_DEV && request[n] in queue[Major(request[n].dev)]
      requires forall s | s in request && s != request[n] :: s.dev == old(s.dev) && s.cmd == old(s.cmd)
                 && s.startSector == old(s.startSector) && s.bh == old(s.bh)
      requires forall j: nat, x | j < NR_BLK_DEV && x in old(queue[j]) :: x in queue[j]
      requires pending == old(pending) - {request[n].bh}
      requires forall b | b in buffers :: b.dev == old(b.dev) && b.blocknr == old(b.blocknr) && b.lock == old(b.lock)
      ensures Slots()
    {
      forall s | s in request && s.dev >= 0 ensures SlotOk(s) {
        if s != request[n] {
          assert old(SlotOk(s));
        }
      }
      forall s | s in request && s != request[n] && s.dev >= 0 ensures s.bh != request[n].bh {
        assert old(SlotOk(s));
      }
    }

    /** A queue none of whose slots was touched is as it was. */
    twostate lemma QueueKept(j: nat)
      requires j < NR_BLK_DEV == |queue| == |old(queue)| && NR_BLK_DEV == current.Length && old(QueueOk(j))
      requires queue[j] == old(queue[j]) && current[j] == old(current[j])
      requires forall i | 0 <= i < |queue[j]| :: unchanged(queue[j][i])
      ensures QueueOk(j)
    {
      hide TwoRuns, Distinct, Keys;
      SameKeys(queue[j]);
    }

    lemma DistinctRequests(m: nat)
      requires Valid() && m < NR_BLK_DEV
      ensures Distinct(queue[m])
    {
      assert QueueOk(m);
      var q := queue[m];
      forall i, j | 0 <= i < j < |q| ensures q[i] != q[j] {
        assert Keys(q)[i] != Keys(q)[j];
      }
    }

    /** blk.h:117-139: the driver reports the request in service; its slot and its buffer become free. */
    method EndRequest(m: nat, uptodate: bool)
      requires Valid() && m < NR_BLK_DEV && current[m] != null
      modifies this`queue, current, current[m], current[m].bh
      ensures Valid() && pending == old(pending)
      ensures old(queue[m]) != [] && queue == old(queue)[m := old(queue[m])[1..]] && Keys(queue[m]) == old(Keys(queue[m]))[1..]
      ensures old(queue[m])[0] == old(current[m]) && old(current[m]).dev == -1
      ensures old(current[m].bh) != null && !old(current[m].bh).lock && old(current[m].bh).uptodate == uptodate
      ensures old(current[m].bh).dev == old(current[m].bh.dev) && old(current[m].bh).blocknr == old(current[m].bh.blocknr)
    {
      hide Keys, TwoRuns, Distinct, QueueOk, Slots;
      ghost var q := queue[m];
      HeadFacts(m);
      var r := current[m];
      r.bh.uptodate := uptodate;
      r.bh.lock := false;
      r.dev := -1;
      current[m] := r.next;
      queue := queue[m := queue[m][1..]];
      HeadRemoved(m);
      SlotsFreed(r);
      OtherQueuesKept(m);
    }

    lemma HeadFacts(m: nat)
      requires Valid() && m < NR_BLK_DEV && current[m] != null
      ensures queue[m] != [] && current[m] == queue[m][0] && current[m] in request && SlotOk(current[m]) && Major(current[m].dev) == m
      ensures forall i | 1 <= i < |queue[m]| :: queue[m][i] != current[m]
      ensures forall j: nat, x {:trigger x in queue[j]} | j < NR_BLK_DEV && j != m && x in queue[j] :: x != current[m]
      ensures forall j: nat | j < NR_BLK_DEV :: QueueOk(j)
      ensures current[m].next == if |queue[m]| > 1 then queue[m][1] else null
    {
      assert QueueOk(m);
      DistinctRequests(m);
      assert queue[m][0] in request;
      forall j: nat, x | j < NR_BLK_DEV && j != m && x in queue[j] ensures x != current[m] {
        assert QueueOk(j);
        var i :| 0 <= i < |queue[j]| && queue[j][i] == x;
      }
      assert |queue[m]| > 1 ==> queue[m][0].next == queue[m][1];
    }

    twostate lemma HeadRemoved(m: nat)
      requires m < NR_BLK_DEV == |queue| == |old(queue)| && NR_BLK_DEV == current.Length && old(QueueOk(m))
      requires old(queue[m]) != [] && queue[m] == old(queue[m])[1..]
      requires current[m] == if |old(queue[m])| > 1 then old(queue[m])[1] else null
      requires forall i | 0 <= i < |queue[m]| :: unchanged(queue[m][i])
      ensures QueueOk(m) && Keys(queue[m]) == old(Keys(queue[m]))[1..]
    {
      hide TwoRuns, Distinct, Keys;
      var q, t := old(queue[m]), queue[m];
      TailKeys(q);
      ShapeOfTail(old(Keys(q)));
      forall i | 1 <= i < |q| ensures unchanged(q[i]) {
        assert q[i] == t[i - 1];
      }
      TailChain(q);
      forall i | 0 <= i < |t| ensures t[i] in request && t[i].dev >= 0 && Major(t[i].dev) == m {
        assert t[i] == q[i + 1] && unchanged(q[i + 1]);
      }
    }

    /** A slot has been taken out of its queue and its buffer unlocked. */
    twostate lemma SlotsFreed(r: Request)
      requires |old(queue)| == NR_BLK_DEV == |queue| && |request| == NR_REQUEST && old(Slots()) && pending == old(pending)
      requires r in request && old(SlotOk(r)) && r.dev < 0
      requires old(queue[Major(r.dev)]) != [] && old(queue[Major(r.dev)])[0] == r
      requires queue == old(queue)[old(Major(r.dev)) := old(queue[Major(r.dev)])[1..]]
      requires forall s | s in request && s != r :: unchanged(s)
      requires forall b | b in buffers && b != old(r.bh) :: unchanged(b)
      ensures Slots()
    {
      forall s | s in request && s.dev >= 0 ensures SlotOk(s) {
        assert old(SlotOk(s)) && old(s.bh != r.bh);
        assert unchanged(s) && unchanged(s.bh);
      }
    }
  }
}
