/**
  Histories of the buffer cache: what may happen to it, what each event leaves behind, and what that
  means over any sequence of events.
*/
module CacheRuns {
  import opened BlockTree
  import opened BufferLists
  import opened Bytes
  import opened CacheState
  import opened Sets

  // ----- Where the calls of buffer.c go on -----

  /** buffer.c:229. */
  function Badness(x: Head): nat {
    (if x.dirt then 2 else 0) + if x.Lock() then 1 else 0
  }

  /** After sync_dev getblk waits for its buffer again; on its own, sync_dev is done. */
  function AfterSync(picked: int): Pc
    requires picked >= NIL
  {
    if picked == NIL then Idle else Picked(picked)
  }

  /** A better buffer to reclaim: clean rather than dirty, and else unlocked rather than locked. */
  predicate Better(x: Head, y: Head) {
    (!x.dirt && y.dirt) || (x.dirt == y.dirt && !x.Lock() && y.Lock())
  }

  lemma BadnessRanks(x: Head, y: Head)
    ensures Badness(x) < Badness(y) <==> Better(x, y)
    ensures Badness(x) == 0 <==> !x.dirt && !x.Lock()
  {
  }

  /** b is unreferenced, and no unreferenced buffer is a better choice. */
  ghost predicate LeastBad(h: seq<Head>, b: nat) {
    b < |h| && h[b].count == 0 && forall c | 0 <= c < |h| && h[c].count == 0 :: !Better(h[c], h[b])
  }

  // ----- One pass of sync_dev -----

  /** The buffers from lo to hi - 1 that a pass has to write. */
  ghost function ToWrite(h: seq<Head>, dev: Word32, lo: nat, hi: nat): set<nat> {
    set b: nat | lo <= b < hi && b < |h| && h[b].dev == dev && h[b].dirt
  }

  /** A write of the buffer is in the queue, and the buffer counts as clean. */
  function WriteQueued(x: Head): Head {
    x.(io := Queued(WRITE), dirt := false)
  }

  /** The pass went over buffers lo to hi - 1: none of the device was locked, and writes of the dirty ones are queued. */
  ghost predicate PassedOver(h: seq<Head>, h': seq<Head>, dev: Word32, lo: nat, hi: nat) {
    && |h'| == |h|
    && (forall b: nat | lo <= b < hi && b < |h| && h[b].dev == dev :: !h[b].Lock())
    && forall b: nat {:trigger h'[b]} | b < |h| :: h'[b] == if b in ToWrite(h, dev, lo, hi) then WriteQueued(h[b]) else h[b]
  }

  /**
    The pass ran on from buffer i with so many free slots: to a locked buffer of the device, to a dirty
    one for whose write no slot is left, or to the end; then the second pass follows, or the return.
  */
  ghost predicate SyncRan(h: seq<Head>, h': seq<Head>, picked: int, dev: Word32, i: nat, pass: nat, slots: nat, pc': Pc)
    requires |h'| == |h| && picked >= NIL
  {
    || StoppedAtLock(h, h', picked, dev, i, pass, slots, pc')
    || StoppedForSlot(h, h', picked, dev, i, pass, slots, pc')
    || (&& PassedOver(h, h', dev, i, |h|) && |ToWrite(h, dev, i, |h|)| <= slots
        && pc' == if pass == 0 then SyncAt(picked, dev, 0, 1) else AfterSync(picked))
  }

  ghost predicate StoppedAtLock(h: seq<Head>, h': seq<Head>, picked: int, dev: Word32, i: nat, pass: nat, slots: nat, pc': Pc) {
    && pc'.SyncAt? && pc' == SyncAt(picked, dev, pc'.i, pass) && i <= pc'.i < |h|
    && h[pc'.i].dev == dev && h[pc'.i].Lock()
    && PassedOver(h, h', dev, i, pc'.i) && |ToWrite(h, dev, i, pc'.i)| <= slots
  }

  ghost predicate StoppedForSlot(h: seq<Head>, h': seq<Head>, picked: int, dev: Word32, i: nat, pass: nat, slots: nat, pc': Pc)
    requires |h'| == |h|
  {
    && pc'.SyncSlot? && pc' == SyncSlot(picked, dev, pc'.i, pass) && i <= pc'.i < |h|
    && var j := pc'.i;
       && h[j].dev == dev && h[j].dirt && !h[j].Lock() && h'[j] == h[j].(io := Asking(WRITE))
       && PassedOver(h, h'[j := h[j]], dev, i, j) && |ToWrite(h, dev, i, j)| == slots
  }

  /** With no buffer of the device locked and a slot for each dirty one, the pass ends, and every write is queued. */
  lemma SyncFinishes(h: seq<Head>, h': seq<Head>, picked: int, dev: Word32, i: nat, pass: nat, slots: nat, pc': Pc)
    requires |h'| == |h| && picked >= NIL && SyncRan(h, h', picked, dev, i, pass, slots, pc')
    requires forall b: nat | i <= b < |h| && h[b].dev == dev :: !h[b].Lock()
    requires |ToWrite(h, dev, i, |h|)| <= slots
    ensures pc' == if pass == 0 then SyncAt(picked, dev, 0, 1) else AfterSync(picked)
    ensures forall b: nat | i <= b < |h| && h[b].dev == dev && h[b].dirt :: h'[b] == WriteQueued(h[b])
  {
    if StoppedForSlot(h, h', picked, dev, i, pass, slots, pc') {
      var j := pc'.i;
      assert j in ToWrite(h, dev, i, |h|) && j !in ToWrite(h, dev, i, j);
      SubsetCard(ToWrite(h, dev, i, j) + {j}, ToWrite(h, dev, i, |h|));
    }
  }

  lemma PassStarts(h: seq<Head>, dev: Word32, i: nat)
    ensures PassedOver(h, h, dev, i, i) && ToWrite(h, dev, i, i) == {}
  {
  }

  /** One turn of the loop. */
  lemma PassNext(h: seq<Head>, h': seq<Head>, h'': seq<Head>, dev: Word32, lo: nat, i: nat)
    requires PassedOver(h, h', dev, lo, i) && lo <= i < |h| && (h[i].dev == dev ==> !h[i].Lock())
    requires h'' == if h[i].dev == dev && h[i].dirt then h'[i := WriteQueued(h[i])] else h'
    ensures PassedOver(h, h'', dev, lo, i + 1)
    ensures |ToWrite(h, dev, lo, i + 1)| == |ToWrite(h, dev, lo, i)| + if h[i].dev == dev && h[i].dirt then 1 else 0
  {
    CardDifferAtOne(ToWrite(h, dev, lo, i), ToWrite(h, dev, lo, i + 1), i);
  }

  /** What lies ahead of the pass is untouched. */
  lemma NotYet(h: seq<Head>, h': seq<Head>, dev: Word32, lo: nat, i: nat)
    requires PassedOver(h, h', dev, lo, i) && i < |h|
    ensures |h'| == |h| && h'[i] == h[i]
  {
    assert i !in ToWrite(h, dev, lo, i);
  }

  lemma PassedAll(h: seq<Head>, h': seq<Head>, dev: Word32, lo: nat, i: nat)
    requires PassedOver(h, h', dev, lo, i) && i >= |h|
    ensures PassedOver(h, h', dev, lo, |h|) && ToWrite(h, dev, lo, |h|) == ToWrite(h, dev, lo, i)
  {
    assert ToWrite(h, dev, lo, |h|) == ToWrite(h, dev, lo, i);
  }

  // ----- A call that runs on -----

  /** What call c has become when it sleeps again, and the buffers with it; slots are the free request slots. */
  ghost predicate RanOn(h: seq<Head>, c: Call, h': seq<Head>, c': Call, slots: nat)
    requires |h'| == |h|
  {
    && c' == c.(pc := c'.pc)
    && match c.pc
       case Again =>
         && (c'.pc.Found? || c'.pc.NoneFree? || c'.pc.Picked?)
         && (c'.pc.Found? <==> exists b: nat :: b < |h| && h[b].dev == c.dev && h[b].blocknr == c.block)
         && (c'.pc.Found? ==> var b := c'.pc.b; b < |h| && h[b].dev == c.dev && h[b].blocknr == c.block
                                                && h' == h[b := h[b].(count := h[b].count + 1)])
         && (c'.pc.NoneFree? ==> h' == h && forall b | 0 <= b < |h| :: h[b].count > 0)
         && (c'.pc.Picked? ==> h' == h && LeastBad(h, c'.pc.b))
       case Found(b) => b < |h| && FoundRanOn(h, c, h', c'.pc, b, slots)
       case NoneFree => c'.pc == Again && h' == h
       case Picked(b) => b < |h| && PickedRanOn(h, c, h', c'.pc, b)
       case SyncAt(picked, dev, i, pass) => picked >= NIL && SyncRan(h, h', picked, dev, i, pass, slots, c'.pc)
       case SyncSlot(picked, dev, i, pass) =>
         && picked >= NIL && i < |h|
         && if slots == 0 then h' == h && c'.pc == c.pc
            else SyncRan(h[i := WriteQueued(h[i])], h', picked, dev, i + 1, pass, slots - 1, c'.pc)
       case ReadSlot(b) =>
         b < |h| && if slots == 0 then h' == h && c'.pc == c.pc else h' == h[b := ReadQueued(h[b])] && c'.pc == ReadWait(b)
       case ReadWait(b) =>
         && b < |h|
         && if h[b].Lock() then h' == h && c'.pc == c.pc
            else if h[b].uptodate then h' == h && c'.pc == Have(b)
            else Released(h, h', b) && c'.pc == Idle
       case Releasing(b) => b < |h| && LetGoOf(h, h', c'.pc, b)
       case _ => false
  }

  /** getblk has its buffer (buffer.c:210-213), and bread asks for a read if it needs one (buffer.c:319-323). */
  ghost predicate FoundRanOn(h: seq<Head>, c: Call, h': seq<Head>, pc': Pc, b: nat, slots: nat)
    requires b < |h|
  {
    if h[b].Lock() then h' == h && pc' == Found(b)
    else if !c.read || h[b].uptodate then h' == h && pc' == Have(b)
    else if slots > 0 then h' == h[b := ReadQueued(h[b])] && pc' == ReadWait(b)
    else h' == h[b := h[b].(io := Asking(READ))] && pc' == ReadSlot(b)
  }

  /** buffer.c:262-292, from the moment the buffer picked is unlocked. */
  ghost predicate PickedRanOn(h: seq<Head>, c: Call, h': seq<Head>, pc': Pc, b: nat)
    requires b < |h| == |h'|
  {
    if h[b].Lock() then h' == h && pc' == Picked(b)
    else if h[b].count > 0 then h' == h && pc' == Again
    else if h[b].dirt then h' == h && pc' == SyncAt(b, h[b].dev, 0, 0)
    else if exists o: nat :: o < |h| && h[o].dev == c.dev && h[o].blocknr == c.block then h' == h && pc' == Again
    else && pc' == Found(b) && SameContents(h, h', b)
         && SameHead(h[b].(dev := c.dev, blocknr := c.block, count := 1, dirt := false, uptodate := false), h'[b])
  }

  function ReadQueued(x: Head): Head {
    x.(io := Queued(READ), dirt := false)
  }

  /** One reference less. */
  ghost predicate Released(h: seq<Head>, h': seq<Head>, b: nat)
    requires b < |h|
  {
    h[b].count > 0 && h' == h[b := h[b].(count := h[b].count - 1)]
  }

  /** brelse, which waits while the buffer is locked. */
  ghost predicate LetGoOf(h: seq<Head>, h': seq<Head>, pc': Pc, b: nat)
    requires b < |h|
  {
    if h[b].Lock() then h' == h && pc' == Releasing(b) else Released(h, h', b) && pc' == Idle
  }

  // ----- Events -----

  /** What may happen next: a call begins, runs on, stores or lets go; or the driver finishes a request. */
  datatype Event = Begin(p: nat, dev: Word32, block: Word32, read: bool) | BeginSync(p: nat, dev: Word32) | Resumed(p: nat, slots: nat)
                 | Done(b: nat, uptodate: bool, written: Block) | Put(p: nat, data: Block) | LetGo(p: nat)

  datatype Stored = Stored(dev: Word32, block: Word32, data: Block)

  /** The last block stored for (d, k), or v if there is none. */
  function Latest(log: seq<Stored>, d: Word32, k: Word32, v: Block): Block {
    if log == [] then v
    else
      var last := log[|log| - 1];
      if last.dev == d && last.block == k then last.data else Latest(log[..|log| - 1], d, k, v)
  }

  lemma LatestOfOne(x: Stored)
    ensures forall d: Word32, k: Word32, v: Block :: Latest([x], d, k, v) == if x.dev == d && x.block == k then x.data else v
  {
  }

  lemma {:induction false} LatestOfBoth(a: seq<Stored>, b: seq<Stored>, d: Word32, k: Word32, v: Block)
    ensures Latest(a + b, d, k, v) == Latest(b, d, k, Latest(a, d, k, v))
  {
    if b == [] {
      assert a + b == a;
    } else {
      assert (a + b)[..|a + b| - 1] == a + b[..|b| - 1];
      LatestOfBoth(a, b[..|b| - 1], d, k, v);
    }
  }

  /** The state between two events. */
  datatype Snap = Snap(h: seq<Head>, disk: Disk, calls: seq<Call>)

  /** Call p holds a buffer it may store into: one that is up to date, or that nobody else can be reading. */
  predicate StoreAllowed(s: Snap, p: nat) {
    && p < |s.calls| && s.calls[p].pc.Have? && s.calls[p].pc.b < |s.h|
    && (s.h[s.calls[p].pc.b].uptodate || (s.h[s.calls[p].pc.b].count == 1 && s.h[s.calls[p].pc.b].io.Unlocked?))
  }

  /** The store an event is, if it is one: into the block the call holds at that moment. */
  function LogOne(e: Event, s: Snap): seq<Stored> {
    if e.Put? && StoreAllowed(s, e.p) then [Stored(s.calls[e.p].dev, s.calls[e.p].block, e.data)] else []
  }

  /** The event can happen in this state. */
  predicate Possible(e: Event, s: Snap) {
    match e
    case Begin(p, dev, block, read) => p < |s.calls| && s.calls[p].pc.Idle? && dev != 0
    case BeginSync(p, dev) => p < |s.calls| && s.calls[p].pc.Idle?
    case Resumed(p, slots) => p < |s.calls| && !s.calls[p].pc.Idle? && !s.calls[p].pc.Have?
    case Done(b, uptodate, written) =>
      b < |s.h| && s.h[b].io.Queued? && (s.h[b].io.rw.READ? || s.h[b].dirt || written == s.h[b].data)
    case Put(p, data) => StoreAllowed(s, p)
    case LetGo(p) => p < |s.calls| && s.calls[p].pc.Have?
  }

  /** What each event does when it can happen. */
  ghost predicate Effect(e: Event, s: Snap, s': Snap)
    requires Possible(e, s)
  {
    match e
    case Begin(p, dev, block, read) => s' == Snap(s.h, s.disk, s.calls[p := Call(Again, dev, block, read)])
    case BeginSync(p, dev) => s' == Snap(s.h, s.disk, s.calls[p := s.calls[p].(pc := SyncAt(NIL, dev, 0, 0))])
    case Resumed(p, slots) =>
      && s'.disk == s.disk && |s'.h| == |s.h| && |s'.calls| == |s.calls| && s'.calls == s.calls[p := s'.calls[p]]
      && RanOn(s.h, s.calls[p], s'.h, s'.calls[p], slots)
    case Done(b, uptodate, written) =>
      && |s'.h| == |s.h| && s'.calls == s.calls && s'.h == s.h[b := s'.h[b]] && !s'.h[b].Lock()
      && s'.h[b].dev == s.h[b].dev && s'.h[b].blocknr == s.h[b].blocknr && s'.h[b].count == s.h[b].count
      && if s.h[b].io.rw.READ? then
           && s'.disk == s.disk && s'.h[b].uptodate == uptodate
           && (uptodate ==> s'.h[b].data == s.disk(s.h[b].dev, s.h[b].blocknr))
         else s'.disk(s.h[b].dev, s.h[b].blocknr) == written && s'.h[b] == s.h[b].(io := Unlocked)
    case Put(p, data) =>
      var b := s.calls[p].pc.b;
      s' == Snap(s.h[b := s.h[b].(data := data, uptodate := true, dirt := true)], s.disk, s.calls)
    case LetGo(p) =>
      var b := s.calls[p].pc.b;
      && s'.disk == s.disk && |s'.h| == |s.h| && |s'.calls| == |s.calls| && s'.calls == s.calls[p := s'.calls[p]]
      && b < |s.h| && s'.calls[p] == s.calls[p].(pc := s'.calls[p].pc) && LetGoOf(s.h, s'.h, s'.calls[p].pc, b)
  }

  /** Event e has led from s to s'; one that cannot happen leads nowhere. */
  ghost predicate Happened(e: Event, s: Snap, s': Snap) {
    && (if Possible(e, s) then Effect(e, s, s') else s' == s)
    && Reclaims(s.h, s'.h)
    && forall d: Word32, k: Word32 {:trigger Value(s'.h, s'.disk, d, k)} | d != 0 ::
         Value(s'.h, s'.disk, d, k) == Latest(LogOne(e, s), d, k, Value(s.h, s.disk, d, k))
  }

  /** trace is the history events make, state by state. */
  ghost predicate IsRun(events: seq<Event>, trace: seq<Snap>) {
    |trace| == |events| + 1 && forall i | 0 <= i < |events| :: Happened(events[i], trace[i], trace[i + 1])
  }

  // ----- Over a history -----

  /** The stores of a history, in order. */
  function LogOf(events: seq<Event>, trace: seq<Snap>): (log: seq<Stored>)
    requires |trace| == |events| + 1
  {
    if events == [] then []
    else var n := |events| - 1; LogOf(events[..n], trace[..n + 1]) + LogOne(events[n], trace[n])
  }

  lemma RunGoesOn(events: seq<Event>, n: nat, trace: seq<Snap>, s: Snap)
    requires n < |events| && IsRun(events[..n], trace) && Happened(events[n], trace[n], s)
    ensures IsRun(events[..n + 1], trace + [s])
    ensures LogOf(events[..n + 1], trace + [s]) == LogOf(events[..n], trace) + LogOne(events[n], trace[n])
  {
    hide Happened, LogOne;
    var es, t := events[..n + 1], trace + [s];
    assert es[..n] == events[..n] && t[..n + 1] == trace;
    forall i | 0 <= i <= n ensures Happened(es[i], t[i], t[i + 1]) {
      if i < n {
        assert Happened(events[..n][i], trace[i], trace[i + 1]);
      }
    }
  }

  lemma RunBefore(events: seq<Event>, trace: seq<Snap>)
    requires IsRun(events, trace) && events != []
    ensures var n := |events| - 1; IsRun(events[..n], trace[..n + 1]) && Happened(events[n], trace[n], trace[n + 1])
  {
    var n := |events| - 1;
    forall i | 0 <= i < n ensures Happened(events[..n][i], trace[..n + 1][i], trace[..n + 1][i + 1]) {
      assert Happened(events[i], trace[i], trace[i + 1]);
    }
  }

  /** Nothing is in the log that was not put there. */
  lemma {:induction false} NoPutsNoLog(events: seq<Event>, trace: seq<Snap>)
    requires |trace| == |events| + 1 && forall i | 0 <= i < |events| :: !events[i].Put?
    ensures LogOf(events, trace) == []
  {
    if events != [] {
      NoPutsNoLog(events[..|events| - 1], trace[..|events|]);
    }
  }

  /** What was put there stands there in order. */
  lemma {:induction false} PutsAreLogged(events: seq<Event>, trace: seq<Snap>)
    requires |trace| == |events| + 1
    requires forall i | 0 <= i < |events| :: events[i].Put? ==> StoreAllowed(trace[i], events[i].p)
    ensures Data(LogOf(events, trace)) == PutData(events)
  {
    hide StoreAllowed;
    if events != [] {
      var n := |events| - 1;
      PutsAreLogged(events[..n], trace[..n + 1]);
      var more := LogOne(events[n], trace[n]);
      assert Data(LogOf(events, trace)) == Data(LogOf(events[..n], trace[..n + 1])) + Data(more);
    }
  }

  function Data(log: seq<Stored>): seq<Block> {
    seq(|log|, i requires 0 <= i < |log| => log[i].data)
  }

  /** The data of all stores among the events. */
  function PutData(events: seq<Event>): seq<Block> {
    if events == [] then []
    else var n := |events| - 1; PutData(events[..n]) + if events[n].Put? then [events[n].data] else []
  }

  /** Every block has the value stored into it last, or the one it had at the start. */
  lemma {:induction false} ValuesOverRun(events: seq<Event>, trace: seq<Snap>, d: Word32, k: Word32)
    requires IsRun(events, trace) && d != 0
    ensures var s, s' := trace[0], trace[|events|];
      Value(s'.h, s'.disk, d, k) == Latest(LogOf(events, trace), d, k, Value(s.h, s.disk, d, k))
  {
    if events != [] {
      var n := |events| - 1;
      RunBefore(events, trace);
      ValuesOverRun(events[..n], trace[..n + 1], d, k);
      LatestOfBoth(LogOf(events[..n], trace[..n + 1]), LogOne(events[n], trace[n]), d, k, Value(trace[0].h, trace[0].disk, d, k));
    }
  }

  /** A call keeps its buffer, with its block, until it lets go itself. */
  lemma {:induction false} HeldOverRun(events: seq<Event>, trace: seq<Snap>, p: nat)
    requires IsRun(events, trace) && p < |trace[0].calls| && trace[0].calls[p].pc.Have? && LetGo(p) !in events
    ensures p < |trace[|events|].calls| && trace[|events|].calls[p] == trace[0].calls[p]
  {
    if events != [] {
      var n := |events| - 1;
      RunBefore(events, trace);
      HeldOverRun(events[..n], trace[..n + 1], p);
      assert events[n] in events;
    }
  }

  /** A buffer that ends up with another block was, at some moment, unreferenced, unlocked and clean. */
  lemma {:induction false} ReclaimedOverRun(events: seq<Event>, trace: seq<Snap>, b: nat) returns (i: nat)
    requires IsRun(events, trace) && b < |trace[0].h|
    requires |trace[|events|].h| == |trace[0].h| ==>
               trace[|events|].h[b].dev != trace[0].h[b].dev || trace[|events|].h[b].blocknr != trace[0].h[b].blocknr
    ensures i < |events| && b < |trace[i].h| && trace[i].h[b].count == 0 && !trace[i].h[b].Lock() && !trace[i].h[b].dirt
  {
    i := 0;
    if events != [] {
      var n := |events| - 1;
      RunBefore(events, trace);
      SizesOverRun(events[..n], trace[..n + 1]);
      if trace[n].h[b].dev != trace[0].h[b].dev || trace[n].h[b].blocknr != trace[0].h[b].blocknr {
        i := ReclaimedOverRun(events[..n], trace[..n + 1], b);
      } else {
        i := n;
      }
    }
  }

  lemma {:induction false} SizesOverRun(events: seq<Event>, trace: seq<Snap>)
    requires IsRun(events, trace)
    ensures |trace[|events|].h| == |trace[0].h|
  {
    if events != [] {
      RunBefore(events, trace);
      SizesOverRun(events[..|events| - 1], trace[..|events|]);
    }
  }

  lemma SameBlocksReclaim(h: seq<Head>, h': seq<Head>)
    requires SameBlocks(h, h')
    ensures Reclaims(h, h')
  {
  }
}
