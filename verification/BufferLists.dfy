/**
  The two lists every buffer head of linux-0.11/fs/buffer.c stands on: the hash chain of its block and
  the circular free list.  Buffer heads are the elements of the array at start_buffer, so a pointer is
  an index, NIL for the null pointer.
*/
module BufferLists {
  import opened BlockTree
  import opened Bytes
  import opened Sequences

  const NR_HASH := 307
  const NIL := -1

  datatype Transfer = READ | WRITE

  /** b_lock, and what it is held for: a request not yet in a slot, or one with the driver. */
  datatype Io = Unlocked | Asking(rw: Transfer) | Queued(rw: Transfer)

  /** struct buffer_head and the block at b_data. */
  datatype Head = Head(dev: Word32, blocknr: Word32, uptodate: bool, dirt: bool, count: nat, io: Io, data: Block,
                       next: int, prev: int, nextFree: int, prevFree: int)
  {
    predicate Lock() {
      !io.Unlocked?
    }
  }

  function HashFn(dev: Word32, block: Word32): (m: nat)
    ensures m < NR_HASH
  {
    (((dev as bv32) ^ (block as bv32)) as nat) % NR_HASH
  }

  // ----- Hash chains -----

  ghost predicate Chain(h: seq<Head>, head: int, q: seq<nat>) {
    && (forall i | 0 <= i < |q| :: q[i] < |h|)
    && (forall i, j | 0 <= i < j < |q| :: q[i] != q[j])
    && head == (if q == [] then NIL else q[0])
    && (q != [] ==> h[q[0]].prev == NIL && h[q[|q| - 1]].next == NIL)
    && (forall i, j {:trigger q[i], q[j]} | 0 <= i < j < |q| && j == i + 1 :: h[q[i]].next == q[j] && h[q[j]].prev == q[i])
  }

  /** Each chain holds exactly the buffers of its bucket; out, if any, is on no chain. */
  ghost predicate Hashed(h: seq<Head>, hash: seq<int>, chains: seq<seq<nat>>, out: int) {
    && |hash| == NR_HASH == |chains|
    && (forall m | 0 <= m < NR_HASH :: Chain(h, hash[m], chains[m]))
    && (forall m, b {:trigger b in chains[m]} | 0 <= m < NR_HASH && b in chains[m] ::
          b < |h| && b != out && h[b].dev != 0 && HashFn(h[b].dev, h[b].blocknr) == m)
    && (forall b: nat {:trigger h[b]} | b < |h| && b != out && h[b].dev != 0 :: b in chains[HashFn(h[b].dev, h[b].blocknr)])
    && (forall b: nat {:trigger h[b]} | b < |h| && b != out && h[b].dev == 0 :: h[b].next == NIL && h[b].prev == NIL)
  }

  /** At most one buffer per block. */
  ghost predicate Unique(h: seq<Head>) {
    forall a: nat, b: nat {:trigger h[a], h[b]} | a < |h| && b < |h| && a != b && h[a].dev != 0 ::
      h[a].dev != h[b].dev || h[a].blocknr != h[b].blocknr
  }

  // ----- The free list -----

  /** The buffers of q form a ring, doubly linked, in this order. */
  ghost predicate Ring(h: seq<Head>, q: seq<nat>) {
    && q != [] && (forall i | 0 <= i < |q| :: q[i] < |h|)
    && (forall i, j | 0 <= i < j < |q| :: q[i] != q[j])
    && h[q[|q| - 1]].nextFree == q[0] && h[q[0]].prevFree == q[|q| - 1]
    && (forall i, j {:trigger q[i], q[j]} | 0 <= i < j < |q| && j == i + 1 :: h[q[i]].nextFree == q[j] && h[q[j]].prevFree == q[i])
  }

  /** The free list is one ring holding every buffer but out. */
  ghost predicate Free(h: seq<Head>, freeList: int, ring: seq<nat>, out: int) {
    && Ring(h, ring) && freeList == ring[0]
    && (forall b: nat | b < |h| && b != out :: b in ring) && out !in ring
  }

  // ----- Changes that do not touch the lists -----

  ghost predicate SameHash(h: seq<Head>, h': seq<Head>, but: int) {
    |h'| == |h| && forall b: nat {:trigger h'[b]} | b < |h| && b != but ::
      h'[b].dev == h[b].dev && h'[b].blocknr == h[b].blocknr && h'[b].next == h[b].next && h'[b].prev == h[b].prev
  }

  ghost predicate SameFree(h: seq<Head>, h': seq<Head>) {
    |h'| == |h| && forall b: nat {:trigger h'[b]} | b < |h| :: h'[b].nextFree == h[b].nextFree && h'[b].prevFree == h[b].prevFree
  }

  lemma ChainKept(h: seq<Head>, h': seq<Head>, head: int, q: seq<nat>)
    requires Chain(h, head, q) && |h'| == |h| && forall b | b in q :: h'[b].next == h[b].next && h'[b].prev == h[b].prev
    ensures Chain(h', head, q)
  {
    assert forall i | 0 <= i < |q| :: q[i] in q;
  }

  lemma HashedKept(h: seq<Head>, h': seq<Head>, hash: seq<int>, chains: seq<seq<nat>>, out: int)
    requires Hashed(h, hash, chains, out) && SameHash(h, h', out)
    ensures Hashed(h', hash, chains, out)
  {
    hide HashFn;
    forall m | 0 <= m < NR_HASH ensures Chain(h', hash[m], chains[m]) {
      ChainKept(h, h', hash[m], chains[m]);
    }
  }

  lemma FreeKept(h: seq<Head>, h': seq<Head>, freeList: int, ring: seq<nat>, out: int)
    requires Free(h, freeList, ring, out) && SameFree(h, h')
    ensures Free(h', freeList, ring, out)
  {
  }

  // ----- Unlinking and linking, as values -----

  /** buffer.c:149-154 on the chain that holds b. */
  lemma ChainWithout(h: seq<Head>, h': seq<Head>, head: int, q: seq<nat>, k: nat)
    requires Chain(h, head, q) && k < |q| && q[k] < |h| && HashUnlinked(h, h', q[k])
    ensures Chain(h', if head == q[k] then h[q[k]].next else head, Without(q, k))
  {
    var r, b := Without(q, k), q[k];
    assert k > 0 ==> h[q[k - 1]].next == b && h[b].prev == q[k - 1];
    assert k + 1 < |q| ==> h[b].next == q[k + 1];
    forall i, j | 0 <= i < j < |r| && j == i + 1 ensures h'[r[i]].next == r[j] && h'[r[j]].prev == r[i] {
      if i + 1 < k {
        assert r[i] == q[i] && r[j] == q[j];
      } else if i >= k {
        assert r[i] == q[i + 1] && r[j] == q[j + 1];
      }
    }
    if r != [] {
      assert r[0] == if k == 0 then q[1] else q[0];
      assert r[|r| - 1] == if k == |q| - 1 then q[k - 1] else q[|q| - 1];
    }
  }

  /** A chain b is not on is not touched. */
  lemma OtherChain(h: seq<Head>, h': seq<Head>, head: int, q: seq<nat>, b: nat)
    requires Chain(h, head, q) && b < |h| && b !in q && HashUnlinked(h, h', b)
    requires h[b].next !in q && h[b].prev !in q
    ensures Chain(h', head, q)
  {
    forall c | c in q ensures h'[c].next == h[c].next && h'[c].prev == h[c].prev {
    }
    ChainKept(h, h', head, q);
  }

  /** The neighbours of b on its chain are on that chain. */
  lemma Neighbours(h: seq<Head>, hash: seq<int>, chains: seq<seq<nat>>, b: nat, m: nat)
    requires Hashed(h, hash, chains, NIL) && b < |h| && m < NR_HASH
    requires h[b].dev == 0 || HashFn(h[b].dev, h[b].blocknr) != m
    ensures b !in chains[m] && h[b].next !in chains[m] && h[b].prev !in chains[m] && hash[m] != b
  {
    hide HashFn;
    if h[b].dev != 0 {
      var n := HashFn(h[b].dev, h[b].blocknr);
      var q := chains[n];
      assert Chain(h, hash[n], q);
      var k :| 0 <= k < |q| && q[k] == b;
      assert k > 0 ==> h[q[k - 1]].next == b && h[b].prev == q[k - 1] && q[k - 1] in q;
      assert k + 1 < |q| ==> h[b].next == q[k + 1] && q[k + 1] in q;
    }
    assert Chain(h, hash[m], chains[m]);
    assert chains[m] != [] ==> chains[m][0] in chains[m];
  }

  /** The neighbours of b on its chain have been joined (buffer.c:149-152). */
  ghost predicate HashUnlinked(h: seq<Head>, h': seq<Head>, b: nat)
    requires b < |h|
  {
    |h'| == |h| && forall c: nat {:trigger h'[c]} | c < |h| :: h'[c] == h[c].(
      prev := if h[b].next == c then h[b].prev else h[c].prev,
      next := if h[b].prev == c then h[b].next else h[c].next)
  }

  /** The neighbours of b on the free list have been joined (buffer.c:159-160). */
  ghost predicate FreeUnlinked(h: seq<Head>, h': seq<Head>, b: nat)
    requires b < |h|
  {
    |h'| == |h| && forall c: nat {:trigger h'[c]} | c < |h| :: h'[c] == h[c].(
      prevFree := if h[b].nextFree == c then h[b].prevFree else h[c].prevFree,
      nextFree := if h[b].prevFree == c then h[b].nextFree else h[c].nextFree)
  }

  /** b has left the chain of its block, and no other buffer has left any chain. */
  ghost predicate Unchained(chains: seq<seq<nat>>, chains': seq<seq<nat>>, x: Head, b: nat) {
    var m := HashFn(x.dev, x.blocknr);
    && m < |chains| == |chains'|
    && if x.dev == 0 then chains' == chains
       else TakenOut(chains[m], chains'[m], b) && chains' == chains[m := chains'[m]]
  }

  /** b has joined the chain of its block, in front. */
  ghost predicate Chained(chains: seq<seq<nat>>, chains': seq<seq<nat>>, x: Head, b: nat) {
    var m := HashFn(x.dev, x.blocknr);
    m < |chains| && chains' == if x.dev == 0 then chains else chains[m := [b] + chains[m]]
  }

  /** remove_from_queues, hash part (buffer.c:148-154), as a step on values. */
  lemma UnhashStep(h: seq<Head>, h': seq<Head>, hash: seq<int>, chains: seq<seq<nat>>, b: nat)
    returns (chains': seq<seq<nat>>)
    requires Hashed(h, hash, chains, NIL) && b < |h| && HashUnlinked(h, h', b)
    ensures var m := HashFn(h[b].dev, h[b].blocknr);
      Hashed(h', hash[m := if hash[m] == b then h[b].next else hash[m]], chains', b)
    ensures Unchained(chains, chains', h[b], b)
    ensures forall m, c {:trigger c in chains'[m]} | 0 <= m < |chains'| && m < |chains| :: c in chains'[m] <==> c in chains[m] && c != b
  {
    hide Chain, HashFn, TakenOut;
    var m := HashFn(h[b].dev, h[b].blocknr);
    var hash' := hash[m := if hash[m] == b then h[b].next else hash[m]];
    chains' := chains;
    if h[b].dev != 0 {
      var q := OwnChain(h, h', hash, chains, b);
      chains' := chains[m := q];
    }
    forall n | 0 <= n < NR_HASH
      ensures Chain(h', hash'[n], chains'[n]) && forall c :: c in chains'[n] <==> c in chains[n] && c != b
    {
      if h[b].dev == 0 || n != m {
        Neighbours(h, hash, chains, b, n);
        OtherChain(h, h', hash[n], chains[n], b);
      }
    }
    NeighboursHashed(h, hash, chains, b);
    HashedFrom(h, h', hash', chains, chains', b);
  }

  /** The chain of b without b. */
  lemma OwnChain(h: seq<Head>, h': seq<Head>, hash: seq<int>, chains: seq<seq<nat>>, b: nat) returns (q: seq<nat>)
    requires Hashed(h, hash, chains, NIL) && b < |h| && h[b].dev != 0 && HashUnlinked(h, h', b)
    ensures var m := HashFn(h[b].dev, h[b].blocknr);
      && TakenOut(chains[m], q, b) && Chain(h', if hash[m] == b then h[b].next else hash[m], q)
      && forall c :: c in q <==> c in chains[m] && c != b
  {
    hide HashFn;
    var m := HashFn(h[b].dev, h[b].blocknr);
    assert Chain(h, hash[m], chains[m]) && b in chains[m];
    hide Chain, Hashed;
    var k: nat :| k < |chains[m]| && chains[m][k] == b;
    ChainDistinct(h, hash[m], chains[m]);
    WithoutMembers(chains[m], k);
    ChainWithout(h, h', hash[m], chains[m], k);
    q := Without(chains[m], k);
  }

  /** What b's hash pointers lead to is on a chain itself. */
  lemma NeighboursHashed(h: seq<Head>, hash: seq<int>, chains: seq<seq<nat>>, b: nat)
    requires Hashed(h, hash, chains, NIL) && b < |h|
    ensures forall c: nat | c < |h| && (h[b].next == c || h[b].prev == c) :: h[c].dev != 0
  {
    hide HashFn;
    if h[b].dev != 0 {
      var n := HashFn(h[b].dev, h[b].blocknr);
      var q := chains[n];
      assert Chain(h, hash[n], q);
      var k :| 0 <= k < |q| && q[k] == b;
      assert k > 0 ==> h[q[k - 1]].next == b && h[b].prev == q[k - 1] && q[k - 1] in q;
      assert k + 1 < |q| ==> h[b].next == q[k + 1] && q[k + 1] in q;
    }
  }

  lemma ChainDistinct(h: seq<Head>, head: int, q: seq<nat>)
    requires Chain(h, head, q)
    ensures forall i, j | 0 <= i < j < |q| :: q[i] != q[j]
  {
  }

  lemma HashedFrom(h: seq<Head>, h': seq<Head>, hash': seq<int>, chains: seq<seq<nat>>, chains': seq<seq<nat>>, b: nat)
    requires |hash'| == NR_HASH == |chains'| == |chains| && |h'| == |h| && b < |h|
    requires forall m | 0 <= m < NR_HASH :: Chain(h', hash'[m], chains'[m])
    requires forall m, c {:trigger c in chains'[m]} | 0 <= m < NR_HASH :: c in chains'[m] <==> c in chains[m] && c != b
    requires forall m, c {:trigger c in chains[m]} | 0 <= m < NR_HASH && c in chains[m] ::
          c < |h| && h[c].dev != 0 && HashFn(h[c].dev, h[c].blocknr) == m
    requires forall c: nat {:trigger h[c]} | c < |h| && h[c].dev != 0 :: c in chains[HashFn(h[c].dev, h[c].blocknr)]
    requires forall c: nat {:trigger h'[c]} | c < |h| ::
        && h'[c].dev == h[c].dev && h'[c].blocknr == h[c].blocknr && (h[c].dev == 0 ==> h'[c].next == NIL && h'[c].prev == NIL)
    ensures Hashed(h', hash', chains', b)
  {
    hide HashFn, Chain;
  }

  /** insert_into_queues, hash part, for a buffer with a device (buffer.c:174-180). */
  lemma HashStep(h: seq<Head>, h': seq<Head>, hash: seq<int>, chains: seq<seq<nat>>, b: nat)
    returns (chains': seq<seq<nat>>)
    requires Hashed(h, hash, chains, b) && b < |h| && HashLinked(h, h', hash[HashFn(h[b].dev, h[b].blocknr)], b)
    ensures var m := HashFn(h[b].dev, h[b].blocknr);
      Hashed(h', if h[b].dev == 0 then hash else hash[m := b], chains', NIL)
    ensures Chained(chains, chains', h[b], b)
  {
    hide Chain, HashFn;
    var m := HashFn(h[b].dev, h[b].blocknr);
    var next := if h[b].dev == 0 then NIL else hash[m];
    chains' := if h[b].dev == 0 then chains else chains[m := [b] + chains[m]];
    var hash' := if h[b].dev == 0 then hash else hash[m := b];
    assert next >= 0 ==> next in chains[m] by {
      ChainHeadIn(h, hash[m], chains[m]);
    }
    forall n | 0 <= n < NR_HASH ensures Chain(h', hash'[n], chains'[n]) {
      if h[b].dev != 0 && n == m {
        ChainWith(h, h', hash[m], chains[m], b);
      } else {
        ChainKept(h, h', hash[n], chains[n]);
      }
    }
  }

  lemma ChainHeadIn(h: seq<Head>, head: int, q: seq<nat>)
    requires Chain(h, head, q)
    ensures head >= 0 ==> head in q
    ensures head == NIL || head >= 0
  {
  }

  lemma ChainWith(h: seq<Head>, h': seq<Head>, head: int, q: seq<nat>, b: nat)
    requires Chain(h, head, q) && b < |h| && b !in q && |h'| == |h|
    requires h'[b].prev == NIL && h'[b].next == head
    requires forall c: nat {:trigger h'[c]} | c < |h| && c != b ::
        h'[c].next == h[c].next && h'[c].prev == if c == head then b else h[c].prev
    ensures Chain(h', b, [b] + q)
  {
    var r := [b] + q;
    forall i, j | 0 <= i < j < |r| && j == i + 1 ensures h'[r[i]].next == r[j] && h'[r[j]].prev == r[i] {
      if i > 0 {
        assert r[i] == q[i - 1] && r[j] == q[j - 1];
      }
    }
    if q != [] {
      assert r[|r| - 1] == q[|q| - 1];
    }
  }

  /** remove_from_queues, free list part (buffer.c:157-162). */
  lemma UnfreeStep(h: seq<Head>, h': seq<Head>, freeList: int, ring: seq<nat>, b: nat) returns (ring': seq<nat>)
    requires Free(h, freeList, ring, NIL) && b < |h| && |h| >= 2 && FreeUnlinked(h, h', b)
    ensures Free(h', if freeList == b then h[b].nextFree else freeList, ring', b)
    ensures TakenOut(ring, ring', b)
  {
    hide Ring;
    assert b in ring && 0 in ring && 1 in ring;
    var k :| 0 <= k < |ring| && ring[k] == b;
    ring' := Without(ring, k);
    RingDistinct(h, ring);
    WithoutMembers(ring, k);
    RingWithout(h, h', ring, k);
  }

  lemma RingDistinct(h: seq<Head>, q: seq<nat>)
    requires Ring(h, q)
    ensures q != [] && (forall i | 0 <= i < |q| :: q[i] < |h|) && forall i, j | 0 <= i < j < |q| :: q[i] != q[j]
  {
  }

  lemma RingWithout(h: seq<Head>, h': seq<Head>, q: seq<nat>, k: nat)
    requires Ring(h, q) && |q| >= 2 && k < |q| && q[k] < |h| && FreeUnlinked(h, h', q[k])
    ensures var r := Without(q, k); Ring(h', r) && r[0] == if k == 0 then h[q[0]].nextFree else q[0]
  {
    var r := Without(q, k);
    assert k > 0 ==> h[q[k - 1]].nextFree == q[k] && h[q[k]].prevFree == q[k - 1];
    assert k + 1 < |q| ==> h[q[k]].nextFree == q[k + 1];
    forall i, j | 0 <= i < j < |r| && j == i + 1
      ensures h'[r[i]].nextFree == r[j] && h'[r[j]].prevFree == r[i]
    {
      RingMiddle(h, h', q, k, i);
    }
    assert r[0] == if k == 0 then q[1] else q[0];
    assert r[|r| - 1] == if k == |q| - 1 then q[k - 1] else q[|q| - 1];
  }

  lemma RingMiddle(h: seq<Head>, h': seq<Head>, q: seq<nat>, k: nat, i: nat)
    requires Ring(h, q) && k < |q| && i + 2 < |q| && q[k] < |h| && FreeUnlinked(h, h', q[k])
    ensures var r := Without(q, k); h'[r[i]].nextFree == r[i + 1] && h'[r[i + 1]].prevFree == r[i]
  {
    var r := Without(q, k);
    assert k > 0 ==> h[q[k - 1]].nextFree == q[k] && h[q[k]].prevFree == q[k - 1];
    assert k + 1 < |q| ==> h[q[k]].nextFree == q[k + 1];
    if i + 1 < k {
      assert r[i] == q[i] && r[i + 1] == q[i + 1];
    } else if i >= k {
      assert r[i] == q[i + 1] && r[i + 1] == q[i + 2];
    }
  }

  /** insert_into_queues, free list part: at the end of the list (buffer.c:168-171). */
  lemma FreeStep(h: seq<Head>, h': seq<Head>, freeList: int, ring: seq<nat>, b: nat)
    requires Free(h, freeList, ring, b) && b < |h| && 0 <= freeList < |h| && FreeLinked(h, h', freeList, b)
    ensures Free(h', freeList, ring + [b], NIL)
  {
    var r := ring + [b];
    forall i, j | 0 <= i < j < |r| && j == i + 1 ensures h'[r[i]].nextFree == r[j] && h'[r[j]].prevFree == r[i] {
      if j < |ring| {
        assert r[i] == ring[i] && r[j] == ring[j];
      }
    }
  }

  // ----- Walking the lists -----

  lemma LinksInRange(h: seq<Head>, hash: seq<int>, chains: seq<seq<nat>>, b: nat)
    requires Hashed(h, hash, chains, NIL) && b < |h|
    ensures NIL <= h[b].next < |h| && NIL <= h[b].prev < |h| && |hash| == NR_HASH
  {
    hide HashFn;
    if h[b].dev != 0 {
      var n := HashFn(h[b].dev, h[b].blocknr);
      assert Chain(h, hash[n], chains[n]);
      var k :| 0 <= k < |chains[n]| && chains[n][k] == b;
      ChainNext(h, hash[n], chains[n], k);
    }
  }

  lemma FreeInRange(h: seq<Head>, freeList: int, ring: seq<nat>, b: nat)
    requires Free(h, freeList, ring, NIL) && b < |h|
    ensures 0 <= h[b].nextFree < |h| && 0 <= h[b].prevFree < |h| && 0 <= freeList < |h|
  {
    assert b in ring;
    var k :| 0 <= k < |ring| && ring[k] == b;
    RingNext(h, ring, k);
  }

  lemma ChainNext(h: seq<Head>, head: int, q: seq<nat>, k: nat)
    requires Chain(h, head, q) && k < |q|
    ensures q[k] < |h| && h[q[k]].next == (if k + 1 < |q| then q[k + 1] else NIL)
    ensures h[q[k]].prev == (if k > 0 then q[k - 1] else NIL)
    ensures k + 1 < |q| ==> q[k + 1] < |h|
  {
    assert k > 0 ==> h[q[k - 1]].next == q[k] && h[q[k]].prev == q[k - 1];
    assert k + 1 < |q| ==> h[q[k]].next == q[k + 1];
  }

  lemma RingNext(h: seq<Head>, q: seq<nat>, k: nat)
    requires Ring(h, q) && k < |q|
    ensures q[k] < |h| && h[q[k]].nextFree == (if k + 1 < |q| then q[k + 1] else q[0])
    ensures h[q[k]].prevFree == (if k > 0 then q[k - 1] else q[|q| - 1])
    ensures k + 1 < |q| ==> q[k + 1] != q[0]
    ensures forall i | 0 <= i < |q| :: q[i] < |h|
  {
    assert k > 0 ==> h[q[k - 1]].nextFree == q[k] && h[q[k]].prevFree == q[k - 1];
    assert k + 1 < |q| ==> h[q[k]].nextFree == q[k + 1];
  }

  /** A block whose chain has been walked without meeting it is in no buffer. */
  lemma NotOnChain(h: seq<Head>, hash: seq<int>, chains: seq<seq<nat>>, dev: Word32, block: Word32)
    requires Hashed(h, hash, chains, NIL) && dev != 0
    requires var q := chains[HashFn(dev, block)];
      forall i | 0 <= i < |q| :: q[i] < |h| && (h[q[i]].dev != dev || h[q[i]].blocknr != block)
    ensures forall b: nat | b < |h| :: h[b].dev != dev || h[b].blocknr != block
  {
    hide HashFn;
  }

  ghost predicate SameContents(h: seq<Head>, h': seq<Head>, but: int) {
    |h'| == |h| && forall c: nat {:trigger h'[c]} | c < |h| && c != but :: SameHead(h[c], h'[c])
  }

  lemma HashUnlinkedKeeps(h: seq<Head>, h': seq<Head>, freeList: int, ring: seq<nat>, b: nat)
    requires b < |h| && HashUnlinked(h, h', b) && Free(h, freeList, ring, NIL)
    ensures SameContents(h, h', NIL) && Free(h', freeList, ring, NIL)
  {
    FreeKept(h, h', freeList, ring, NIL);
  }

  lemma FreeUnlinkedKeeps(h: seq<Head>, h': seq<Head>, hash: seq<int>, chains: seq<seq<nat>>, b: nat)
    requires b < |h| && FreeUnlinked(h, h', b) && Hashed(h, hash, chains, b)
    ensures SameContents(h, h', NIL) && Hashed(h', hash, chains, b)
  {
    HashedKept(h, h', hash, chains, b);
  }

  // ----- Putting b back -----

  /** b stands at the end of the free list, between its last buffer and freeList (buffer.c:168-171). */
  ghost predicate FreeLinked(h: seq<Head>, h': seq<Head>, freeList: int, b: nat)
    requires b < |h| && 0 <= freeList < |h|
  {
    var last := h[freeList].prevFree;
    |h'| == |h| && forall c: nat {:trigger h'[c]} | c < |h| :: h'[c] == h[c].(
      nextFree := if c == b then freeList else if c == last then b else h[c].nextFree,
      prevFree := if c == b then last else if c == freeList then b else h[c].prevFree)
  }

  /** b stands first on the chain of its bucket, or on none if it has no device (buffer.c:174-180). */
  ghost predicate HashLinked(h: seq<Head>, h': seq<Head>, first: int, b: nat)
    requires b < |h|
  {
    var next := if h[b].dev == 0 then NIL else first;
    |h'| == |h| && forall c: nat {:trigger h'[c]} | c < |h| :: h'[c] == h[c].(
      prev := if c == b then NIL else if c == next then b else h[c].prev,
      next := if c == b then next else h[c].next)
  }

  lemma FreeLinkedKeeps(h: seq<Head>, h': seq<Head>, freeList: int, ring: seq<nat>, hash: seq<int>, chains: seq<seq<nat>>, b: nat)
    requires b < |h| && 0 <= freeList < |h| && FreeLinked(h, h', freeList, b)
    requires Free(h, freeList, ring, b) && Hashed(h, hash, chains, b)
    ensures SameContents(h, h', NIL) && Hashed(h', hash, chains, b) && Free(h', freeList, ring + [b], NIL)
  {
    FreeStep(h, h', freeList, ring, b);
    HashedKept(h, h', hash, chains, b);
  }

  lemma HashLinkedKeeps(h: seq<Head>, h': seq<Head>, freeList: int, ring: seq<nat>, first: int, b: nat)
    requires b < |h| && HashLinked(h, h', first, b) && Free(h, freeList, ring, NIL)
    ensures SameContents(h, h', NIL) && Free(h', freeList, ring, NIL)
  {
    FreeKept(h, h', freeList, ring, NIL);
  }

  /** A buffer that stands on no chain may be given another block. */
  lemma OutChanges(h: seq<Head>, h': seq<Head>, hash: seq<int>, chains: seq<seq<nat>>, freeList: int, ring: seq<nat>, b: nat)
    requires Hashed(h, hash, chains, b) && Free(h, freeList, ring, b) && SameHash(h, h', b) && SameFree(h, h')
    ensures Hashed(h', hash, chains, b) && Free(h', freeList, ring, b)
  {
    HashedKept(h, h', hash, chains, b);
    FreeKept(h, h', freeList, ring, b);
  }

  lemma FreeHead(h: seq<Head>, freeList: int, ring: seq<nat>, out: int)
    requires Free(h, freeList, ring, out)
    ensures 0 <= freeList < |h| && freeList != out && 0 <= h[freeList].prevFree < |h| && h[freeList].prevFree != out
  {
    RingNext(h, ring, 0);
    assert ring[|ring| - 1] in ring;
  }

  lemma ChainHeadInRange(h: seq<Head>, hash: seq<int>, chains: seq<seq<nat>>, m: nat, out: int)
    requires Hashed(h, hash, chains, out) && m < NR_HASH
    ensures |hash| == NR_HASH && NIL <= hash[m] < |h| && (hash[m] >= 0 ==> hash[m] != out)
  {
    hide HashFn;
    assert Chain(h, hash[m], chains[m]);
    assert chains[m] != [] ==> chains[m][0] in chains[m];
  }

  /** Nothing the lists depend on has changed. */
  ghost predicate SameLinks(h: seq<Head>, h': seq<Head>) {
    SameHash(h, h', NIL) && SameFree(h, h')
  }

  lemma ListsKept(h: seq<Head>, h': seq<Head>, hash: seq<int>, chains: seq<seq<nat>>, freeList: int, ring: seq<nat>)
    requires Hashed(h, hash, chains, NIL) && Free(h, freeList, ring, NIL) && SameLinks(h, h')
    ensures Hashed(h', hash, chains, NIL) && Free(h', freeList, ring, NIL)
  {
    HashedKept(h, h', hash, chains, NIL);
    FreeKept(h, h', freeList, ring, NIL);
  }

  lemma SameContentsThrough(h1: seq<Head>, h2: seq<Head>, h3: seq<Head>, h4: seq<Head>, b: nat)
    requires SameContents(h1, h2, NIL) && SameContents(h2, h3, b) && SameContents(h3, h4, NIL)
    ensures SameContents(h1, h4, b)
  {
    ContentsThrough(h1, h2, h3, b);
    ContentsThrough(h1, h3, h4, b);
  }

  lemma ContentsThrough(h: seq<Head>, h1: seq<Head>, h2: seq<Head>, b: nat)
    requires (SameContents(h, h1, b) || SameContents(h, h1, NIL)) && (SameContents(h1, h2, b) || SameContents(h1, h2, NIL))
    ensures SameContents(h, h2, b)
  {
    forall c: nat | c < |h| && c != b ensures SameHead(h[c], h2[c]) {
      assert SameHead(h[c], h1[c]) && SameHead(h1[c], h2[c]);
    }
  }

  predicate SameHead(x: Head, y: Head) {
    && y.dev == x.dev && y.blocknr == x.blocknr && y.uptodate == x.uptodate && y.dirt == x.dirt
    && y.io == x.io && y.data == x.data && y.count == x.count
  }
}
