/**
  linux-0.11/lib/malloc.c: malloc and free_s over bucket_dir, the bucket descriptors and the pages the
  kernel gives out.  live is the set of objects handed out and not yet freed.
*/
module Malloc {
  import opened Sequences
  import opened Buckets

  const DESCS_PER_PAGE := 256      // PAGE_SIZE / sizeof(struct bucket_desc)

  /** An object at an address, or a panic. */
  datatype Result = Object(a: nat) | Panic

  class Allocator {
    const mem: array<int>          // the first word of the object at each address
    const chain: array<int>        // bucket_dir[].chain
    var freeBucketDesc: int
    var desc: seq<Desc>            // all descriptors there are, one page of them after another
    ghost var lists: seq<seq<nat>>
    ghost var frees: seq<seq<nat>>
    ghost var live: set<nat>

    ghost function Heads(): seq<int>
      reads this`freeBucketDesc, chain
    {
      chain[..] + [freeBucketDesc]
    }

    ghost predicate Linked()
      reads this, chain
    {
      chain != mem && chain.Length == NR_BUCKETS && Lists(desc, Heads(), lists)
    }

    ghost predicate Valid()
      reads this, chain, mem
    {
      Linked() && Pages(desc, lists, frees, mem[..], live, NIL)
    }

    constructor (memory: nat)
      ensures Valid() && live == {} && mem.Length == memory && fresh(mem) && fresh(chain)
    {
      mem := new int[memory];
      chain := new int[NR_BUCKETS](_ => NIL);
      freeBucketDesc := NIL;
      desc, frees, live := [], [], {};
      lists := seq(NR_BUCKETS + 1, _ => []);
    }

    // ----- malloc -----

    /** The search of bucket_dir for a length (malloc.c:127-134): the smallest bucket that fits. */
    method FindBucket(len: nat) returns (b: nat)
      ensures b <= NR_BUCKETS && (b == NR_BUCKETS <==> len > PAGE_SIZE)
      ensures b < NR_BUCKETS ==> len <= Size(b)
      ensures forall c: nat | c < b :: Size(c) < len
    {
      b := 0;
      while b < NR_BUCKETS && Size(b) < len
        invariant b <= NR_BUCKETS && forall c: nat | c < b :: Size(c) < len
      {
        b := b + 1;
      }
      assert Size(8) == PAGE_SIZE;
    }

    /** A descriptor of bucket b with a free object, if there is one (malloc.c:139-141). */
    method FindFree(b: nat) returns (d: int)
      requires Valid() && b < NR_BUCKETS
      ensures d != NIL ==> 0 <= d < |desc| && OnChain(lists, b, d) && desc[d].freeptr != 0
      ensures d == NIL ==> forall e | e in lists[b] :: e < |desc| && desc[e].freeptr == 0
    {
      hide Pages;
      ghost var q, k := lists[b], 0;
      assert List(desc, Heads()[b], q);
      d := chain[b];
      while d != NIL && desc[d].freeptr == 0
        invariant 0 <= k <= |q| && d == (if k < |q| then q[k] else NIL)
        invariant forall i | 0 <= i < k :: q[i] < |desc| && desc[q[i]].freeptr == 0
        invariant d != NIL ==> 0 <= d < |desc|
        decreases |q| - k
      {
        ListNext(desc, Heads()[b], q, k);
        d, k := desc[d].next, k + 1;
        if k < |q| {
          ListNext(desc, Heads()[b], q, k);
        }
      }
    }

    /** init_bucket_desc (malloc.c:97-115), called when no descriptor is spare. */
    method InitBucketDesc()
      requires Valid() && freeBucketDesc == NIL
      modifies this`desc, this`freeBucketDesc, this`lists, this`frees
      ensures Valid() && freeBucketDesc != NIL
      ensures forall b | 0 <= b < NR_BUCKETS :: lists[b] == old(lists[b])
      ensures old(desc) <= desc && |lists| == |old(lists)|
    {
      hide Lists, Pages;
      var first := |desc|;
      var more: seq<Desc> := [];
      while |more| < DESCS_PER_PAGE - 1
        invariant |more| < DESCS_PER_PAGE
        invariant forall i | 0 <= i < |more| :: more[i].next == first + i + 1
      {
        more := more + [Desc(0, first + |more| + 1, 0, 0, 0)];
      }
      more := more + [Desc(0, freeBucketDesc, 0, 0, 0)];
      ghost var desc0, lists0, frees0 := desc, lists, frees;
      desc := desc + more;
      lists := SparesStep(desc0, desc, Heads(), lists0, DESCS_PER_PAGE);
      frees := frees + seq(DESCS_PER_PAGE, _ => []);
      freeBucketDesc := first;
      assert Heads() == (chain[..] + [NIL])[SPARE := first];
      PagesShape(desc0, lists0, frees0, mem[..], live, NIL);
      MoreStep(desc0, desc, lists0, lists, frees0, frees, mem[..], live);
    }

    /** The objects of a fresh page, each linked to the next (malloc.c:159-164). */
    method CutUp(b: nat, base: nat)
      requires b < NR_BUCKETS && base > 0 && base + PAGE_SIZE <= mem.Length
      modifies mem
      ensures FreeChain(mem[..], base, Cut(base, Size(b), PAGE_SIZE / Size(b)))
      ensures forall a | 0 <= a < mem.Length && !(base <= a < base + PAGE_SIZE) :: mem[a] == old(mem[a])
    {
      hide Cut;
      ghost var f := Cut(base, Size(b), PAGE_SIZE / Size(b));
      CutShape(b, base);
      var cp, i := base, PAGE_SIZE / Size(b);
      ghost var k := 0;
      while i > 1
        invariant 0 <= k < |f| && i + k == |f| && cp == f[k]
        invariant forall l, m {:trigger f[l], f[m]} | 0 <= l < m <= k && m == l + 1 :: mem[f[l]] == f[m]
        invariant forall a | 0 <= a < mem.Length && !(base <= a < base + PAGE_SIZE) :: mem[a] == old(mem[a])
      {
        assert f[k + 1] == f[k] + Size(b);
        mem[cp] := cp + Size(b);
        cp, i, k := cp + Size(b), i - 1, k + 1;
      }
      mem[cp] := 0;
    }

    /** A new page for bucket b (malloc.c:152-166). */
    method NewBucket(b: nat, page: nat) returns (d: nat)
      requires Valid() && b < NR_BUCKETS && freeBucketDesc != NIL
      requires page > 0 && page % PAGE_SIZE == 0 && page + PAGE_SIZE <= mem.Length && NewPage(desc, lists, page)
      modifies this`desc, this`freeBucketDesc, this`lists, this`frees, chain, mem
      ensures Linked() && Pages(desc, lists, frees, mem[..], live, d)
      ensures d < |desc| && OnChain(lists, b, d) && desc[d].freeptr != 0
      ensures StillThere(old(desc), old(lists), desc, lists)
      ensures forall a | 0 <= a < mem.Length && !(page <= a < page + PAGE_SIZE) :: mem[a] == old(mem[a])
    {
      hide Lists, Pages, DescOk, FreeChain, Cut, StillThere;
      ghost var desc0, heads0, lists0, frees0, mem0 := desc, Heads(), lists, frees, mem[..];
      PagesShape(desc0, lists0, frees0, mem0, live, NIL);
      HeadOnList(desc, heads0, lists, SPARE);
      d := freeBucketDesc;
      freeBucketDesc := desc[d].next;
      desc := desc[d := desc[d].(refcnt := 0)];
      desc := desc[d := desc[d].(size := Size(b))];
      desc := desc[d := desc[d].(page := page, freeptr := page)];
      CutUp(b, page);
      desc := desc[d := desc[d].(next := chain[b])];
      chain[b] := d;
      lists := lists[SPARE := Without(lists[SPARE], 0)][b := [d] + lists[b]];
      NewPageIsDead(desc0, lists0, frees0, mem0, live, NIL, page);
      CutPage(desc[d], b, mem[..], live);
      frees := frees[d := Cut(page, Size(b), PAGE_SIZE / Size(b))];
      MoveStep(desc0, desc, heads0, Heads(), lists0, lists, SPARE, 0, b);
      FreshStep(desc0, desc, lists0, lists, frees0, mem0, mem[..], live, b, d);
      NewStillThere(desc0, desc, lists0, lists, b, d);
    }

    /** The first free object of a page is handed out (malloc.c:168-170). */
    method Take(b: nat, d: nat) returns (a: nat)
      requires Linked() && Pages(desc, lists, frees, mem[..], live, d)
      requires d < |desc| && OnChain(lists, b, d) && desc[d].freeptr != 0
      modifies this`desc, this`frees, this`live
      ensures Valid() && a == old(desc[d].freeptr) && a !in old(live) && live == old(live) + {a}
      ensures StillThere(old(desc), old(lists), desc, lists) && Occupies(desc, lists, a, Size(b))
    {
      hide Lists, Pages, DescOk, FreeChain;
      PagesShape(desc, lists, frees, mem[..], live, d);
      OnOneChain(desc, Heads(), lists, b, d);
      ghost var desc0 := desc;
      a := desc[d].freeptr;
      TakeStep(desc, lists, frees, mem[..], live, b, d);
      PageOf(desc, lists, frees, mem[..], live, d, b);
      OnOwnPage(desc, d, a);
      desc := desc[d := desc[d].(freeptr := mem[a])];
      desc := desc[d := desc[d].(refcnt := desc[d].refcnt + 1)];
      frees := frees[d := frees[d][1..]];
      live := live + {a};
      SameLinksLists(desc0, desc, Heads(), lists);
      assert desc == desc0[d := desc0[d].(freeptr := mem[a], refcnt := desc0[d].refcnt + 1)];
    }

    /**
      malloc (malloc.c:117-173).  page is what get_free_page gives, 0 for nothing; spare tells whether
      it gives one for descriptors.  Memory is written on that page alone, where no live object is.
    */
    method Malloc(len: nat, page: nat, spare: bool) returns (r: Result)
      requires Valid() && (page != 0 ==> page % PAGE_SIZE == 0 && page + PAGE_SIZE <= mem.Length && NewPage(desc, lists, page))
      modifies this, chain, mem
      ensures r.Panic? <==> len > 4096 || (!old(FreeObject(desc, lists, len)) && (page == 0 || (old(freeBucketDesc) == NIL && !spare)))
      ensures r.Object? ==> Valid() && r.a !in old(live) && live == old(live) + {r.a}
      ensures r.Object? ==> exists b: nat :: SmallestFit(b, len) && Occupies(desc, lists, r.a, Size(b))
      ensures r.Object? ==> exists s: nat :: Occupies(desc, lists, r.a, s) && len <= s && (s == 16 || s < 2 * len)
      ensures r.Object? ==> StillThere(old(desc), old(lists), desc, lists)
      ensures forall w | 0 <= w < mem.Length && mem[w] != old(mem[w]) :: page != 0 && page <= w < page + PAGE_SIZE
      ensures page != 0 ==> forall a | a in old(live) :: !(page <= a < page + PAGE_SIZE)
    {
      hide Lists, Pages, DescOk, FreeChain, StillThere, Occupies;
      if page != 0 {
        NewPageIsDead(desc, lists, frees, mem[..], live, NIL, page);
      }
      var b := FindBucket(len);
      if b == NR_BUCKETS {
        return Panic;
      }
      SameStillThere(desc, lists);
      FitIsTight(b, len);
      var d := FindFree(b);
      assert FreeObject(desc, lists, len) <==> d != NIL by {
        OnlyFit(desc, lists, len, b);
      }
      if d == NIL {
        ghost var desc0, lists0 := desc, lists;
        if freeBucketDesc == NIL {
          if !spare {
            return Panic;
          }
          PagesShape(desc, lists, frees, mem[..], live, NIL);
          InitBucketDesc();
          MoreStillThere(desc0, desc, lists0, lists, page);
        }
        if page == 0 {
          return Panic;
        }
        ghost var desc1, lists1 := desc, lists;
        d := NewBucket(b, page);
        StillThereTrans(desc0, lists0, desc1, lists1, desc, lists);
      } else {
        AllowEmpty(desc, lists, frees, mem[..], live, d);
      }
      ghost var desc2, lists2 := desc, lists;
      var a := Take(b, d);
      StillThereTrans(old(desc), old(lists), desc2, lists2, desc, lists);
      assert SmallestFit(b, len);
      r := Object(a);
    }

    // ----- free_s -----

    /**
      The search of free_s (malloc.c:189-203), with a size hint of 0 or any that is not above the size
      of the object's bucket.
    */
    method FindDesc(obj: nat, size: nat) returns (b: nat, d: int, prev: int, ghost k: nat)
      requires Valid() && obj in live
      requires forall c: nat, e: nat :: OnChain(lists, c, e) && OnPage(desc, e, obj) ==> size <= Size(c)
      ensures b < NR_BUCKETS && k < |lists[b]| && d == lists[b][k] && 0 <= d < |desc| && OnPage(desc, d, obj)
      ensures prev == if k > 0 then lists[b][k - 1] else NIL
    {
      hide DescOk, List;
      ghost var c, e := LiveOccupies(desc, lists, frees, mem[..], live, NIL, obj);
      assert e in lists[c];
      b, d, prev, k := 0, NIL, NIL, 0;
      while b < NR_BUCKETS
        invariant b <= NR_BUCKETS && b <= c
      {
        prev := NIL;
        if Size(b) >= size {
          k := 0;
          ghost var q := lists[b];
          d := chain[b];
          ListFacts(desc, Heads()[b], q);
          while d != NIL
            invariant k <= |q| && d == (if k < |q| then q[k] else NIL) && (d != NIL ==> 0 <= d < |desc|)
            invariant prev == if k > 0 then q[k - 1] else NIL
            invariant forall i | 0 <= i < k :: !OnPage(desc, q[i], obj)
            decreases |q| - k
          {
            if desc[d].page == obj - obj % PAGE_SIZE {
              return;
            }
            ListNext(desc, Heads()[b], q, k);
            prev, d, k := d, desc[d].next, k + 1;
          }
          assert e !in q;
        }
        b := b + 1;
      }
    }

    /**
      The rest of free_s (malloc.c:204-230).  prev is what the search saw; chains may have changed
      since, so it may be any descriptor.  The page that goes back to the kernel is returned, 0 for none.
    */
    method FreeFound(obj: nat, b: nat, d: nat, prev0: int, ghost k: nat) returns (page: nat)
      requires Valid() && obj in live && b < NR_BUCKETS && k < |lists[b]| && d == lists[b][k] && OnPage(desc, d, obj)
      requires NIL <= prev0 < |desc|
      modifies this, chain, mem
      ensures Valid() && live == old(live) - {obj} && KeepsPlaces(live, old(desc), old(lists), desc, lists)
      ensures page != 0 <==> LiveIn(live, obj - obj % PAGE_SIZE) == {}
      ensures page != 0 ==> page == obj - obj % PAGE_SIZE && NewPage(desc, lists, page) && freeBucketDesc == d
      ensures page == 0 ==> lists == old(lists) && Heads() == old(Heads())
      ensures page != 0 ==> |old(lists)| == NR_BUCKETS + 1 && lists == old(lists)[b := Without(old(lists)[b], k)][SPARE := [d] + old(lists)[SPARE]]
      ensures forall w | 0 <= w < mem.Length && w != obj :: mem[w] == old(mem[w])
    {
      hide Lists, Pages, DescOk, List, KeepsPlaces;
      ghost var desc0, lists0, heads := desc, lists, Heads();
      PagesShape(desc, lists, frees, mem[..], live, NIL);
      assert OnChain(lists, b, d);
      OnOneChain(desc, heads, lists, b, d);
      PutStep(desc, lists, frees, mem[..], live, b, d, obj);
      mem[obj] := desc[d].freeptr;
      desc := desc[d := desc[d].(freeptr := obj)];
      desc := desc[d := desc[d].(refcnt := desc[d].refcnt - 1)];
      frees := frees[d := [obj] + frees[d]];
      live := live - {obj};
      ghost var desc1 := desc;
      SameLinksLists(desc0, desc1, heads, lists);
      assert desc1 == desc0[d := desc0[d].(freeptr := obj, refcnt := desc0[d].refcnt - 1)];
      RefcntCounts(desc1, lists, frees, mem[..], live, b, d, obj);
      if desc[d].refcnt != 0 {
        ForbidEmpty(desc1, lists, frees, mem[..], live, d);
        SamePlaces(live, desc0, desc1, lists);
        return 0;
      }
      page := desc[d].page;
      var prev := FindPrev(b, d, prev0, k);
      if prev != NIL {
        desc := desc[prev := desc[prev].(next := desc[d].next)];
      } else {
        chain[b] := desc[d].next;
      }
      desc := desc[d := desc[d].(next := freeBucketDesc)];
      freeBucketDesc := d;
      lists := lists[b := Without(lists[b], k)][SPARE := [d] + lists[SPARE]];
      MoveStep(desc1, desc, heads, Heads(), lists0, lists, b, k, SPARE);
      DropStep(desc1, desc, lists0, lists, frees, mem[..], live, b, d);
      DroppedPlaces(live, desc0, desc, lists0, lists, b, d, page);
    }

    /** The pointer that leads to d, from what the search saw or by a walk down the chain (malloc.c:209-217). */
    method FindPrev(b: nat, d: nat, prev0: int, ghost k: nat) returns (prev: int)
      requires Linked() && b < NR_BUCKETS && k < |lists[b]| && d == lists[b][k] && NIL <= prev0 < |desc|
      ensures prev == if k > 0 then lists[b][k - 1] else NIL
      ensures NIL <= prev < |desc| && (prev == NIL ==> chain[b] == d)
    {
      ghost var q := lists[b];
      assert List(desc, Heads()[b], q);
      prev := prev0;
      if (prev != NIL && desc[prev].next != d) || (prev == NIL && chain[b] != d) {
        prev := chain[b];
        ghost var j := 0;
        while prev != NIL && desc[prev].next != d
          invariant 0 <= j <= |q| && prev == (if j < |q| then q[j] else NIL) && NIL <= prev < |desc|
          invariant k > 0 ==> j < k
          invariant j > 0 ==> q[j - 1] < |desc|
          decreases |q| - j
        {
          ListNext(desc, Heads()[b], q, j);
          prev, j := desc[prev].next, j + 1;
        }
      }
      if prev != NIL {
        OnePredecessor(desc, Heads(), lists, b, k, prev);
      }
    }

    /** free_s (malloc.c:182-231). */
    method FreeS(obj: nat, size: nat) returns (page: nat)
      requires Valid() && obj in live
      requires forall c: nat, e: nat :: OnChain(lists, c, e) && OnPage(desc, e, obj) ==> size <= Size(c)
      modifies this, chain, mem
      ensures Valid() && live == old(live) - {obj} && KeepsPlaces(live, old(desc), old(lists), desc, lists)
      ensures page != 0 <==> LiveIn(live, obj - obj % PAGE_SIZE) == {}
      ensures page != 0 ==> page == obj - obj % PAGE_SIZE && NewPage(desc, lists, page)
      ensures forall w | 0 <= w < mem.Length && w != obj :: mem[w] == old(mem[w])
    {
      hide Lists, Pages;
      var b, d, prev;
      ghost var k;
      b, d, prev, k := FindDesc(obj, size);
      PrevInRange(b, k);
      page := FreeFound(obj, b, d, prev, k);
    }

    lemma PrevInRange(b: nat, k: nat)
      requires Valid() && b < NR_BUCKETS && k < |lists[b]|
      ensures k > 0 ==> 0 <= lists[b][k - 1] < |desc|
    {
      assert List(desc, Heads()[b], lists[b]);
    }

    /** The user of an object writes into it. */
    method UserWrite(a: nat, w: nat, v: int)
      requires Valid() && WithinLive(desc, lists, live, a, w) && w < mem.Length
      modifies mem
      ensures Valid() && mem[w] == v && forall k | 0 <= k < mem.Length && k != w :: mem[k] == old(mem[k])
    {
      hide Lists, Pages;
      ghost var m := mem[..];
      mem[w] := v;
      UserStep(desc, lists, frees, m, mem[..], live, a, w, NIL);
    }
  }

  lemma PagesShape(desc: seq<Desc>, lists: seq<seq<nat>>, frees: seq<seq<nat>>, mem: seq<int>, live: set<nat>, but: int)
    requires Pages(desc, lists, frees, mem, live, but)
    ensures |lists| == NR_BUCKETS + 1 && |frees| == |desc|
    ensures forall b, d {:trigger d in lists[b]} | 0 <= b < NR_BUCKETS && d in lists[b] :: d < |desc|
  {
  }

  /** Bucket b fits len and no smaller one does. */
  predicate SmallestFit(b: nat, len: nat) {
    b < NR_BUCKETS && len <= Size(b) && forall c: nat | c < b :: Size(c) < len
  }

  lemma FitIsTight(b: nat, len: nat)
    requires SmallestFit(b, len)
    ensures Size(b) == 16 || Size(b) < 2 * len
  {
    if b > 0 {
      assert Size(b - 1) < len;
    }
  }

  /** The bucket of this length has a page with a free object. */
  ghost predicate FreeObject(desc: seq<Desc>, lists: seq<seq<nat>>, len: nat) {
    exists b: nat, d: nat :: SmallestFit(b, len) && OnChain(lists, b, d) && d < |desc| && desc[d].freeptr != 0
  }

  lemma OnlyFit(desc: seq<Desc>, lists: seq<seq<nat>>, len: nat, b: nat)
    requires SmallestFit(b, len)
    ensures FreeObject(desc, lists, len) <==> exists d: nat :: OnChain(lists, b, d) && d < |desc| && desc[d].freeptr != 0
  {
    if c: nat, d: nat :| SmallestFit(c, len) && OnChain(lists, c, d) && d < |desc| && desc[d].freeptr != 0 {
      assert c == b;
    }
    if d: nat :| OnChain(lists, b, d) && d < |desc| && desc[d].freeptr != 0 {
      assert FreeObject(desc, lists, len);
    }
  }

  /** Every object that had its place and size has them still. */
  ghost predicate StillThere(desc: seq<Desc>, lists: seq<seq<nat>>, desc': seq<Desc>, lists': seq<seq<nat>>) {
    forall a: nat, s: nat {:trigger Occupies(desc', lists', a, s)} | Occupies(desc, lists, a, s) :: Occupies(desc', lists', a, s)
  }

  lemma SameStillThere(desc: seq<Desc>, lists: seq<seq<nat>>)
    ensures StillThere(desc, lists, desc, lists)
  {
  }

  lemma StillThereTrans(desc: seq<Desc>, lists: seq<seq<nat>>, desc1: seq<Desc>, lists1: seq<seq<nat>>, desc2: seq<Desc>, lists2: seq<seq<nat>>)
    requires StillThere(desc, lists, desc1, lists1) && StillThere(desc1, lists1, desc2, lists2)
    ensures StillThere(desc, lists, desc2, lists2)
  {
    forall a: nat, s: nat | Occupies(desc, lists, a, s) ensures Occupies(desc2, lists2, a, s) {
      assert Occupies(desc1, lists1, a, s);
    }
  }

  lemma NewStillThere(desc: seq<Desc>, desc': seq<Desc>, lists: seq<seq<nat>>, lists': seq<seq<nat>>, b: nat, d: nat)
    requires b < NR_BUCKETS && |lists| == |lists'| == NR_BUCKETS + 1 && d < |desc| == |desc'| && desc' == desc[d := desc'[d]]
    requires lists'[b] == [d] + lists[b] && forall c | 0 <= c < NR_BUCKETS && c != b :: lists'[c] == lists[c]
    requires forall c | 0 <= c < NR_BUCKETS :: d !in lists[c]
    ensures StillThere(desc, lists, desc', lists')
  {
    forall a: nat, s: nat | Occupies(desc, lists, a, s) ensures Occupies(desc', lists', a, s) {
      var c: nat, e: nat :| OnChain(lists, c, e) && OnPage(desc, e, a) && desc[e].size == s;
      assert OnChain(lists', c, e) && OnPage(desc', e, a) && desc'[e].size == s;
    }
  }

  lemma MoreStillThere(desc: seq<Desc>, desc': seq<Desc>, lists: seq<seq<nat>>, lists': seq<seq<nat>>, page: nat)
    requires |lists'| == |lists| == NR_BUCKETS + 1 && desc <= desc' && forall b | 0 <= b < NR_BUCKETS :: lists'[b] == lists[b]
    requires forall b, d {:trigger d in lists[b]} | 0 <= b < NR_BUCKETS && d in lists[b] :: d < |desc|
    ensures StillThere(desc, lists, desc', lists') && (NewPage(desc, lists, page) ==> NewPage(desc', lists', page))
  {
    forall a: nat, s: nat | Occupies(desc, lists, a, s) ensures Occupies(desc', lists', a, s) {
      var c: nat, e: nat :| OnChain(lists, c, e) && OnPage(desc, e, a) && desc[e].size == s;
      assert OnChain(lists', c, e) && OnPage(desc', e, a) && desc'[e].size == s;
    }
  }

  lemma HeadOnList(desc: seq<Desc>, heads: seq<int>, lists: seq<seq<nat>>, m: nat)
    requires Lists(desc, heads, lists) && m <= NR_BUCKETS && heads[m] != NIL
    ensures |lists| == NR_BUCKETS + 1 == |heads| && lists[m] != [] && lists[m][0] == heads[m] && 0 <= heads[m] < |desc|
    ensures forall n | 0 <= n <= NR_BUCKETS && n != m :: lists[m][0] !in lists[n]
  {
    assert List(desc, heads[m], lists[m]) && lists[m][0] in lists[m];
  }

  lemma OnOneChain(desc: seq<Desc>, heads: seq<int>, lists: seq<seq<nat>>, b: nat, d: nat)
    requires Lists(desc, heads, lists) && OnChain(lists, b, d)
    ensures forall c | 0 <= c <= NR_BUCKETS && c != b :: d !in lists[c]
  {
    assert d in lists[b];
  }

  lemma PageOf(desc: seq<Desc>, lists: seq<seq<nat>>, frees: seq<seq<nat>>, mem: seq<int>, live: set<nat>, but: int, b: nat)
    requires Pages(desc, lists, frees, mem, live, but) && but >= 0 && OnChain(lists, b, but)
    ensures but < |desc| && desc[but].page % PAGE_SIZE == 0 && desc[but].size == Size(b)
  {
    hide FreeChain;
    assert but in lists[b] && DescOk(desc[but], b, frees[but], mem, live);
  }

  lemma SameLinksLists(desc: seq<Desc>, desc': seq<Desc>, heads: seq<int>, lists: seq<seq<nat>>)
    requires Lists(desc, heads, lists) && |desc'| == |desc| && forall d | 0 <= d < |desc| :: desc'[d].next == desc[d].next
    ensures Lists(desc', heads, lists)
  {
    hide List;
    forall m | 0 <= m <= NR_BUCKETS ensures List(desc', heads[m], lists[m]) {
      ListKept(desc, desc', heads[m], lists[m]);
    }
  }

  lemma AllowEmpty(desc: seq<Desc>, lists: seq<seq<nat>>, frees: seq<seq<nat>>, mem: seq<int>, live: set<nat>, d: int)
    requires Pages(desc, lists, frees, mem, live, NIL)
    ensures Pages(desc, lists, frees, mem, live, d)
  {
  }

  /** Only one descriptor leads to another. */
  lemma OnePredecessor(desc: seq<Desc>, heads: seq<int>, lists: seq<seq<nat>>, b: nat, k: nat, prev: nat)
    requires Lists(desc, heads, lists) && b <= NR_BUCKETS && k < |lists[b]| && prev < |desc| && desc[prev].next == lists[b][k]
    ensures k > 0 && prev == lists[b][k - 1]
  {
    assert Somewhere(lists, prev);
    var m :| 0 <= m < |lists| && prev in lists[m];
    var q, d := lists[m], lists[b][k];
    var i :| 0 <= i < |q| && q[i] == prev;
    assert List(desc, heads[m], q) && List(desc, heads[b], lists[b]);
    ListNext(desc, heads[m], q, i);
    assert i + 1 < |q| && q[i + 1] == d;
    assert d in lists[m] && d in lists[b];
    assert m == b;
  }

  /** The objects of live are where they were. */
  ghost predicate KeepsPlaces(live: set<nat>, desc: seq<Desc>, lists: seq<seq<nat>>, desc': seq<Desc>, lists': seq<seq<nat>>) {
    forall a: nat, s: nat {:trigger Occupies(desc', lists', a, s)} | a in live && Occupies(desc, lists, a, s) :: Occupies(desc', lists', a, s)
  }

  lemma SamePlaces(live: set<nat>, desc: seq<Desc>, desc': seq<Desc>, lists: seq<seq<nat>>)
    requires |desc'| == |desc| && forall d | 0 <= d < |desc| :: desc'[d].page == desc[d].page && desc'[d].size == desc[d].size
    ensures KeepsPlaces(live, desc, lists, desc', lists)
  {
    forall a: nat, s: nat | a in live && Occupies(desc, lists, a, s) ensures Occupies(desc', lists, a, s) {
      var c: nat, e: nat :| OnChain(lists, c, e) && OnPage(desc, e, a) && desc[e].size == s;
      assert OnChain(lists, c, e) && OnPage(desc', e, a) && desc'[e].size == s;
    }
  }

  lemma DroppedPlaces(live: set<nat>, desc: seq<Desc>, desc': seq<Desc>, lists: seq<seq<nat>>, lists': seq<seq<nat>>, b: nat, d: nat, page: nat)
    requires |desc'| == |desc| && forall e | 0 <= e < |desc| :: desc'[e].page == desc[e].page && desc'[e].size == desc[e].size
    requires d < |desc| && desc[d].page == page && b < NR_BUCKETS && |lists'| == |lists| == NR_BUCKETS + 1
    requires forall e :: e in lists'[b] <==> e in lists[b] && e != d
    requires forall c | 0 <= c < NR_BUCKETS && c != b :: lists'[c] == lists[c]
    requires page % PAGE_SIZE == 0 && LiveIn(live, page) == {}
    ensures KeepsPlaces(live, desc, lists, desc', lists')
  {
    forall a: nat, s: nat | a in live && Occupies(desc, lists, a, s) ensures Occupies(desc', lists', a, s) {
      var c: nat, e: nat :| OnChain(lists, c, e) && OnPage(desc, e, a) && desc[e].size == s;
      PagesApart(page, a);
      assert a !in LiveIn(live, page);
      assert OnChain(lists', c, e) && OnPage(desc', e, a) && desc'[e].size == s;
    }
  }

  lemma RefcntCounts(desc: seq<Desc>, lists: seq<seq<nat>>, frees: seq<seq<nat>>, mem: seq<int>, live: set<nat>, b: nat, d: nat, a: nat)
    requires Pages(desc, lists, frees, mem, live, d) && OnChain(lists, b, d) && OnPage(desc, d, a)
    ensures desc[d].page == a - a % PAGE_SIZE && desc[d].page > 0 && desc[d].page % PAGE_SIZE == 0
    ensures desc[d].refcnt == 0 <==> LiveIn(live, a - a % PAGE_SIZE) == {}
  {
    hide FreeChain;
    assert d in lists[b] && DescOk(desc[d], b, frees[d], mem, live);
  }

  lemma ForbidEmpty(desc: seq<Desc>, lists: seq<seq<nat>>, frees: seq<seq<nat>>, mem: seq<int>, live: set<nat>, d: nat)
    requires Pages(desc, lists, frees, mem, live, d) && d < |desc| && desc[d].refcnt > 0
    ensures Pages(desc, lists, frees, mem, live, NIL)
  {
    hide DescOk;
  }
}
