/**
  The state of the kernel's bucket allocator (linux-0.11/lib/malloc.c): bucket descriptors on ten
  singly linked lists, pages cut into equal objects, and the free objects of a page linked through
  their own first word.  A pointer to a descriptor is an index, NIL for null; addresses are numbers.
*/
module Buckets {
  import opened Sequences

  const NIL := -1
  const PAGE_SIZE := 4096
  const NR_BUCKETS := 9
  const SPARE := 9             // the list free_bucket_desc, after the nine chains of bucket_dir

  /** struct bucket_desc (malloc.c:52-58). */
  datatype Desc = Desc(page: nat, next: int, freeptr: nat, refcnt: nat, size: nat)

  /** bucket_dir[b].size (malloc.c:77-86). */
  function Size(b: nat): (s: nat)
    requires b < NR_BUCKETS
    ensures 16 <= s <= PAGE_SIZE && PAGE_SIZE % s == 0
  {
    [16, 32, 64, 128, 256, 512, 1024, 2048, 4096][b]
  }

  // ----- Lists of descriptors -----

  ghost predicate List(desc: seq<Desc>, head: int, q: seq<nat>) {
    && (forall i | 0 <= i < |q| :: q[i] < |desc|)
    && (forall i, j | 0 <= i < j < |q| :: q[i] != q[j])
    && head == (if q == [] then NIL else q[0])
    && (q != [] ==> desc[q[|q| - 1]].next == NIL)
    && (forall i, j {:trigger q[i], q[j]} | 0 <= i < j < |q| && j == i + 1 :: desc[q[i]].next == q[j])
  }

  /** Every descriptor is on exactly one of the ten lists. */
  ghost predicate Lists(desc: seq<Desc>, heads: seq<int>, lists: seq<seq<nat>>) {
    && |heads| == |lists| == NR_BUCKETS + 1
    && (forall m | 0 <= m <= NR_BUCKETS :: List(desc, heads[m], lists[m]))
    && (forall m, n, d {:trigger d in lists[m], d in lists[n]} | 0 <= m < n <= NR_BUCKETS && d in lists[m] :: d !in lists[n])
    && (forall d: nat | d < |desc| :: Somewhere(lists, d))
  }

  ghost predicate Somewhere(lists: seq<seq<nat>>, d: nat) {
    exists m :: 0 <= m < |lists| && d in lists[m]
  }

  lemma ListNext(desc: seq<Desc>, head: int, q: seq<nat>, k: nat)
    requires List(desc, head, q) && k < |q|
    ensures q[k] < |desc| && desc[q[k]].next == if k + 1 < |q| then q[k + 1] else NIL
  {
    assert k + 1 < |q| ==> desc[q[k]].next == q[k + 1];
  }

  /** The links of the descriptors on q are as they were. */
  ghost predicate SameNext(desc: seq<Desc>, desc': seq<Desc>, q: seq<nat>) {
    |desc'| >= |desc| && forall d | d in q && d < |desc| :: desc'[d].next == desc[d].next
  }

  lemma ListKept(desc: seq<Desc>, desc': seq<Desc>, head: int, q: seq<nat>)
    requires List(desc, head, q) && SameNext(desc, desc', q)
    ensures List(desc', head, q)
  {
    assert forall i | 0 <= i < |q| :: q[i] in q;
  }

  lemma ListPush(desc: seq<Desc>, head: int, q: seq<nat>, d: nat)
    requires List(desc, head, q) && d < |desc| && d !in q && desc[d].next == head
    ensures List(desc, d, [d] + q)
  {
    var r := [d] + q;
    forall i, j | 0 <= i < j < |r| && j == i + 1 ensures desc[r[i]].next == r[j] {
      if i > 0 {
        assert r[i] == q[i - 1] && r[j] == q[j - 1];
      }
    }
    assert q != [] ==> r[|r| - 1] == q[|q| - 1];
  }

  /** q[k] has been taken out of the list by the pointer that leads to it (malloc.c:218-224). */
  ghost predicate Unlinked(desc: seq<Desc>, desc': seq<Desc>, q: seq<nat>, k: nat)
    requires k < |q| && q[k] < |desc|
  {
    && |desc'| == |desc|
    && (forall d | d in q && d < |desc| && d != q[k] && (k == 0 || d != q[k - 1]) :: desc'[d].next == desc[d].next)
    && (k > 0 ==> q[k - 1] < |desc| && desc'[q[k - 1]].next == desc[q[k]].next)
  }

  lemma ListRemove(desc: seq<Desc>, desc': seq<Desc>, head: int, q: seq<nat>, k: nat)
    requires List(desc, head, q) && k < |q| && q[k] < |desc| && Unlinked(desc, desc', q, k)
    ensures List(desc', if k == 0 then desc[q[0]].next else head, Without(q, k))
  {
    var r := Without(q, k);
    ListNext(desc, head, q, k);
    forall i, j {:trigger r[i], r[j]} | 0 <= i < j < |r| && j == i + 1 ensures desc'[r[i]].next == r[j] {
      RemoveMiddle(desc, desc', head, q, k, i);
    }
    if r != [] {
      RemoveEnd(desc, desc', head, q, k);
    }
  }

  lemma RemoveMiddle(desc: seq<Desc>, desc': seq<Desc>, head: int, q: seq<nat>, k: nat, i: nat)
    requires List(desc, head, q) && k < |q| && i + 2 < |q| && q[k] < |desc| && Unlinked(desc, desc', q, k)
    ensures var r := Without(q, k); r[i] < |desc'| && desc'[r[i]].next == r[i + 1]
  {
    var r := Without(q, k);
    if i + 1 < k {
      ListNext(desc, head, q, i);
      assert r[i] == q[i] && r[i + 1] == q[i + 1] && q[i] in q;
    } else if i >= k {
      ListNext(desc, head, q, i + 1);
      assert r[i] == q[i + 1] && r[i + 1] == q[i + 2] && q[i + 1] in q;
    } else {
      ListNext(desc, head, q, k);
      assert r[i] == q[k - 1] && r[i + 1] == q[k + 1];
    }
  }

  lemma RemoveEnd(desc: seq<Desc>, desc': seq<Desc>, head: int, q: seq<nat>, k: nat)
    requires List(desc, head, q) && k < |q| && |q| > 1 && q[k] < |desc| && Unlinked(desc, desc', q, k)
    ensures var r := Without(q, k); r[|r| - 1] < |desc'| && desc'[r[|r| - 1]].next == NIL
  {
    var r := Without(q, k);
    ListNext(desc, head, q, k);
    if k == |q| - 1 {
      assert r[|r| - 1] == q[k - 1];
    } else {
      assert r[|r| - 1] == q[|q| - 1] && q[|q| - 1] in q;
    }
  }

  /** Descriptor q[k] of list m has been moved to the front of list n. */
  ghost predicate Moved(desc: seq<Desc>, desc': seq<Desc>, heads: seq<int>, heads': seq<int>, lists: seq<seq<nat>>, lists': seq<seq<nat>>,
                        m: nat, k: nat, n: nat)
    requires |heads| == |lists| == NR_BUCKETS + 1 && m <= NR_BUCKETS && n <= NR_BUCKETS && k < |lists[m]| && lists[m][k] < |desc|
  {
    var d := lists[m][k];
    && |desc'| == |desc|
    && (forall e: nat {:trigger desc'[e]} | e < |desc| :: desc'[e].next ==
          if e == d then heads[n] else if k > 0 && e == lists[m][k - 1] then desc[d].next else desc[e].next)
    && heads' == heads[m := if k == 0 then desc[d].next else heads[m]][n := d]
    && lists' == lists[m := Without(lists[m], k)][n := [d] + lists[n]]
  }

  lemma MoveStep(desc: seq<Desc>, desc': seq<Desc>, heads: seq<int>, heads': seq<int>, lists: seq<seq<nat>>, lists': seq<seq<nat>>,
                 m: nat, k: nat, n: nat)
    requires Lists(desc, heads, lists) && m <= NR_BUCKETS && n <= NR_BUCKETS && m != n && k < |lists[m]| && lists[m][k] < |desc|
    requires Moved(desc, desc', heads, heads', lists, lists', m, k, n)
    ensures Lists(desc', heads', lists')
    ensures forall e :: e in lists'[m] <==> e in lists[m] && e != lists[m][k]
  {
    hide List;
    var d := lists[m][k];
    ListFacts(desc, heads[m], lists[m]);
    assert d in lists[m] && (k > 0 ==> lists[m][k - 1] in lists[m]);
    WithoutMembers(lists[m], k);
    forall l | 0 <= l <= NR_BUCKETS ensures List(desc', heads'[l], lists'[l]) {
      if l == m {
        ListRemove(desc, desc', heads[m], lists[m], k);
      } else {
        ListKept(desc, desc', heads[l], lists[l]);
        if l == n {
          ListPush(desc', heads[n], lists[n], d);
        }
      }
    }
    forall e: nat | e < |desc'| ensures Somewhere(lists', e) {
      assert Somewhere(lists, e);
      var l :| 0 <= l < |lists| && e in lists[l];
      assert e in lists'[if e == d then n else l];
    }
  }

  lemma ListFacts(desc: seq<Desc>, head: int, q: seq<nat>)
    requires List(desc, head, q)
    ensures (forall i, j | 0 <= i < j < |q| :: q[i] != q[j]) && (forall i | 0 <= i < |q| :: q[i] < |desc|)
    ensures head == (if q == [] then NIL else q[0])
  {
  }

  /** init_bucket_desc (malloc.c:97-115) when no descriptor was spare: n new ones are. */
  lemma SparesStep(desc: seq<Desc>, desc': seq<Desc>, heads: seq<int>, lists: seq<seq<nat>>, n: nat) returns (lists': seq<seq<nat>>)
    requires Lists(desc, heads, lists) && heads[SPARE] == NIL && n > 0 && |desc'| == |desc| + n
    requires forall e | 0 <= e < |desc| :: desc'[e] == desc[e]
    requires forall e | |desc| <= e < |desc'| :: desc'[e].next == if e + 1 < |desc'| then e + 1 else NIL
    ensures |lists'| == |lists| && Lists(desc', heads[SPARE := |desc|], lists') && forall b | 0 <= b < NR_BUCKETS :: lists'[b] == lists[b]
  {
    hide List;
    var q := seq(n, i requires 0 <= i < n => |desc| + i);
    lists' := lists[SPARE := q];
    ListFacts(desc, heads[SPARE], lists[SPARE]);
    NewSpares(desc', |desc|, q);
    forall l | 0 <= l < NR_BUCKETS ensures List(desc', heads[l], lists[l]) && forall e | e in lists[l] :: e < |desc| {
      ListFacts(desc, heads[l], lists[l]);
      ListKept(desc, desc', heads[l], lists[l]);
    }
    forall e: nat | e < |desc'| ensures Somewhere(lists', e) {
      if e < |desc| {
        assert Somewhere(lists, e);
        var l :| 0 <= l < |lists| && e in lists[l];
        assert e in lists'[l];
      } else {
        assert q[e - |desc|] == e && e in lists'[SPARE];
      }
    }
  }

  lemma NewSpares(desc: seq<Desc>, first: nat, q: seq<nat>)
    requires q != [] && first + |q| == |desc| && forall i | 0 <= i < |q| :: q[i] == first + i
    requires forall e | first <= e < |desc| :: desc[e].next == if e + 1 < |desc| then e + 1 else NIL
    ensures List(desc, first, q)
  {
  }

  // ----- Pages -----

  /** Address a is one of the objects the page of x is cut into. */
  predicate IsSlot(x: Desc, a: nat)
    requires x.size > 0
  {
    x.page <= a < x.page + PAGE_SIZE && (a - x.page) % x.size == 0
  }

  /** Two objects of one page do not overlap. */
  lemma SlotsApart(x: Desc, a: nat, b: nat)
    requires x.size > 0 && IsSlot(x, a) && IsSlot(x, b) && a < b
    ensures a + x.size <= b
  {
    var s, i, j := x.size, (a - x.page) / x.size, (b - x.page) / x.size;
    assert a - x.page == s * i && b - x.page == s * j;
    if j <= i {
      Multiples(s, j, i);
    } else {
      Multiples(s, i + 1, j);
      assert s * (i + 1) == s * i + s;
    }
  }

  lemma Multiples(s: nat, i: nat, j: nat)
    requires i <= j
    ensures s * i <= s * j
  {
  }

  /** An object lies within its page. */
  lemma SlotFits(x: Desc, a: nat)
    requires x.size > 0 && IsSlot(x, a) && PAGE_SIZE % x.size == 0
    ensures a + x.size <= x.page + PAGE_SIZE
  {
    var end := x.page + PAGE_SIZE;
    var s, i, j := x.size, (a - x.page) / x.size, PAGE_SIZE / x.size;
    assert a - x.page == s * i && PAGE_SIZE == s * j;
    if j <= i {
      Multiples(s, j, i);
    } else {
      Multiples(s, i + 1, j);
      assert s * (i + 1) == s * i + s;
    }
  }

  /** The chain of free objects starting at ptr runs through f, each linked to the next by its first word. */
  ghost predicate FreeChain(mem: seq<int>, ptr: nat, f: seq<nat>) {
    && (forall i | 0 <= i < |f| :: 0 < f[i] < |mem|)
    && (forall i, j | 0 <= i < j < |f| :: f[i] != f[j])
    && ptr == (if f == [] then 0 else f[0])
    && (f != [] ==> mem[f[|f| - 1]] == 0)
    && (forall i, j {:trigger f[i], f[j]} | 0 <= i < j < |f| && j == i + 1 :: mem[f[i]] == f[j])
  }

  /** The live objects of the page at base. */
  ghost function LiveIn(live: set<nat>, base: nat): set<nat> {
    set a | a in live && base <= a < base + PAGE_SIZE
  }

  /**
    A descriptor on the chain of bucket b: every object of its page is either live or on its free
    chain, and refcnt counts the live ones.
  */
  ghost predicate DescOk(x: Desc, b: nat, f: seq<nat>, mem: seq<int>, live: set<nat>)
    requires b < NR_BUCKETS
  {
    && x.size == Size(b) && x.page > 0 && x.page % PAGE_SIZE == 0 && x.page + PAGE_SIZE <= |mem|
    && FreeChain(mem, x.freeptr, f)
    && (forall a: nat {:trigger a in f} {:trigger IsSlot(x, a)} :: a in f <==> IsSlot(x, a) && a !in live)
    && (forall a | a in live && x.page <= a < x.page + PAGE_SIZE :: IsSlot(x, a))
    && x.refcnt == |LiveIn(live, x.page)|
  }

  /** The allocator's invariant; but is a descriptor whose page may be entirely free. */
  ghost predicate Pages(desc: seq<Desc>, lists: seq<seq<nat>>, frees: seq<seq<nat>>, mem: seq<int>, live: set<nat>, but: int) {
    && |lists| == NR_BUCKETS + 1 && |frees| == |desc|
    && (forall b, d {:trigger d in lists[b]} | 0 <= b < NR_BUCKETS && d in lists[b] ::
          d < |desc| && DescOk(desc[d], b, frees[d], mem, live) && (d != but ==> desc[d].refcnt > 0))
    && (forall b, d, c, e {:trigger d in lists[b], e in lists[c]} | 0 <= b < NR_BUCKETS && 0 <= c < NR_BUCKETS
          && d in lists[b] && e in lists[c] && d != e && d < |desc| && e < |desc| :: desc[d].page != desc[e].page)
    && (forall a | a in live :: exists b, d :: 0 <= b < NR_BUCKETS && d in lists[b] && OnPage(desc, d, a))
  }

  predicate OnPage(desc: seq<Desc>, d: nat, a: nat) {
    d < |desc| && desc[d].page == a - a % PAGE_SIZE
  }

  /** Objects of different pages do not overlap either. */
  lemma PagesApart(base: nat, a: nat)
    requires base % PAGE_SIZE == 0
    ensures base <= a < base + PAGE_SIZE <==> a - a % PAGE_SIZE == base
  {
  }

  // ----- The steps of malloc and free_s -----

  /** A page no step has touched. */
  lemma DescKept(x: Desc, b: nat, f: seq<nat>, mem: seq<int>, mem': seq<int>, live: set<nat>, live': set<nat>)
    requires b < NR_BUCKETS && DescOk(x, b, f, mem, live) && |mem'| == |mem|
    requires forall a: nat | x.page <= a < x.page + PAGE_SIZE :: (a in live' <==> a in live) && (a in f ==> mem'[a] == mem[a])
    ensures DescOk(x, b, f, mem', live')
  {
    assert LiveIn(live', x.page) == LiveIn(live, x.page);
    assert forall i | 0 <= i < |f| :: f[i] in f;
    InPage(x, b, f, mem, live);
    forall i, j | 0 <= i < j < |f| && j == i + 1 ensures mem'[f[i]] == f[j] {
    }
  }

  /** A free object of a page lies on it. */
  lemma InPage(x: Desc, b: nat, f: seq<nat>, mem: seq<int>, live: set<nat>)
    requires b < NR_BUCKETS && DescOk(x, b, f, mem, live)
    ensures (forall a | a in f :: x.page <= a < x.page + PAGE_SIZE) && x.page % PAGE_SIZE == 0 && x.page + PAGE_SIZE <= |mem|
  {
    hide FreeChain;
  }

  lemma LiveGrows(live: set<nat>, base: nat, a: nat)
    requires a !in live && base <= a < base + PAGE_SIZE
    ensures |LiveIn(live + {a}, base)| == |LiveIn(live, base)| + 1
  {
    assert LiveIn(live + {a}, base) == LiveIn(live, base) + {a};
  }

  lemma LiveShrinks(live: set<nat>, base: nat, a: nat)
    requires a in live && base <= a < base + PAGE_SIZE
    ensures |LiveIn(live - {a}, base)| + 1 == |LiveIn(live, base)|
  {
    assert LiveIn(live, base) == LiveIn(live - {a}, base) + {a};
  }

  /** malloc.c:168-170 on one page: its first free object becomes live. */
  lemma TakeOne(x: Desc, b: nat, f: seq<nat>, mem: seq<int>, live: set<nat>)
    requires b < NR_BUCKETS && DescOk(x, b, f, mem, live) && f != []
    ensures 0 < f[0] < |mem| && mem[f[0]] >= 0 && IsSlot(x, f[0]) && f[0] !in live
    ensures DescOk(x.(freeptr := mem[f[0]], refcnt := x.refcnt + 1), b, f[1..], mem, live + {f[0]})
  {
    var a, t := f[0], f[1..];
    var x' := x.(freeptr := if |f| > 1 then f[1] else 0, refcnt := x.refcnt + 1);
    assert a in f;
    assert |f| > 1 ==> mem[f[0]] == f[1];
    LiveGrows(live, x.page, a);
    assert forall c :: c in f <==> c == a || c in t;
    assert a !in t;
    forall c: nat ensures c in t <==> IsSlot(x', c) && c !in live + {a} {
      assert IsSlot(x', c) <==> IsSlot(x, c);
    }
    forall c | c in live + {a} && x.page <= c < x.page + PAGE_SIZE ensures IsSlot(x', c) {
      assert IsSlot(x', c) <==> IsSlot(x, c);
    }
    ChainTail(mem, f);
  }

  lemma ChainTail(mem: seq<int>, f: seq<nat>)
    requires f != [] && FreeChain(mem, f[0], f)
    ensures FreeChain(mem, if |f| > 1 then f[1] else 0, f[1..])
  {
    var t := f[1..];
    forall i, j | 0 <= i < j < |t| && j == i + 1 ensures mem[t[i]] == t[j] {
      assert t[i] == f[i + 1] && t[j] == f[j + 1];
    }
    assert t != [] ==> t[|t| - 1] == f[|f| - 1];
  }

  /** malloc.c:205-207 on one page: a live object becomes the first free one. */
  lemma PutOne(x: Desc, b: nat, f: seq<nat>, mem: seq<int>, live: set<nat>, a: nat)
    requires b < NR_BUCKETS && DescOk(x, b, f, mem, live) && a in live && x.page <= a < x.page + PAGE_SIZE
    ensures 0 < a < |mem| && x.refcnt > 0 && IsSlot(x, a) && a !in f
    ensures DescOk(x.(freeptr := a, refcnt := x.refcnt - 1), b, [a] + f, mem[a := x.freeptr], live - {a})
  {
    LiveShrinks(live, x.page, a);
    var x' := x.(freeptr := a, refcnt := x.refcnt - 1);
    var r, mem' := [a] + f, mem[a := x.freeptr];
    forall c: nat ensures c in r <==> IsSlot(x', c) && c !in live - {a} {
      assert IsSlot(x', c) <==> IsSlot(x, c);
    }
    forall c | c in live - {a} && x.page <= c < x.page + PAGE_SIZE ensures IsSlot(x', c) {
      assert IsSlot(x', c) <==> IsSlot(x, c);
    }
    assert forall i | 0 <= i < |f| :: f[i] in f;
    forall i, j | 0 <= i < j < |r| && j == i + 1 ensures mem'[r[i]] == r[j] {
      if i > 0 {
        assert r[i] == f[i - 1] && r[j] == f[j - 1];
      }
    }
    assert f != [] ==> r[|r| - 1] == f[|f| - 1];
  }

  /** How the objects of a fresh page are laid out (malloc.c:160-164). */
  function Cut(base: nat, size: nat, n: nat): (f: seq<nat>)
    ensures |f| == n && forall i | 0 <= i < n :: f[i] == base + i * size
  {
    seq(n, i requires 0 <= i < n => base + i * size)
  }

  /** A page just cut up, with none of its objects live. */
  lemma CutPage(x: Desc, b: nat, mem: seq<int>, live: set<nat>)
    requires b < NR_BUCKETS && x.size == Size(b) && x.page > 0 && x.page % PAGE_SIZE == 0 && x.page + PAGE_SIZE <= |mem|
    requires x.refcnt == 0 && forall a | a in live :: !(x.page <= a < x.page + PAGE_SIZE)
    requires FreeChain(mem, x.freeptr, Cut(x.page, x.size, PAGE_SIZE / x.size))
    ensures DescOk(x, b, Cut(x.page, x.size, PAGE_SIZE / x.size), mem, live)
  {
    hide FreeChain, Cut;
    forall a: nat ensures a in Cut(x.page, x.size, PAGE_SIZE / x.size) <==> IsSlot(x, a) && a !in live {
      CutIsSlots(x, b, a);
    }
    assert LiveIn(live, x.page) == {};
  }

  lemma CutShape(b: nat, base: nat)
    requires b < NR_BUCKETS
    ensures var s := Size(b); var n := PAGE_SIZE / s; var f := Cut(base, s, n);
      && n > 0 && f[0] == base
      && (forall i, j | 0 <= i < j < n :: f[i] + s <= f[j])
      && (forall i | 0 <= i < n :: base <= f[i] && f[i] + s <= base + PAGE_SIZE)
      && (forall i, j {:trigger f[i], f[j]} | 0 <= i < j < n && j == i + 1 :: f[j] == f[i] + s)
  {
    var s := Size(b);
    var n := PAGE_SIZE / s;
    var f := Cut(base, s, n);
    assert n * s == PAGE_SIZE;
    forall i, j | 0 <= i < j < n ensures f[i] + s <= f[j] && (j == i + 1 ==> f[j] == f[i] + s) {
      Multiples(s, i + 1, j);
      assert s * (i + 1) == i * s + s && s * j == j * s;
    }
    forall i | 0 <= i < n ensures base <= f[i] && f[i] + s <= base + PAGE_SIZE {
      Multiples(s, i + 1, n);
      assert s * (i + 1) == i * s + s && s * n == n * s;
    }
  }

  lemma CutIsSlots(x: Desc, b: nat, a: nat)
    requires b < NR_BUCKETS && x.size == Size(b)
    ensures a in Cut(x.page, x.size, PAGE_SIZE / x.size) <==> IsSlot(x, a)
  {
    var s, n := x.size, PAGE_SIZE / x.size;
    var f := Cut(x.page, s, n);
    assert n * s == PAGE_SIZE;
    if IsSlot(x, a) {
      var i := (a - x.page) / s;
      assert a - x.page == s * i;
      if i >= n {
        Multiples(s, n, i);
      }
      assert f[i] == a;
    }
    if a in f {
      var i :| 0 <= i < n && f[i] == a;
      Multiples(s, i + 1, n);
      assert s * (i + 1) == i * s + s;
      ModOfMultiple(i, b);
    }
  }

  lemma ModOfMultiple(i: nat, b: nat)
    requires b < NR_BUCKETS
    ensures i * Size(b) % Size(b) == 0
  {
    if b == 0 { assert i * 16 % 16 == 0; }
    else if b == 1 { assert i * 32 % 32 == 0; }
    else if b == 2 { assert i * 64 % 64 == 0; }
    else if b == 3 { assert i * 128 % 128 == 0; }
    else if b == 4 { assert i * 256 % 256 == 0; }
    else if b == 5 { assert i * 512 % 512 == 0; }
    else if b == 6 { assert i * 1024 % 1024 == 0; }
    else if b == 7 { assert i * 2048 % 2048 == 0; }
    else { assert i * 4096 % 4096 == 0; }
  }

  // ----- The same steps on the whole allocator -----

  ghost predicate OnChain(lists: seq<seq<nat>>, b: nat, d: nat) {
    b < NR_BUCKETS && |lists| == NR_BUCKETS + 1 && d in lists[b]
  }

  lemma TakeStep(desc: seq<Desc>, lists: seq<seq<nat>>, frees: seq<seq<nat>>, mem: seq<int>, live: set<nat>, b: nat, d: nat)
    requires Pages(desc, lists, frees, mem, live, d) && OnChain(lists, b, d) && d < |desc| && d < |frees| && desc[d].freeptr != 0
    requires forall c | 0 <= c < NR_BUCKETS && d in lists[c] :: c == b
    ensures frees[d] != [] && frees[d][0] == desc[d].freeptr && 0 < desc[d].freeptr < |mem| && mem[desc[d].freeptr] >= 0
    ensures desc[d].size == Size(b) && IsSlot(desc[d], desc[d].freeptr) && desc[d].freeptr !in live
    ensures var a := desc[d].freeptr;
      Pages(desc[d := desc[d].(freeptr := mem[a], refcnt := desc[d].refcnt + 1)], lists, frees[d := frees[d][1..]], mem, live + {a}, NIL)
  {
    hide FreeChain;
    var x, f, a := desc[d], frees[d], desc[d].freeptr;
    assert DescOk(x, b, f, mem, live);
    FirstFree(mem, x.freeptr, f);
    hide DescOk;
    TakeOne(x, b, f, mem, live);
    var desc' := desc[d := x.(freeptr := mem[a], refcnt := x.refcnt + 1)];
    OnOwnPage(desc, d, a);
    OneChanges(desc, desc', lists, frees, frees[d := f[1..]], mem, mem, live, live + {a}, d, d, NIL);
  }

  lemma PutStep(desc: seq<Desc>, lists: seq<seq<nat>>, frees: seq<seq<nat>>, mem: seq<int>, live: set<nat>, b: nat, d: nat, a: nat)
    requires Pages(desc, lists, frees, mem, live, NIL) && OnChain(lists, b, d) && a in live && OnPage(desc, d, a)
    requires forall c | 0 <= c < NR_BUCKETS && d in lists[c] :: c == b
    ensures 0 < a < |mem| && d < |frees| && desc[d].refcnt > 0
    ensures Pages(desc[d := desc[d].(freeptr := a, refcnt := desc[d].refcnt - 1)], lists, frees[d := [a] + frees[d]],
                  mem[a := desc[d].freeptr], live - {a}, d)
  {
    hide FreeChain, LiveIn;
    var x, f := desc[d], frees[d];
    assert DescOk(x, b, f, mem, live);
    PagesApart(x.page, a);
    hide DescOk;
    PutOne(x, b, f, mem, live, a);
    var desc' := desc[d := x.(freeptr := a, refcnt := x.refcnt - 1)];
    OneChanges(desc, desc', lists, frees, frees[d := [a] + f], mem, mem[a := x.freeptr], live, live - {a}, d, NIL, d);
  }

  lemma FirstFree(mem: seq<int>, ptr: nat, f: seq<nat>)
    requires FreeChain(mem, ptr, f)
    ensures ptr == 0 <==> f == []
    ensures f != [] ==> ptr == f[0]
  {
  }

  lemma OnOwnPage(desc: seq<Desc>, d: nat, a: nat)
    requires d < |desc| && desc[d].size > 0 && desc[d].page % PAGE_SIZE == 0 && IsSlot(desc[d], a)
    ensures OnPage(desc, d, a)
  {
    PagesApart(desc[d].page, a);
  }

  /** A step on the page of d alone. */
  lemma OneChanges(desc: seq<Desc>, desc': seq<Desc>, lists: seq<seq<nat>>, frees: seq<seq<nat>>, frees': seq<seq<nat>>,
                   mem: seq<int>, mem': seq<int>, live: set<nat>, live': set<nat>, d: nat, but: int, but': int)
    requires Pages(desc, lists, frees, mem, live, but) && d < |desc| && (but == d || but == NIL)
    requires |desc'| == |desc| && desc' == desc[d := desc'[d]] && desc'[d].page == desc[d].page
    requires |frees'| == |frees| && (forall e | 0 <= e < |frees| && e != d :: frees'[e] == frees[e]) && |mem'| == |mem|
    requires desc[d].page % PAGE_SIZE == 0
    requires forall a: nat | !(desc[d].page <= a < desc[d].page + PAGE_SIZE) :: (a in live' <==> a in live) && (a < |mem| ==> mem'[a] == mem[a])
    requires forall b | 0 <= b < NR_BUCKETS && d in lists[b] :: DescOk(desc'[d], b, frees'[d], mem', live') && (d != but' ==> desc'[d].refcnt > 0)
    requires exists b: nat :: OnChain(lists, b, d)
    ensures Pages(desc', lists, frees', mem', live', but')
  {
    hide DescOk, IsSlot;
    forall b, e | 0 <= b < NR_BUCKETS && e in lists[b]
      ensures e < |desc| && DescOk(desc'[e], b, frees'[e], mem', live') && (e != but' ==> desc'[e].refcnt > 0)
    {
      if e != d {
        var c: nat :| OnChain(lists, c, d);
        assert d in lists[c] && desc[e].page != desc[d].page;
        InPage(desc[e], b, frees[e], mem, live);
        Disjoint(desc[e].page, desc[d].page);
        DescKept(desc[e], b, frees[e], mem, mem', live, live');
      }
    }
    forall a | a in live' ensures exists b, e :: 0 <= b < NR_BUCKETS && e in lists[b] && OnPage(desc', e, a) {
      if a in live {
        var b, e :| 0 <= b < NR_BUCKETS && e in lists[b] && OnPage(desc, e, a);
        assert OnPage(desc', e, a);
      } else {
        var b: nat :| OnChain(lists, b, d);
        PagesApart(desc[d].page, a);
        assert OnPage(desc', d, a);
      }
    }
  }

  lemma Disjoint(p: nat, q: nat)
    requires p % PAGE_SIZE == 0 == q % PAGE_SIZE && p != q
    ensures p + PAGE_SIZE <= q || q + PAGE_SIZE <= p
  {
  }

  /** A spare descriptor takes a fresh page and heads the chain of bucket b (malloc.c:152-166). */
  lemma FreshStep(desc: seq<Desc>, desc': seq<Desc>, lists: seq<seq<nat>>, lists': seq<seq<nat>>, frees: seq<seq<nat>>,
                  mem: seq<int>, mem': seq<int>, live: set<nat>, b: nat, d: nat)
    requires Pages(desc, lists, frees, mem, live, NIL) && b < NR_BUCKETS && d < |desc|
    requires |desc'| == |desc| && desc' == desc[d := desc'[d]] && desc'[d].refcnt == 0
    requires |lists'| == |lists| && lists'[b] == [d] + lists[b] && forall c | 0 <= c < NR_BUCKETS && c != b :: lists'[c] == lists[c]
    requires forall c | 0 <= c < NR_BUCKETS :: d !in lists[c]
    requires NewPage(desc, lists, desc'[d].page) && |mem'| == |mem|
    requires forall a | 0 <= a < |mem| && !(desc'[d].page <= a < desc'[d].page + PAGE_SIZE) :: mem'[a] == mem[a]
    requires DescOk(desc'[d], b, Cut(desc'[d].page, Size(b), PAGE_SIZE / Size(b)), mem', live)
    ensures Pages(desc', lists', frees[d := Cut(desc'[d].page, Size(b), PAGE_SIZE / Size(b))], mem', live, d)
  {
    hide DescOk, Cut;
    var frees' := frees[d := Cut(desc'[d].page, Size(b), PAGE_SIZE / Size(b))];
    InPage(desc'[d], b, frees'[d], mem', live);
    assert forall c, e | 0 <= c < NR_BUCKETS && e in lists'[c] :: e in lists[c] || (e == d && c == b);
    forall c, e | 0 <= c < NR_BUCKETS && e in lists'[c]
      ensures e < |desc| && DescOk(desc'[e], c, frees'[e], mem', live) && (e != d ==> desc'[e].refcnt > 0)
    {
      if e != d {
        assert e in lists[c];
        InPage(desc[e], c, frees[e], mem, live);
        Disjoint(desc[e].page, desc'[d].page);
        DescKept(desc[e], c, frees[e], mem, mem', live, live);
      }
    }
    forall a | a in live ensures exists c, e :: 0 <= c < NR_BUCKETS && e in lists'[c] && OnPage(desc', e, a) {
      var c, e :| 0 <= c < NR_BUCKETS && e in lists[c] && OnPage(desc, e, a);
      assert e in lists'[c] && OnPage(desc', e, a);
    }
  }

  /** No bucket page is at base. */
  ghost predicate NewPage(desc: seq<Desc>, lists: seq<seq<nat>>, base: nat) {
    |lists| == NR_BUCKETS + 1 && forall b, d {:trigger d in lists[b]} | 0 <= b < NR_BUCKETS && d in lists[b] && d < |desc| :: desc[d].page != base
  }

  /** No live object lies on such a page. */
  lemma NewPageIsDead(desc: seq<Desc>, lists: seq<seq<nat>>, frees: seq<seq<nat>>, mem: seq<int>, live: set<nat>, but: int, base: nat)
    requires Pages(desc, lists, frees, mem, live, but) && NewPage(desc, lists, base) && base % PAGE_SIZE == 0
    ensures forall a | a in live :: !(base <= a < base + PAGE_SIZE)
  {
    hide DescOk;
    forall a | a in live ensures !(base <= a < base + PAGE_SIZE) {
      var b, d :| 0 <= b < NR_BUCKETS && d in lists[b] && OnPage(desc, d, a);
      PagesApart(base, a);
    }
  }

  /** The page whose last object was freed goes back, and its descriptor leaves the chain (malloc.c:218-227). */
  lemma DropStep(desc: seq<Desc>, desc': seq<Desc>, lists: seq<seq<nat>>, lists': seq<seq<nat>>, frees: seq<seq<nat>>,
                 mem: seq<int>, live: set<nat>, b: nat, d: nat)
    requires Pages(desc, lists, frees, mem, live, d) && OnChain(lists, b, d) && d < |desc| && desc[d].refcnt == 0
    requires forall c | 0 <= c < NR_BUCKETS && c != b :: d !in lists[c]
    requires |desc'| == |desc| && forall e | 0 <= e < |desc| :: desc'[e] == desc[e].(next := desc'[e].next)
    requires |lists'| == |lists| && (forall e :: e in lists'[b] <==> e in lists[b] && e != d)
    requires forall c | 0 <= c < NR_BUCKETS && c != b :: lists'[c] == lists[c]
    ensures Pages(desc', lists', frees, mem, live, NIL) && NewPage(desc', lists', desc[d].page)
  {
    hide DescOk;
    assert forall c, e | 0 <= c < NR_BUCKETS && e in lists'[c] :: e in lists[c] && e != d;
    NoneLive(desc[d], b, frees[d], mem, live);
    forall c, e | 0 <= c < NR_BUCKETS && e in lists'[c]
      ensures e < |desc| && DescOk(desc'[e], c, frees[e], mem, live) && desc'[e].refcnt > 0
    {
      NextDoesNotMatter(desc[e], desc'[e], c, frees[e], mem, live);
    }
    forall a | a in live ensures exists c, e :: 0 <= c < NR_BUCKETS && e in lists'[c] && OnPage(desc', e, a) {
      var c, e :| 0 <= c < NR_BUCKETS && e in lists[c] && OnPage(desc, e, a);
      PagesApart(desc[d].page, a);
      assert e in lists'[c] && OnPage(desc', e, a);
    }
  }

  lemma NoneLive(x: Desc, b: nat, f: seq<nat>, mem: seq<int>, live: set<nat>)
    requires b < NR_BUCKETS && DescOk(x, b, f, mem, live) && x.refcnt == 0
    ensures x.page % PAGE_SIZE == 0 && forall a | a in live :: !(x.page <= a < x.page + PAGE_SIZE)
  {
    hide FreeChain;
    forall a | a in live ensures !(x.page <= a < x.page + PAGE_SIZE) {
      assert a in LiveIn(live, x.page) <==> x.page <= a < x.page + PAGE_SIZE;
    }
  }

  /** No free object of a page begins within a live one. */
  lemma NotFreeWithin(x: Desc, b: nat, f: seq<nat>, mem: seq<int>, live: set<nat>, a: nat, w: nat)
    requires b < NR_BUCKETS && DescOk(x, b, f, mem, live) && a in live && x.page == a - a % PAGE_SIZE && a <= w < a + x.size
    ensures w !in f && x.page <= w < x.page + PAGE_SIZE
  {
    hide FreeChain, LiveIn;
    PagesApart(x.page, a);
    SlotFits(x, a);
    if w in f && w > a {
      SlotsApart(x, a, w);
    }
  }

  lemma NextDoesNotMatter(x: Desc, y: Desc, b: nat, f: seq<nat>, mem: seq<int>, live: set<nat>)
    requires b < NR_BUCKETS && DescOk(x, b, f, mem, live) && y == x.(next := y.next)
    ensures DescOk(y, b, f, mem, live)
  {
    forall a: nat ensures a in f <==> IsSlot(y, a) && a !in live {
      assert IsSlot(y, a) <==> IsSlot(x, a);
    }
    forall a | a in live && y.page <= a < y.page + PAGE_SIZE ensures IsSlot(y, a) {
      assert IsSlot(y, a) <==> IsSlot(x, a);
    }
  }

  /** More spare descriptors: nothing that is in use changes. */
  lemma MoreStep(desc: seq<Desc>, desc': seq<Desc>, lists: seq<seq<nat>>, lists': seq<seq<nat>>, frees: seq<seq<nat>>, frees': seq<seq<nat>>,
                 mem: seq<int>, live: set<nat>)
    requires Pages(desc, lists, frees, mem, live, NIL) && |desc'| >= |desc| && (forall d | 0 <= d < |desc| :: desc'[d] == desc[d])
    requires |lists'| == |lists| && (forall b | 0 <= b < NR_BUCKETS :: lists'[b] == lists[b])
    requires |frees'| == |desc'| && forall d | 0 <= d < |desc| :: frees'[d] == frees[d]
    ensures Pages(desc', lists', frees', mem, live, NIL)
  {
    hide DescOk;
    forall a | a in live ensures exists c, e :: 0 <= c < NR_BUCKETS && e in lists'[c] && OnPage(desc', e, a) {
      var c, e :| 0 <= c < NR_BUCKETS && e in lists[c] && OnPage(desc, e, a);
      assert e in lists'[c] && OnPage(desc', e, a);
    }
  }

  /** Address w is within a live object. */
  ghost predicate WithinLive(desc: seq<Desc>, lists: seq<seq<nat>>, live: set<nat>, a: nat, w: nat) {
    a in live && exists b: nat, d: nat :: OnChain(lists, b, d) && OnPage(desc, d, a) && a <= w < a + desc[d].size
  }

  /** The user of an object may write anything into it. */
  lemma UserStep(desc: seq<Desc>, lists: seq<seq<nat>>, frees: seq<seq<nat>>, mem: seq<int>, mem': seq<int>, live: set<nat>, a: nat, w: nat, but: int)
    requires Pages(desc, lists, frees, mem, live, but) && WithinLive(desc, lists, live, a, w)
    requires |mem'| == |mem| && forall k | 0 <= k < |mem| && k != w :: mem'[k] == mem[k]
    ensures Pages(desc, lists, frees, mem', live, but)
  {
    hide DescOk;
    var b: nat, d: nat :| OnChain(lists, b, d) && OnPage(desc, d, a) && a <= w < a + desc[d].size;
    NotFreeWithin(desc[d], b, frees[d], mem, live, a, w);
    InPage(desc[d], b, frees[d], mem, live);
    forall c, e | 0 <= c < NR_BUCKETS && e in lists[c] ensures DescOk(desc[e], c, frees[e], mem', live) {
      InPage(desc[e], c, frees[e], mem, live);
      if e == d {
        NotFreeWithin(desc[d], c, frees[d], mem, live, a, w);
      } else {
        Disjoint(desc[e].page, desc[d].page);
      }
      DescKept(desc[e], c, frees[e], mem, mem', live, live);
    }
  }

  /** Object a takes s bytes. */
  ghost predicate Occupies(desc: seq<Desc>, lists: seq<seq<nat>>, a: nat, s: nat) {
    exists b: nat, d: nat :: OnChain(lists, b, d) && OnPage(desc, d, a) && desc[d].size == s
  }

  /** No two live objects overlap. */
  lemma LiveObjectsApart(desc: seq<Desc>, lists: seq<seq<nat>>, frees: seq<seq<nat>>, mem: seq<int>, live: set<nat>, but: int,
                         a: nat, s: nat, c: nat, t: nat)
    requires Pages(desc, lists, frees, mem, live, but) && a in live && c in live && a != c
    requires Occupies(desc, lists, a, s) && Occupies(desc, lists, c, t)
    ensures a + s <= c || c + t <= a
  {
    hide DescOk;
    var b: nat, d: nat :| OnChain(lists, b, d) && OnPage(desc, d, a) && desc[d].size == s;
    var b': nat, d': nat :| OnChain(lists, b', d') && OnPage(desc, d', c) && desc[d'].size == t;
    assert d in lists[b] && d' in lists[b'];
    LiveIsSlot(desc[d], b, frees[d], mem, live, a);
    LiveIsSlot(desc[d'], b', frees[d'], mem, live, c);
    SlotFits(desc[d], a);
    SlotFits(desc[d'], c);
    if d == d' {
      if a < c {
        SlotsApart(desc[d], a, c);
      } else {
        SlotsApart(desc[d], c, a);
      }
    } else {
      Disjoint(desc[d].page, desc[d'].page);
    }
  }

  lemma LiveIsSlot(x: Desc, b: nat, f: seq<nat>, mem: seq<int>, live: set<nat>, a: nat)
    requires b < NR_BUCKETS && DescOk(x, b, f, mem, live) && a in live && x.page == a - a % PAGE_SIZE
    ensures x.size == Size(b) && x.page % PAGE_SIZE == 0 && IsSlot(x, a)
  {
    PagesApart(x.page, a);
  }

  /** Every live object takes the size of some bucket. */
  lemma LiveOccupies(desc: seq<Desc>, lists: seq<seq<nat>>, frees: seq<seq<nat>>, mem: seq<int>, live: set<nat>, but: int, a: nat)
    returns (b: nat, d: nat)
    requires Pages(desc, lists, frees, mem, live, but) && a in live
    ensures OnChain(lists, b, d) && OnPage(desc, d, a) && desc[d].size == Size(b) && Occupies(desc, lists, a, Size(b))
  {
    hide FreeChain;
    b, d :| 0 <= b < NR_BUCKETS && d in lists[b] && OnPage(desc, d, a);
    assert DescOk(desc[d], b, frees[d], mem, live);
  }

  /** A page has one descriptor, and that one chain: where the search of free_s ends does not depend on where it begins. */
  lemma OneDescPerPage(desc: seq<Desc>, heads: seq<int>, lists: seq<seq<nat>>, frees: seq<seq<nat>>, mem: seq<int>, live: set<nat>, but: int,
                       a: nat, b: nat, d: nat, c: nat, e: nat)
    requires Lists(desc, heads, lists) && Pages(desc, lists, frees, mem, live, but)
    requires OnChain(lists, b, d) && OnPage(desc, d, a) && OnChain(lists, c, e) && OnPage(desc, e, a)
    ensures d == e && b == c
  {
    assert d in lists[b] && e in lists[c];
  }
}
