/**
  The elevator order of linux-0.11/kernel/blk_drv/ll_rw_blk.c as a function on queues: where
  add_request puts a request, the two-run shape it keeps, and why no request waits for ever.
*/
module Elevator {
  import opened Sets

  /** The three keys of IN_ORDER (blk.h:40-45); READ is 0 and WRITE is 1. */
  datatype Key = Key(cmd: nat, dev: nat, sector: nat)

  predicate InOrder(a: Key, b: Key) {
    a.cmd < b.cmd || (a.cmd == b.cmd && (a.dev < b.dev || (a.dev == b.dev && a.sector < b.sector)))
  }

  // ----- Insertion -----

  /** The loop test of add_request at position p (ll_rw_blk.c:86-87). */
  predicate StopsAt(q: seq<Key>, r: Key, p: nat)
    requires p + 1 < |q|
  {
    (InOrder(q[p], r) || !InOrder(q[p], q[p + 1])) && InOrder(r, q[p + 1])
  }

  /** Where the loop stops when started at p: the request goes right behind this position. */
  function StopFrom(q: seq<Key>, r: Key, p: nat): (s: nat)
    requires p < |q|
    ensures p <= s < |q|
    ensures s + 1 < |q| ==> StopsAt(q, r, s)
    ensures forall j | p <= j < s :: !StopsAt(q, r, j)
    decreases |q| - p
  {
    if p + 1 == |q| || StopsAt(q, r, p) then p else StopFrom(q, r, p + 1)
  }

  lemma StopFromNext(q: seq<Key>, r: Key, p: nat)
    requires p + 1 < |q| && !StopsAt(q, r, p)
    ensures StopFrom(q, r, p) == StopFrom(q, r, p + 1)
  {
  }

  lemma StopFromHere(q: seq<Key>, r: Key, p: nat)
    requires p < |q| && (p + 1 < |q| ==> StopsAt(q, r, p))
    ensures StopFrom(q, r, p) == p
  {
  }

  function Insert(q: seq<Key>, r: Key): seq<Key> {
    if q == [] then [r] else var s := StopFrom(q, r, 0); q[..s + 1] + [r] + q[s + 1..]
  }

  // ----- Shape -----

  ghost predicate Ascending(q: seq<Key>) {
    forall i, j | 0 <= i < j < |q| :: InOrder(q[i], q[j])
  }

  /** Length of the longest ascending prefix: the sweep the disk head is on. */
  function Sweep(q: seq<Key>): (n: nat)
    ensures n <= |q| && (q != [] ==> n >= 1)
  {
    if |q| <= 1 then |q| else if InOrder(q[0], q[1]) then 1 + Sweep(q[1..]) else 1
  }

  function First(q: seq<Key>): seq<Key> {
    q[..Sweep(q)]
  }

  function Second(q: seq<Key>): seq<Key> {
    q[Sweep(q)..]
  }

  /** At most two strictly ascending runs. */
  ghost predicate TwoRuns(q: seq<Key>) {
    Ascending(Second(q))
  }

  lemma {:induction false} SweepIsMaximal(q: seq<Key>)
    ensures Ascending(First(q))
    ensures Sweep(q) < |q| ==> Sweep(q) >= 1 && !InOrder(q[Sweep(q) - 1], q[Sweep(q)])
  {
    if |q| > 1 && InOrder(q[0], q[1]) {
      SweepIsMaximal(q[1..]);
      var t := First(q[1..]);
      assert First(q) == [q[0]] + t;
      assert t[0] == q[1];
    }
  }

  /**
    Within a run no write goes before a read, and requests of one kind for one device go by rising
    sector, so the head moves one way only.
  */
  lemma RunsGoUp(q: seq<Key>, i: nat, j: nat)
    requires TwoRuns(q) && i < j < |q| && (j < Sweep(q) || Sweep(q) <= i)
    ensures q[j].cmd == 0 ==> q[i].cmd == 0
    ensures q[i].cmd == q[j].cmd ==> q[i].dev <= q[j].dev
    ensures q[i].cmd == q[j].cmd && q[i].dev == q[j].dev ==> q[i].sector < q[j].sector
  {
    hide Ascending, Sweep;
    SweepIsMaximal(q);
    var n := Sweep(q);
    if j < n {
      AscendingAt(First(q), i, j);
    } else {
      AscendingAt(Second(q), i - n, j - n);
    }
  }

  lemma AscendingAt(q: seq<Key>, i: nat, j: nat)
    requires Ascending(q) && i < j < |q|
    ensures InOrder(q[i], q[j])
  {
  }

  /** The sweep is determined by being ascending and followed by a descent. */
  lemma {:induction false} SweepUnique(a: seq<Key>, b: seq<Key>)
    requires a != [] && Ascending(a) && (b != [] ==> !InOrder(a[|a| - 1], b[0]))
    ensures Sweep(a + b) == |a|
  {
    var q := a + b;
    if |a| > 1 {
      assert InOrder(q[0], q[1]);
      assert q[1..] == a[1..] + b;
      SweepUnique(a[1..], b);
    }
  }

  // ----- The simple form: two sorted lists -----

  function SortedInsert(q: seq<Key>, r: Key): seq<Key> {
    if q == [] || InOrder(r, q[0]) then [r] + q else [q[0]] + SortedInsert(q[1..], r)
  }

  lemma {:induction false} SortedInsertMembers(q: seq<Key>, r: Key)
    ensures multiset(SortedInsert(q, r)) == multiset(q) + multiset{r}
    ensures |SortedInsert(q, r)| == |q| + 1
    ensures forall k {:trigger k in SortedInsert(q, r)} :: k in SortedInsert(q, r) <==> k in q || k == r
  {
    hide InOrder;
    var t := SortedInsert(q, r);
    if q != [] && t != [r] + q {
      SortedInsertMembers(q[1..], r);
      assert q == [q[0]] + q[1..];
    }
    assert forall k {:trigger k in t} :: k in t <==> k in multiset(t);
  }

  lemma AscendingCons(x: Key, t: seq<Key>)
    requires Ascending(t) && forall k | k in t :: InOrder(x, k)
    ensures Ascending([x] + t)
  {
    hide InOrder;
    var q := [x] + t;
    forall i, j | 0 <= i < j < |q| ensures InOrder(q[i], q[j]) {
      assert q[j] == t[j - 1] && t[j - 1] in t;
      assert i > 0 ==> q[i] == t[i - 1];
    }
  }

  lemma AscendingHead(q: seq<Key>)
    requires Ascending(q) && q != []
    ensures Ascending(q[1..]) && forall k | k in q[1..] :: InOrder(q[0], k)
  {
    hide InOrder;
    assert forall j | 0 <= j < |q| - 1 :: q[1..][j] == q[j + 1];
  }

  lemma {:induction false} SortedInsertAscends(q: seq<Key>, r: Key)
    requires Ascending(q) && r !in q
    ensures Ascending(SortedInsert(q, r))
  {
    if q != [] {
      AscendingHead(q);
      if InOrder(r, q[0]) {
        forall k | k in q ensures InOrder(r, k) {
          assert k == q[0] || k in q[1..];
        }
        AscendingCons(r, q);
      } else {
        SortedInsertAscends(q[1..], r);
        SortedInsertMembers(q[1..], r);
        assert InOrder(q[0], r);
        AscendingCons(q[0], SortedInsert(q[1..], r));
      }
    }
  }

  lemma {:induction false} SortedInsertAt(q: seq<Key>, r: Key, p: nat)
    requires Ascending(q) && p <= |q|
    requires forall j | 0 <= j < p :: InOrder(q[j], r)
    requires p < |q| ==> InOrder(r, q[p])
    ensures SortedInsert(q, r) == q[..p] + [r] + q[p..]
  {
    if p > 0 {
      SortedInsertAt(q[1..], r, p - 1);
    }
  }

  /** The request joins the current sweep when it lies ahead of the head and either the sweep goes past it or nothing waits behind the sweep. */
  predicate JoinsSweep(q: seq<Key>, r: Key) {
    q != [] && InOrder(q[0], r) && (Second(q) == [] || InOrder(r, First(q)[Sweep(q) - 1]))
  }

  /**
    add_request's one scan over the list equals sorted insertion into one of the two runs.  The order
    of the rest is untouched and the request in service stays in front.
  */
  lemma InsertIsSortedInsert(q: seq<Key>, r: Key)
    requires TwoRuns(q) && r !in q && q != []
    ensures Insert(q, r) ==
      if JoinsSweep(q, r) then SortedInsert(First(q), r) + Second(q) else First(q) + SortedInsert(Second(q), r)
    ensures Insert(q, r)[0] == q[0]
  {
    if JoinsSweep(q, r) {
      InsertInSweep(q, r);
    } else {
      InsertBehindSweep(q, r);
    }
  }

  lemma Halves(q: seq<Key>)
    ensures q == First(q) + Second(q) && |First(q)| == Sweep(q)
    ensures forall j | 0 <= j < Sweep(q) :: First(q)[j] == q[j]
    ensures forall j | Sweep(q) <= j < |q| :: q[j] == Second(q)[j - Sweep(q)]
  {
    hide Sweep;
  }

  lemma InsertInSweep(q: seq<Key>, r: Key)
    requires TwoRuns(q) && r !in q && q != [] && JoinsSweep(q, r)
    ensures Insert(q, r) == SortedInsert(First(q), r) + Second(q)
  {
    hide StopFrom, Sweep, InOrder, Ascending, JoinsSweep, SortedInsert, First, Second;
    SweepIsMaximal(q);
    StopInSweep(q, r);
    Halves(q);
    var s := StopFrom(q, r, 0);
    SortedInsertAt(First(q), r, s + 1);
    SpliceFirst(First(q), Second(q), r, s + 1);
  }

  lemma InsertBehindSweep(q: seq<Key>, r: Key)
    requires TwoRuns(q) && r !in q && q != [] && !JoinsSweep(q, r)
    ensures Insert(q, r) == First(q) + SortedInsert(Second(q), r)
  {
    hide StopFrom, Sweep, InOrder, Ascending, JoinsSweep, SortedInsert, First, Second;
    StopBehindSweep(q, r);
    Halves(q);
    var s, n, b := StopFrom(q, r, 0), Sweep(q), Second(q);
    forall j | 0 <= j < s + 1 - n ensures InOrder(b[j], r) {
      assert q[n + j] == b[n + j - n];
    }
    assert s + 1 < |q| ==> q[s + 1] == b[s + 1 - n];
    SortedInsertAt(b, r, s + 1 - n);
    SpliceSecond(First(q), Second(q), r, s + 1 - n);
  }

  lemma SpliceFirst<T>(a: seq<T>, b: seq<T>, r: T, p: nat)
    requires p <= |a|
    ensures (a + b)[..p] + [r] + (a + b)[p..] == (a[..p] + [r] + a[p..]) + b
  {
  }

  lemma SpliceSecond<T>(a: seq<T>, b: seq<T>, r: T, p: nat)
    requires p <= |b|
    ensures (a + b)[..|a| + p] + [r] + (a + b)[|a| + p..] == a + (b[..p] + [r] + b[p..])
  {
  }

  lemma StopInSweep(q: seq<Key>, r: Key)
    requires TwoRuns(q) && r !in q && JoinsSweep(q, r)
    ensures var s := StopFrom(q, r, 0);
      && s < Sweep(q) && (forall j | 0 <= j <= s :: InOrder(q[j], r)) && (s + 1 < Sweep(q) ==> InOrder(r, q[s + 1]))
  {
    SweepIsMaximal(q);
    var s, n := StopFrom(q, r, 0), Sweep(q);
    assert First(q)[n - 1] == q[n - 1];
    var p := BelowUpTo(First(q), r, n);
    assert forall j | 0 <= j < p :: First(q)[j] == q[j];
    if p < n {
      assert First(q)[p] == q[p];
      assert StopsAt(q, r, p - 1);
    } else {
      assert First(q)[n - 1] == q[n - 1];
    }
  }

  /** The number of leading elements below r in an ascending list. */
  lemma BelowUpTo(a: seq<Key>, r: Key, n: nat) returns (p: nat)
    requires Ascending(a) && n == |a| && r !in a
    ensures p <= n && (forall j | 0 <= j < p :: InOrder(a[j], r)) && (forall j | p <= j < n :: InOrder(r, a[j]))
  {
    p := 0;
    while p < n && InOrder(a[p], r)
      invariant p <= n && forall j | 0 <= j < p :: InOrder(a[j], r)
    {
      p := p + 1;
    }
    forall j | p <= j < n ensures InOrder(r, a[j]) {
      assert InOrder(r, a[p]);
    }
  }

  lemma StopBehindSweep(q: seq<Key>, r: Key)
    requires TwoRuns(q) && r !in q && q != [] && !JoinsSweep(q, r)
    ensures var s, n := StopFrom(q, r, 0), Sweep(q);
      && n - 1 <= s && (forall j | n <= j <= s :: InOrder(q[j], r)) && (s + 1 < |q| ==> InOrder(r, q[s + 1]))
  {
    SweepIsMaximal(q);
    var s, n := StopFrom(q, r, 0), Sweep(q);
    var a, b := First(q), Second(q);
    forall j | 0 <= j < n ensures a[j] == q[j] {
    }
    forall j | n <= j < |q| ensures b[j - n] == q[j] {
    }
    forall j | 0 <= j < n - 1 ensures !StopsAt(q, r, j) {
      assert InOrder(a[j], a[j + 1]);
      assert InOrder(a[j + 1], a[n - 1]) || j + 1 == n - 1;
      assert j == 0 || InOrder(a[0], a[j]);
    }
    if s >= n {
      StopInWaitingRun(q, r);
    }
  }

  lemma StopInWaitingRun(q: seq<Key>, r: Key)
    requires TwoRuns(q) && r !in q && q != [] && StopFrom(q, r, 0) >= Sweep(q)
    requires Sweep(q) < |q| ==> !InOrder(q[Sweep(q) - 1], q[Sweep(q)])
    ensures var s, n := StopFrom(q, r, 0), Sweep(q);
      && (forall j | n <= j <= s :: InOrder(q[j], r)) && (s + 1 < |q| ==> InOrder(r, q[s + 1]))
  {
    hide InOrder, Sweep, First, Second, StopFrom, Ascending, TwoRuns;
    Halves(q);
    SecondAscends(q);
    var s, n, b := StopFrom(q, r, 0), Sweep(q), Second(q);
    var p := BelowUpTo(b, r, |b|);
    assert StopsAt(q, r, n - 1) == InOrder(r, q[n]);
    if 0 < p < |b| {
      assert InOrder(b[p - 1], r) && InOrder(r, b[p]);
      assert StopsAt(q, r, n + p - 1);
    }
  }

  // ----- The shape is kept -----

  /** Insertion extends one run and leaves the other, and the split between them, alone. */
  lemma InsertKeepsRuns(q: seq<Key>, r: Key)
    requires TwoRuns(q) && r !in q && q != []
    ensures var q' := Insert(q, r);
      && TwoRuns(q')
      && First(q') == (if JoinsSweep(q, r) then SortedInsert(First(q), r) else First(q))
      && Second(q') == (if JoinsSweep(q, r) then Second(q) else SortedInsert(Second(q), r))
  {
    InsertIsSortedInsert(q, r);
    SweepIsMaximal(q);
    var a, b, n := First(q), Second(q), Sweep(q);
    assert forall j | 0 <= j < n :: a[j] == q[j];
    assert forall j | 0 <= j < |b| :: b[j] == q[n + j];
    if JoinsSweep(q, r) {
      SortedInsertAscends(a, r);
      SortedInsertMembers(a, r);
      if b != [] {
        SortedInsertLast(a, r);
      }
      RunsOf(SortedInsert(a, r), b);
    } else {
      SortedInsertAscends(b, r);
      assert a[0] == a[n - 1] || InOrder(a[0], a[n - 1]);
      RunsOf(a, SortedInsert(b, r));
    }
  }

  lemma {:induction false} SortedInsertLast(a: seq<Key>, r: Key)
    requires a != [] && InOrder(r, a[|a| - 1])
    ensures SortedInsert(a, r) != [] && SortedInsert(a, r)[|SortedInsert(a, r)| - 1] == a[|a| - 1]
  {
    if !InOrder(r, a[0]) {
      SortedInsertLast(a[1..], r);
    }
  }

  lemma RunsOf(a: seq<Key>, b: seq<Key>)
    requires a != [] && Ascending(a) && Ascending(b) && (b != [] ==> !InOrder(a[|a| - 1], b[0]))
    ensures TwoRuns(a + b) && First(a + b) == a && Second(a + b) == b
  {
    SweepUnique(a, b);
  }

  lemma AscendingTail(a: seq<Key>)
    requires Ascending(a) && a != []
    ensures Ascending(a[1..]) && (|a| > 1 ==> InOrder(a[0], a[1]))
  {
  }

  /** Completing the request in service: the sweep gets shorter, or the waiting run becomes the sweep. */
  lemma CompleteKeepsRuns(q: seq<Key>)
    requires TwoRuns(q) && q != []
    ensures TwoRuns(q[1..])
    ensures Sweep(q) >= 2 ==> First(q[1..]) == First(q)[1..] && Second(q[1..]) == Second(q)
    ensures Sweep(q) == 1 ==> First(q[1..]) == Second(q) && Second(q[1..]) == []
  {
    hide InOrder, Sweep, Ascending, First, Second;
    SweepIsMaximal(q);
    Halves(q);
    SecondAscends(q);
    var a, b, n := First(q), Second(q), Sweep(q);
    AscendingTail(a);
    if n >= 2 {
      assert q[1..] == a[1..] + b;
      assert a[1..][n - 2] == q[n - 1];
      RunsOf(a[1..], b);
    } else {
      assert q[1..] == b;
      if b != [] {
        assert b + [] == b;
        NothingAscends();
        RunsOf(b, []);
      } else {
        EmptyQueue();
      }
    }
  }

  lemma SecondAscends(q: seq<Key>)
    requires TwoRuns(q)
    ensures Ascending(Second(q))
  {
  }

  lemma NothingAscends()
    ensures Ascending([])
  {
  }

  lemma EmptyQueue()
    ensures TwoRuns([]) && First([]) == [] && Second([]) == []
  {
  }

  // ----- Nothing waits for ever -----

  /** Number of keys of the universe u that come before k. */
  ghost function Rank(u: set<Key>, k: Key): nat {
    |set x | x in u && InOrder(x, k)|
  }

  lemma RankOrder(u: set<Key>, a: Key, b: Key)
    requires a in u && b in u && InOrder(a, b)
    ensures Rank(u, a) < Rank(u, b) < |u|
  {
    var sa, sb := set x | x in u && InOrder(x, a), set x | x in u && InOrder(x, b);
    assert sa + {a} <= sb && a !in sa;
    SubsetCard(sa + {a}, sb);
    SubsetCard(sb + {b}, u);
  }

  lemma RankBound(u: set<Key>, k: Key)
    requires k in u
    ensures Rank(u, k) < |u|
  {
    var s := set x | x in u && InOrder(x, k);
    SubsetCard(s + {k}, u);
  }

  /**
    How long request k may still wait: the keys between the one in service and k if the sweep reaches
    k, and one more full round if k is in the waiting run.
  */
  ghost function Wait(u: set<Key>, q: seq<Key>, k: Key): int
    requires q != []
  {
    Rank(u, k) - Rank(u, q[0]) + if k in First(q) then 0 else |u|
  }

  ghost predicate Distinct<T>(q: seq<T>) {
    forall i, j | 0 <= i < j < |q| :: q[i] != q[j]
  }

  ghost predicate Queue(u: set<Key>, q: seq<Key>) {
    TwoRuns(q) && Distinct(q) && forall k | k in q :: k in u
  }

  lemma WaitBounds(u: set<Key>, q: seq<Key>, k: Key)
    requires Queue(u, q) && k in q
    ensures 0 <= Wait(u, q, k) < 2 * |u|
    ensures Wait(u, q, k) == 0 ==> k == q[0]
  {
    SweepIsMaximal(q);
    RankBound(u, k);
    assert q[0] in q;
    RankBound(u, q[0]);
    if k in First(q) {
      var j :| 0 <= j < Sweep(q) && First(q)[j] == k;
      assert First(q)[0] == q[0];
      if j > 0 {
        RankOrder(u, q[0], k);
      }
    }
  }

  lemma SpliceDistinct<T(!new)>(q: seq<T>, r: T, p: nat)
    requires p <= |q| && r !in q && Distinct(q)
    ensures var q' := q[..p] + [r] + q[p..];
      && Distinct(q')
      && multiset(q') == multiset(q) + multiset{r}
      && (forall k :: k in q' <==> k in q || k == r)
  {
    var q' := q[..p] + [r] + q[p..];
    assert q == q[..p] + q[p..];
    forall i, j | 0 <= i < j < |q'| ensures q'[i] != q'[j] {
      var i', j' := if i <= p then i else i - 1, if j <= p then j else j - 1;
      assert i != p ==> q'[i] == q[i'];
      assert j != p ==> q'[j] == q[j'];
    }
    assert q'[p] == r;
    forall k | k in q ensures k in q' {
      var i :| 0 <= i < |q| && q[i] == k;
      assert q'[if i < p then i else i + 1] == k;
    }
  }

  lemma LoneRequest(r: Key)
    ensures TwoRuns([r]) && Distinct([r])
  {
  }

  lemma InsertKeepsQueue(u: set<Key>, q: seq<Key>, r: Key)
    requires Queue(u, q) && r !in q && r in u
    ensures Queue(u, Insert(q, r))
    ensures multiset(Insert(q, r)) == multiset(q) + multiset{r}
  {
    hide InOrder, StopFrom, Sweep, Ascending, TwoRuns, Distinct, First, Second, JoinsSweep;
    if q != [] {
      InsertKeepsRuns(q, r);
      SpliceDistinct(q, r, StopFrom(q, r, 0) + 1);
    } else {
      LoneRequest(r);
    }
  }

  lemma QueueHead(u: set<Key>, q: seq<Key>)
    requires Queue(u, q)
    ensures q != [] ==> q[0] in u
  {
  }

  lemma CompleteKeepsQueue(u: set<Key>, q: seq<Key>)
    requires Queue(u, q) && q != []
    ensures Queue(u, q[1..])
  {
    hide InOrder, Sweep, Ascending;
    CompleteKeepsRuns(q);
  }

  /** However requests keep arriving, they do not make k wait longer. */
  lemma InsertKeepsWait(u: set<Key>, q: seq<Key>, r: Key, k: Key)
    requires Queue(u, q) && r !in q && k in q
    ensures Insert(q, r) != [] && k in Insert(q, r) && Wait(u, Insert(q, r), k) == Wait(u, q, k)
  {
    hide InOrder, StopFrom, Sweep, SortedInsert, Rank, Ascending, JoinsSweep, First, Second, TwoRuns, Distinct;
    InsertIsSortedInsert(q, r);
    InsertKeepsRuns(q, r);
    SpliceDistinct(q, r, StopFrom(q, r, 0) + 1);
    SortedInsertMembers(First(q), r);
  }

  /** Every completion brings k strictly closer. */
  lemma CompleteLowersWait(u: set<Key>, q: seq<Key>, k: Key)
    requires Queue(u, q) && k in q && k != q[0]
    ensures q[1..] != [] && k in q[1..] && Queue(u, q[1..]) && Wait(u, q[1..], k) < Wait(u, q, k)
  {
    hide InOrder, Sweep, Rank, Ascending, TwoRuns, Distinct, First, Second;
    SweepIsMaximal(q);
    CompleteKeepsRuns(q);
    CompleteKeepsQueue(u, q);
    Halves(q);
    var a, b := First(q), Second(q);
    assert q == [q[0]] + q[1..] && a == [a[0]] + a[1..] && a[0] == q[0];
    assert q[0] in u && q[1] in u by {
      assert q[0] in q && q[1] in q;
    }
    AscendingTail(a);
    RankBound(u, q[0]);
    if Sweep(q) >= 2 {
      RankOrder(u, q[0], q[1]);
      assert k in a <==> k in a[1..];
    } else {
      assert k in b && k !in a;
    }
  }

  /** What happens to one device queue. */
  datatype Event = Arrive(r: Key) | Complete

  function Apply(q: seq<Key>, e: Event): seq<Key>
    requires e.Complete? ==> q != []
  {
    match e
    case Arrive(r) => Insert(q, r)
    case Complete => q[1..]
  }

  /** Requests arriving are not already queued, because their buffers would be locked; only a request in service completes. */
  ghost predicate Feasible(u: set<Key>, q: seq<Key>, es: seq<Event>)
    decreases |es|
  {
    es == [] ||
    ((match es[0]
      case Arrive(r) => r !in q && r in u
      case Complete => q != [])
     && Feasible(u, Apply(q, es[0]), es[1..]))
  }

  function Completions(es: seq<Event>): nat {
    if es == [] then 0 else (if es[0].Complete? then 1 else 0) + Completions(es[1..])
  }

  /** Request k completes somewhere in the run. */
  ghost predicate Served(u: set<Key>, q: seq<Key>, es: seq<Event>, k: Key)
    requires Feasible(u, q, es)
    decreases |es|
  {
    es != [] && ((es[0].Complete? && q[0] == k) || Served(u, Apply(q, es[0]), es[1..], k))
  }

  lemma {:induction false} ServedWithinWait(u: set<Key>, q: seq<Key>, es: seq<Event>, k: Key)
    requires Queue(u, q) && Feasible(u, q, es) && k in q
    requires Completions(es) > Wait(u, q, k)
    ensures Served(u, q, es, k)
    decreases |es|
  {
    hide Queue, Insert, Wait;
    WaitBounds(u, q, k);
    QueueHead(u, q);
    match es[0] {
      case Arrive(r) =>
        InsertKeepsQueue(u, q, r);
        InsertKeepsWait(u, q, r, k);
        ServedWithinWait(u, Insert(q, r), es[1..], k);
      case Complete =>
        if q[0] != k {
          CompleteLowersWait(u, q, k);
          ServedWithinWait(u, q[1..], es[1..], k);
        }
    }
  }

  /** Non-starvation: twice as many completions as there are distinct keys always suffice. */
  lemma NoStarvation(u: set<Key>, q: seq<Key>, es: seq<Event>, k: Key)
    requires Queue(u, q) && Feasible(u, q, es) && k in q
    requires Completions(es) >= 2 * |u|
    ensures Served(u, q, es, k)
  {
    WaitBounds(u, q, k);
    ServedWithinWait(u, q, es, k);
  }

  /** Shape and conservation over a run: what arrived is what completed and what is still queued. */
  lemma {:induction false} RunConserves(u: set<Key>, q: seq<Key>, es: seq<Event>)
    requires Queue(u, q) && Feasible(u, q, es)
    ensures Queue(u, Final(q, es))
    ensures multiset(q) + multiset(Arrived(es)) == multiset(Completed(q, es)) + multiset(Final(q, es))
    decreases |es|
  {
    hide Queue, Insert;
    if es != [] {
      var rest, q' := es[1..], Apply(q, es[0]);
      match es[0] {
        case Arrive(r) =>
          InsertKeepsQueue(u, q, r);
          RunConserves(u, q', rest);
          ArrivalMoves(multiset(q), multiset(Arrived(rest)), multiset(Completed(q', rest)), multiset(Final(q', rest)), r);
          assert Arrived(es) == [r] + Arrived(rest);
          assert Completed(q, es) == Completed(q', rest);
        case Complete =>
          CompleteKeepsQueue(u, q);
          RunConserves(u, q', rest);
          CompletionMoves(multiset(q'), multiset(Arrived(rest)), multiset(Completed(q', rest)), multiset(Final(q', rest)), q[0]);
          assert q == [q[0]] + q';
          assert Arrived(es) == Arrived(rest);
          assert Completed(q, es) == [q[0]] + Completed(q', rest);
      }
    }
  }

  lemma ArrivalMoves<T>(q: multiset<T>, a: multiset<T>, c: multiset<T>, f: multiset<T>, r: T)
    requires q + multiset{r} + a == c + f
    ensures q + (multiset{r} + a) == c + f
  {
    assert q + (multiset{r} + a) == q + multiset{r} + a;
  }

  lemma CompletionMoves<T>(q: multiset<T>, a: multiset<T>, c: multiset<T>, f: multiset<T>, h: T)
    requires q + a == c + f
    ensures multiset{h} + q + a == multiset{h} + c + f
  {
    assert multiset{h} + q + a == multiset{h} + (q + a) == multiset{h} + (c + f);
  }

  ghost function Final(q: seq<Key>, es: seq<Event>): seq<Key>
    decreases |es|
  {
    if es == [] then q else if es[0].Complete? && q == [] then q else Final(Apply(q, es[0]), es[1..])
  }

  ghost function Arrived(es: seq<Event>): seq<Key> {
    if es == [] then [] else (if es[0].Arrive? then [es[0].r] else []) + Arrived(es[1..])
  }

  ghost function Completed(q: seq<Key>, es: seq<Event>): seq<Key>
    decreases |es|
  {
    if es == [] then []
    else if es[0].Complete? && q == [] then []
    else (if es[0].Complete? then [q[0]] else []) + Completed(Apply(q, es[0]), es[1..])
  }
}
