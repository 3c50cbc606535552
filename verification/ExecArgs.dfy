/**
  The argument area of linux-0.11/fs/exec.c: strings are copied backwards into pages obtained on
  demand, the pages are placed at the top of the new data segment, and create_tables walks the strings
  forwards to build argv and envp.  Addresses in the new segment are offsets from its base.
*/
module ExecArgs {
  import opened Bytes
  import opened ArgStrings

  const PAGE_SIZE := 4096
  const MAX_ARG_PAGES := 32
  const AREA := 131072               // PAGE_SIZE * MAX_ARG_PAGES
  const TOP := 131068                // exec.c:228
  const DATA_LIMIT := 0x4000000      // exec.c:191

  /** A page of the area, or none. */
  type Page = s: seq<Byte> | s == [] || |s| == 4096 witness []

  function ByteAt(pages: seq<Page>, a: nat): Byte
    requires |pages| == MAX_ARG_PAGES && a < AREA
  {
    if pages[a / PAGE_SIZE] == [] then 0 else pages[a / PAGE_SIZE][a % PAGE_SIZE]
  }

  ghost function Slice(pages: seq<Page>, lo: nat, hi: nat): (s: seq<Byte>)
    requires |pages| == MAX_ARG_PAGES && lo <= hi <= AREA
    ensures |s| == hi - lo && forall k | 0 <= k < |s| :: s[k] == ByteAt(pages, lo + k)
  {
    seq<Byte>(hi - lo, k requires 0 <= k < hi - lo => ByteAt(pages, lo + k))
  }

  /** Nothing outside [lo, hi) has changed. */
  ghost predicate SameElsewhere(pages: seq<Page>, pages': seq<Page>, lo: nat, hi: nat)
    requires |pages| == MAX_ARG_PAGES == |pages'|
  {
    forall a: nat {:trigger ByteAt(pages', a)} | a < AREA && !(lo <= a < hi) :: ByteAt(pages', a) == ByteAt(pages, a)
  }

  lemma StoreByte(pages: seq<Page>, pages': seq<Page>, p: nat, c: Byte)
    requires |pages| == MAX_ARG_PAGES == |pages'| && p < AREA
    requires var base := if pages[p / PAGE_SIZE] == [] then seq(PAGE_SIZE, _ => 0) else pages[p / PAGE_SIZE];
      pages' == pages[p / PAGE_SIZE := base[p % PAGE_SIZE := c]]
    ensures ByteAt(pages', p) == c && SameElsewhere(pages, pages', p, p + 1)
  {
    forall a: nat | a < AREA && a != p ensures ByteAt(pages', a) == ByteAt(pages, a) {
      assert a / PAGE_SIZE == p / PAGE_SIZE ==> a % PAGE_SIZE != p % PAGE_SIZE;
    }
  }

  lemma SliceGrows(pages: seq<Page>, pages': seq<Page>, p: nat, hi: nat)
    requires |pages| == MAX_ARG_PAGES == |pages'| && p < hi <= AREA && SameElsewhere(pages, pages', p, p + 1)
    ensures Slice(pages', p, hi) == [ByteAt(pages', p)] + Slice(pages, p + 1, hi)
  {
  }

  /** How many pages the bytes from p up to the top lie in. */
  function PagesFor(p: int): nat
    requires p <= TOP
  {
    if p < TOP then MAX_ARG_PAGES - p / PAGE_SIZE else 0
  }

  /** Exactly these pages have been obtained. */
  ghost predicate Backed(pages: seq<Page>, p: nat)
    requires p <= TOP
  {
    |pages| == MAX_ARG_PAGES && forall k | 0 <= k < MAX_ARG_PAGES :: pages[k] != [] <==> p < TOP && p / PAGE_SIZE <= k
  }

  lemma MoreBytesMorePages(p: int, q: int)
    requires p <= q <= TOP
    ensures PagesFor(q) <= PagesFor(p)
  {
  }

  /** The next byte down needs a page if and only if its page is not there yet. */
  lemma NextByte(pages: seq<Page>, p: nat)
    requires p < TOP && Backed(pages, p + 1)
    ensures p / PAGE_SIZE < MAX_ARG_PAGES
    ensures pages[p / PAGE_SIZE] == [] <==> PagesFor(p) == PagesFor(p + 1) + 1
    ensures pages[p / PAGE_SIZE] != [] <==> PagesFor(p) == PagesFor(p + 1)
    ensures (p + 1) % PAGE_SIZE != 0 && p + 1 < TOP ==> pages[p / PAGE_SIZE] != []
  {
  }

  lemma BackedNext(pages: seq<Page>, pages': seq<Page>, p: nat)
    requires p < TOP && Backed(pages, p + 1) && |pages'| == MAX_ARG_PAGES && pages'[p / PAGE_SIZE] != []
    requires forall k | 0 <= k < MAX_ARG_PAGES && k != p / PAGE_SIZE :: pages'[k] == pages[k]
    ensures Backed(pages', p)
  {
  }

  class ArgPages {
    const page: array<Page>
    var free: nat                    // pages get_free_page can still give

    constructor (free: nat)
      ensures Valid() && this.free == free && forall i | 0 <= i < MAX_ARG_PAGES :: page[i] == []
    {
      page := new Page[MAX_ARG_PAGES](_ => []);
      this.free := free;
    }

    ghost predicate Valid() {
      page.Length == MAX_ARG_PAGES
    }

    /** pag and offset of copy_strings: not set yet, or the page and offset of p. */
    ghost predicate Cursor(p: nat, pag: int, offset: nat)
      reads page
    {
      page.Length == MAX_ARG_PAGES
      && ((pag == -1 && offset == 0) || (p < AREA && pag == p / PAGE_SIZE && offset == p % PAGE_SIZE && page[p / PAGE_SIZE] != []))
    }

    /** One byte, at p; a page that is not there yet is obtained (exec.c:153-174). */
    method PutByte(c: Byte, p: nat, pag0: int, offset0: nat) returns (ok: bool, pag: int, offset: nat)
      requires Valid() && p < TOP && Cursor(p + 1, pag0, offset0) && Backed(page[..], p + 1)
      modifies this`free, page
      ensures ok <==> PagesFor(p) <= PagesFor(p + 1) + old(free)
      ensures ok ==> Cursor(p, pag, offset) && Backed(page[..], p) && PagesFor(p) + free == PagesFor(p + 1) + old(free)
      ensures ok ==> ByteAt(page[..], p) == c && SameElsewhere(old(page[..]), page[..], p, p + 1)
    {
      hide ByteAt, Backed, PagesFor;
      ghost var pages := page[..];
      pag, offset := pag0, offset0;
      NextByte(pages, p);
      if offset == 0 {
        offset := p % PAGE_SIZE;
        if page[p / PAGE_SIZE] == [] {
          if free == 0 {
            return false, -1, 0;
          }
          free := free - 1;
          page[p / PAGE_SIZE] := seq(PAGE_SIZE, _ => 0);
        }
        pag := p / PAGE_SIZE;
      } else {
        offset := offset - 1;
      }
      page[pag] := page[pag][offset := c];
      StoreByte(pages, page[..], p, c);
      BackedNext(pages, page[..], p);
      ok := true;
    }

    /** One string, from its last byte down (exec.c:142-175); fails when a page is needed and there is none. */
    method CopyString(s: CString, p0: nat, pag0: int, offset0: nat) returns (ok: bool, p: nat, pag: int, offset: nat)
      requires Valid() && |s| + 1 <= p0 <= TOP && Cursor(p0, pag0, offset0) && Backed(page[..], p0)
      modifies this`free, page
      ensures ok ==> p + |s| + 1 == p0 && Cursor(p, pag, offset)
      ensures ok ==> Slice(page[..], p, p0) == Terminated(s) && SameElsewhere(old(page[..]), page[..], p, p0)
      ensures ok <==> PagesFor(p0 - |s| - 1) <= PagesFor(p0) + old(free)
      ensures ok ==> Backed(page[..], p) && PagesFor(p) + free == PagesFor(p0) + old(free)
    {
      hide ByteAt, Backed, PagesFor;
      p, pag, offset := p0, pag0, offset0;
      var t := s + [0];
      var len := |t|;
      while len > 0
        invariant 0 <= len <= |t| && p + |t| == p0 + len && Cursor(p, pag, offset)
        invariant Backed(page[..], p) && PagesFor(p) + free == PagesFor(p0) + old(free)
        invariant Slice(page[..], p, p0) == t[len..] && SameElsewhere(old(page[..]), page[..], p, p0)
      {
        ghost var pages := page[..];
        p, len := p - 1, len - 1;
        ok, pag, offset := PutByte(t[len], p, pag, offset);
        if !ok {
          MoreBytesMorePages(p0 - |s| - 1, p);
          return false, 0, -1, 0;
        }
        SliceGrows(pages, page[..], p, p0);
        assert t[len..] == [t[len]] + t[len + 1..];
      }
      ok := true;
    }

    /** copy_strings (exec.c:113-182), for strings that fit. */
    method CopyStrings(argc0: int, argv: seq<CString>, p0: nat) returns (p: nat)
      requires Valid() && p0 <= TOP && argc0 <= |argv| && (p0 != 0 ==> Backed(page[..], p0))
      requires p0 != 0 && argc0 > 0 ==> |Flat(argv[..argc0])| < p0
      modifies this`free, page
      ensures p != 0 <==> p0 != 0 && PagesFor(p0 - |Flat(Upto(argv, argc0))|) <= PagesFor(p0) + old(free)
      ensures p != 0 ==> p <= TOP && Backed(page[..], p) && PagesFor(p) + free == PagesFor(p0) + old(free)
      ensures p != 0 ==> p0 != 0 && p + |Flat(Upto(argv, argc0))| == p0
      ensures p != 0 ==> Slice(page[..], p, p0) == Flat(Upto(argv, argc0)) && SameElsewhere(old(page[..]), page[..], p, p0)
    {
      hide ByteAt, Flat, Backed, PagesFor;
      if p0 == 0 {
        return 0;
      }
      p := p0;
      var argc, pag, offset := argc0, -1, 0;
      ghost var ss := Upto(argv, argc0);
      FlatNone();
      assert Rest(ss, argc) == [];
      while argc > 0
        invariant (argc == argc0 || 0 <= argc < argc0) && 0 < p <= p0 && Cursor(p, pag, offset)
        invariant Backed(page[..], p) && PagesFor(p) + free == PagesFor(p0) + old(free)
        invariant p + |Flat(Rest(ss, argc))| == p0
        invariant Slice(page[..], p, p0) == Flat(Rest(ss, argc)) && SameElsewhere(old(page[..]), page[..], p, p0)
        decreases argc
      {
        argc := argc - 1;
        ghost var pages := page[..];
        assert argv[argc] == ss[argc];
        NextDown(ss, argc, p0, p);
        var ok, p1;
        ok, p1, pag, offset := CopyString(argv[argc], p, pag, offset);
        if !ok {
          RestIsShorter(ss, argc);
          MoreBytesMorePages(p0 - |Flat(ss)|, p - |argv[argc]| - 1);
          return 0;
        }
        SliceJoin(pages, page[..], p1, p, p0);
        p := p1;
      }
      assert Rest(ss, argc) == ss;
    }
  }

  /** The first n strings; none when n is not positive. */
  function Upto(ss: seq<CString>, n: int): seq<CString>
    requires n <= |ss|
  {
    if n > 0 then ss[..n] else []
  }

  ghost function Rest(ss: seq<CString>, n: int): seq<CString>
    requires n <= |ss|
  {
    if n > 0 then ss[n..] else ss
  }

  lemma RestIsShorter(ss: seq<CString>, n: int)
    requires n <= |ss|
    ensures |Flat(Rest(ss, n))| <= |Flat(ss)|
  {
    if n > 0 {
      FlatConcat(ss[..n], ss[n..]);
      assert ss == ss[..n] + ss[n..];
    }
  }

  lemma FlatNone()
    ensures Flat([]) == []
  {
  }

  /** Going one string down leaves room for it. */
  lemma NextDown(ss: seq<CString>, k: nat, p0: nat, p: nat)
    requires k < |ss| && |Flat(ss)| < p0 && p + |Flat(ss[k + 1..])| == p0
    ensures Flat(Rest(ss, k)) == Terminated(ss[k]) + Flat(ss[k + 1..]) && |ss[k]| + 1 < p
  {
    assert ss[k..][0] == ss[k] && ss[k..][1..] == ss[k + 1..];
    assert ss == ss[..k] + ss[k..];
    FlatConcat(ss[..k], ss[k..]);
    assert k == 0 ==> ss[k..] == ss;
  }

  lemma SliceJoin(pages: seq<Page>, pages': seq<Page>, lo: nat, mid: nat, hi: nat)
    requires |pages| == MAX_ARG_PAGES == |pages'| && lo <= mid <= hi <= AREA && SameElsewhere(pages, pages', lo, mid)
    ensures Slice(pages', lo, hi) == Slice(pages', lo, mid) + Slice(pages, mid, hi)
  {
  }

  // ----- The new program's memory -----

  /** The page loop of change_ldt (exec.c:204-211): page i of the area is mapped 32 - i pages below the top. */
  method PlacePages(page: array<Page>, mem: array<Byte>) returns (dataLimit: nat)
    requires page.Length == MAX_ARG_PAGES && mem.Length == DATA_LIMIT && forall a | 0 <= a < DATA_LIMIT :: mem[a] == 0
    modifies mem
    ensures dataLimit == DATA_LIMIT
    ensures forall a: nat {:trigger ByteAt(page[..], a)} | a < AREA :: mem[DATA_LIMIT - AREA + a] == ByteAt(page[..], a)
    ensures forall a | 0 <= a < DATA_LIMIT - AREA :: mem[a] == 0
  {
    ghost var pages := page[..];
    var i, base := MAX_ARG_PAGES, DATA_LIMIT;
    while i > 0
      invariant 0 <= i <= MAX_ARG_PAGES && base == DATA_LIMIT - AREA + i * PAGE_SIZE
      invariant forall a | i * PAGE_SIZE <= a < AREA :: mem[DATA_LIMIT - AREA + a] == ByteAt(pages, a)
      invariant forall a | 0 <= a < base :: mem[a] == 0
    {
      ghost var m := mem[..];
      i, base := i - 1, base - PAGE_SIZE;
      if page[i] != [] {
        forall o | 0 <= o < PAGE_SIZE {
          mem[base + o] := page[i][o];
        }
      }
      forall a: nat | i * PAGE_SIZE <= a < AREA ensures mem[DATA_LIMIT - AREA + a] == ByteAt(pages, a) {
        if a < (i + 1) * PAGE_SIZE {
          var o := a - i * PAGE_SIZE;
          assert a / PAGE_SIZE == i && a % PAGE_SIZE == o;
          assert mem[base + o] == if page[i] == [] then 0 else page[i][o];
        } else {
          assert mem[DATA_LIMIT - AREA + a] == m[DATA_LIMIT - AREA + a];
        }
      }
    }
    dataLimit := DATA_LIMIT;
  }

  /** Memory has changed in [lo, hi) at most. */
  ghost predicate OnlyIn(mem: seq<Byte>, mem': seq<Byte>, lo: nat, hi: nat) {
    |mem'| == |mem| && forall k | 0 <= k < |mem| && !(lo <= k < hi) :: mem'[k] == mem[k]
  }

  lemma OnlyInWider(m0: seq<Byte>, m1: seq<Byte>, m2: seq<Byte>, lo: nat, hi: nat, lo1: nat, hi1: nat)
    requires OnlyIn(m0, m1, lo, hi) && OnlyIn(m1, m2, lo1, hi1) && lo <= lo1 <= hi1 <= hi
    ensures OnlyIn(m0, m2, lo, hi)
  {
  }

  /** put_fs_long. */
  method PutLong(mem: array<Byte>, v: nat, a: nat)
    requires a + 4 <= mem.Length && v < 0x1_0000_0000
    modifies mem
    ensures LongAt(mem[..], a) == v && OnlyIn(old(mem[..]), mem[..], a, a + 4)
  {
    mem[a] := v % 0x100;
    mem[a + 1] := v / 0x100 % 0x100;
    mem[a + 2] := v / 0x1_0000 % 0x100;
    mem[a + 3] := v / 0x100_0000;
    Digits(v);
  }

  lemma Digits(v: nat)
    requires v < 0x1_0000_0000
    ensures v == v % 0x100 + 0x100 * (v / 0x100 % 0x100) + 0x1_0000 * (v / 0x1_0000 % 0x100) + 0x100_0000 * (v / 0x100_0000)
    ensures v / 0x100_0000 < 0x100
  {
    assert v / 0x1_0000 == v / 0x100 / 0x100 && v / 0x100_0000 == v / 0x1_0000 / 0x100;
  }

  /** The strings of ss stand at p. */
  ghost predicate StringsAt(mem: seq<Byte>, p: nat, ss: seq<CString>) {
    p + |Flat(ss)| <= |mem| && mem[p..p + |Flat(ss)|] == Flat(ss)
  }

  lemma SliceOfSlice(mem: seq<Byte>, p: nat, n: nat, o: nat, e: nat)
    requires p + n <= |mem| && o <= e <= n
    ensures mem[p..p + n][o..e] == mem[p + o..p + e]
  {
    var s, t := mem[p..p + n][o..e], mem[p + o..p + e];
    forall k | 0 <= k < |s| ensures s[k] == t[k] {
    }
  }

  /** The n pointers of the table at a lead to p or beyond. */
  ghost predicate PointsAbove(mem: seq<Byte>, a: nat, n: nat, p: nat) {
    a + 4 * n <= |mem| && forall k | 0 <= k < n :: Pointer(mem, a, k) >= p
  }

  function Pointer(mem: seq<Byte>, a: nat, k: nat): nat
    requires a + 4 * k + 4 <= |mem|
  {
    LongAt(mem, a + 4 * k)
  }

  lemma StringOfList(mem: seq<Byte>, p: nat, ss: seq<CString>, k: nat)
    requires StringsAt(mem, p, ss) && k < |ss|
    ensures StringAt(mem, p + Start(ss, k), ss[k]) && Start(ss, k + 1) == Start(ss, k) + |ss[k]| + 1
    ensures p + Start(ss, k + 1) <= |mem|
  {
    StartNext(ss, k);
    var o, e := Start(ss, k), Start(ss, k + 1);
    SliceOfSlice(mem, p, |Flat(ss)|, o, e);
    assert p + o + |ss[k]| + 1 == p + e;
  }

  lemma LongFrame(mem: seq<Byte>, mem': seq<Byte>, lo: nat, hi: nat, a: nat)
    requires OnlyIn(mem, mem', lo, hi) && a + 4 <= |mem| && (a + 4 <= lo || hi <= a)
    ensures LongAt(mem', a) == LongAt(mem, a)
  {
  }

  /** One of the two loops of create_tables (exec.c:62-67 and 69-74): n pointers, then a null one. */
  method FillTable(mem: array<Byte>, p0: nat, n: nat, table: nat, ghost ss: seq<CString>) returns (p: nat)
    requires n == |ss| && StringsAt(mem[..], p0, ss) && table + 4 * n + 4 <= p0 && 0 < p0 && mem.Length < 0x1_0000_0000
    modifies mem
    ensures p == p0 + |Flat(ss)| && TableAt(mem[..], table, ss)
    ensures PointsAbove(mem[..], table, n, p0)
    ensures OnlyIn(old(mem[..]), mem[..], table, table + 4 * n + 4)
  {
    hide Flat, LongAt, Start, OnlyIn, StringsAt, StringAt;
    p := p0;
    var k := 0;
    ghost var m0 := mem[..];
    StartIsBounded(ss, |ss|);
    StartZero(ss);
    StringsFit(m0, p0, ss);
    OnlyInRefl(m0, table, table + 4 * n + 4);
    while k < n
      invariant k <= n && p == p0 + Start(ss, k)
      invariant OnlyIn(m0, mem[..], table, table + 4 * n + 4)
      invariant forall j | 0 <= j < k :: Pointer(mem[..], table, j) == p0 + Start(ss, j)
    {
      ghost var m := mem[..];
      StringsFrame(m0, m, table, table + 4 * n + 4, p0, ss);
      StringOfList(m, p0, ss, k);
      PutLong(mem, p, table + 4 * k);
      OnlyInWider(m0, m, mem[..], table, table + 4 * n + 4, table + 4 * k, table + 4 * k + 4);
      forall j | 0 <= j <= k ensures Pointer(mem[..], table, j) == p0 + Start(ss, j) {
        if j < k {
          LongFrame(m, mem[..], table + 4 * k, table + 4 * k + 4, table + 4 * j);
          assert Pointer(m, table, j) == p0 + Start(ss, j);
        }
      }
      StringsFrame(m0, mem[..], table, table + 4 * n + 4, p0, ss);
      StringOfList(mem[..], p0, ss, k);
      p := SkipString(mem, p, ss[k]);
      k := k + 1;
    }
    ghost var m := mem[..];
    PutLong(mem, 0, table + 4 * n);
    OnlyInWider(m0, m, mem[..], table, table + 4 * n + 4, table + 4 * n, table + 4 * n + 4);
    StringsFrame(m0, mem[..], table, table + 4 * n + 4, p0, ss);
    forall j | 0 <= j < n ensures Pointer(mem[..], table, j) == p0 + Start(ss, j) {
      LongFrame(m, mem[..], table + 4 * n, table + 4 * n + 4, table + 4 * j);
      assert Pointer(m, table, j) == p0 + Start(ss, j);
    }
    TableFrom(mem[..], table, p0, ss);
  }

  lemma OnlyInRefl(m: seq<Byte>, lo: nat, hi: nat)
    ensures OnlyIn(m, m, lo, hi)
  {
  }

  lemma TableFrom(mem: seq<Byte>, a: nat, p: nat, ss: seq<CString>)
    requires StringsAt(mem, p, ss) && 0 < p && a + 4 * |ss| + 4 <= |mem| && LongAt(mem, a + 4 * |ss|) == 0
    requires forall j | 0 <= j < |ss| :: Pointer(mem, a, j) == p + Start(ss, j)
    ensures TableAt(mem, a, ss) && PointsAbove(mem, a, |ss|, p)
  {
    hide LongAt, StringsAt, StringAt, Start;
    forall j | 0 <= j < |ss| ensures LongAt(mem, a + 4 * j) != 0 && StringAt(mem, LongAt(mem, a + 4 * j), ss[j]) {
      StringOfList(mem, p, ss, j);
      assert Pointer(mem, a, j) == p + Start(ss, j);
    }
  }

  lemma StringsFit(mem: seq<Byte>, p: nat, ss: seq<CString>)
    requires StringsAt(mem, p, ss)
    ensures p <= |mem|
  {
  }

  lemma StartZero(ss: seq<CString>)
    ensures Start(ss, 0) == 0
  {
  }

  lemma StringsFrame(mem: seq<Byte>, mem': seq<Byte>, lo: nat, hi: nat, p: nat, ss: seq<CString>)
    requires StringsAt(mem, p, ss) && OnlyIn(mem, mem', lo, hi) && hi <= p
    ensures StringsAt(mem', p, ss)
  {
    assert mem'[p..p + |Flat(ss)|] == mem[p..p + |Flat(ss)|];
  }

  /** while (get_fs_byte(p++)) (exec.c:64-65). */
  method SkipString(mem: array<Byte>, p0: nat, ghost s: CString) returns (p: nat)
    requires StringAt(mem[..], p0, s)
    ensures p == p0 + |s| + 1
  {
    p := p0;
    var more := true;
    while more
      invariant p0 <= p && (if more then p <= p0 + |s| else p == p0 + |s| + 1)
      decreases more, p0 + |s| - p
    {
      BytesAt(mem[..], p0, s, p - p0);
      more := mem[p] != 0;
      p := p + 1;
    }
  }

  /**
    create_tables (exec.c:46-77): below the strings at p stand argc, argv and envp, and the two tables,
    which hold the strings in order.
  */
  method CreateTables(mem: array<Byte>, p: nat, argc: nat, envc: nat, ghost args: seq<CString>, ghost env: seq<CString>) returns (sp: nat)
    requires argc == |args| && envc == |env| && StringsAt(mem[..], p, args + env) && p <= mem.Length
    requires 4 * (argc + envc + 5) + 4 <= p && mem.Length < 0x1_0000_0000
    modifies mem
    ensures sp % 4 == 0 && sp + 4 * (argc + envc + 5) <= p < sp + 4 * (argc + envc + 5) + 4
    ensures LongAt(mem[..], sp) == argc
    ensures TableAt(mem[..], LongAt(mem[..], sp + 4), args) && TableAt(mem[..], LongAt(mem[..], sp + 8), env)
    ensures OnlyIn(old(mem[..]), mem[..], sp, p)
  {
    hide Flat, LongAt;
    hide StringsAt, TableAt, PointsAbove, LongAt, Flat, OnlyIn;
    ghost var m0 := mem[..];
    SplitStrings(m0, p, args, env);
    sp := p - p % 4;
    sp := sp - 4 * (envc + 1);
    var envp := sp;
    sp := sp - 4 * (argc + 1);
    var argv := sp;
    sp := PutHeader(mem, sp, argc, argv, envp);
    ghost var m3 := mem[..];
    StringsFrame(m0, m3, sp, argv, p, args);
    StringsFrame(m0, m3, sp, argv, p + |Flat(args)|, env);
    OnlyInWider2(m0, m3, sp, argv, p);
    var p1 := FillTable(mem, p, argc, argv, args);
    ghost var m4 := mem[..];
    StringsFrame(m3, m4, argv, envp, p1, env);
    OnlyInWider(m0, m3, m4, sp, p, argv, envp);
    HeaderFrame(m3, m4, argv, envp, sp);
    var p2 := FillTable(mem, p1, envc, envp, env);
    ghost var m5 := mem[..];
    OnlyInWider(m0, m4, m5, sp, p, envp, envp + 4 * envc + 4);
    HeaderFrame(m4, m5, envp, envp + 4 * envc + 4, sp);
    TableFrame(m4, m5, envp, envp + 4 * envc + 4, argv, args, p);
  }

  lemma OnlyInWider2(m0: seq<Byte>, m1: seq<Byte>, lo: nat, mid: nat, hi: nat)
    requires OnlyIn(m0, m1, lo, mid) && mid <= hi
    ensures OnlyIn(m0, m1, lo, hi)
  {
  }

  lemma HeaderFrame(mem: seq<Byte>, mem': seq<Byte>, lo: nat, hi: nat, sp: nat)
    requires OnlyIn(mem, mem', lo, hi) && sp + 12 <= lo && sp + 12 <= |mem|
    ensures LongAt(mem', sp) == LongAt(mem, sp) && LongAt(mem', sp + 4) == LongAt(mem, sp + 4) && LongAt(mem', sp + 8) == LongAt(mem, sp + 8)
  {
  }

  /** exec.c:58-60. */
  method PutHeader(mem: array<Byte>, sp0: nat, argc: nat, argv: nat, envp: nat) returns (sp: nat)
    requires 12 <= sp0 <= mem.Length && argc < 0x1_0000_0000 && argv < 0x1_0000_0000 && envp < 0x1_0000_0000
    modifies mem
    ensures sp + 12 == sp0 && LongAt(mem[..], sp) == argc && LongAt(mem[..], sp + 4) == argv && LongAt(mem[..], sp + 8) == envp
    ensures OnlyIn(old(mem[..]), mem[..], sp, sp0)
  {
    hide LongAt;
    sp := sp0 - 4;
    PutLong(mem, envp, sp);
    ghost var m1 := mem[..];
    sp := sp - 4;
    PutLong(mem, argv, sp);
    ghost var m2 := mem[..];
    sp := sp - 4;
    PutLong(mem, argc, sp);
    LongFrame(m1, m2, sp + 4, sp + 8, sp + 8);
    LongFrame(m2, mem[..], sp, sp + 4, sp + 8);
    LongFrame(m2, mem[..], sp, sp + 4, sp + 4);
  }

  lemma SplitBytes(mem: seq<Byte>, p: nat, a: seq<Byte>, b: seq<Byte>)
    requires p + |a + b| <= |mem| && mem[p..p + |a + b|] == a + b
    ensures mem[p..p + |a|] == a && mem[p + |a|..p + |a| + |b|] == b
  {
    SliceOfSlice(mem, p, |a + b|, 0, |a|);
    SliceOfSlice(mem, p, |a + b|, |a|, |a + b|);
    assert (a + b)[0..|a|] == a && (a + b)[|a|..|a + b|] == b;
  }

  lemma SplitStrings(mem: seq<Byte>, p: nat, args: seq<CString>, env: seq<CString>)
    requires StringsAt(mem, p, args + env)
    ensures StringsAt(mem, p, args) && StringsAt(mem, p + |Flat(args)|, env)
  {
    FlatConcat(args, env);
    SplitBytes(mem, p, Flat(args), Flat(env));
  }

  /** A table stays what it is while it and the memory from p on, where its strings are, do. */
  lemma TableFrame(mem: seq<Byte>, mem': seq<Byte>, lo: nat, hi: nat, a: nat, ss: seq<CString>, p: nat)
    requires TableAt(mem, a, ss) && OnlyIn(mem, mem', lo, hi) && a + 4 * |ss| + 4 <= lo && hi <= p
    requires PointsAbove(mem, a, |ss|, p)
    ensures TableAt(mem', a, ss)
  {
    hide LongAt;
    forall k | 0 <= k < |ss| ensures LongAt(mem', a + 4 * k) != 0 && StringAt(mem', LongAt(mem', a + 4 * k), ss[k]) {
      LongFrame(mem, mem', lo, hi, a + 4 * k);
      var b := Pointer(mem, a, k);
      assert mem'[b..b + |ss[k]| + 1] == mem[b..b + |ss[k]| + 1];
    }
    LongFrame(mem, mem', lo, hi, a + 4 * |ss|);
  }
}
