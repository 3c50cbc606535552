/**
  The path of the argument strings through do_execve (linux-0.11/fs/exec.c:217-436): the "#!" line, the
  copies into the argument area, and the tables the new program finds on its stack.
*/
module Execve {
  import opened Bytes
  import opened ArgStrings
  import opened ExecArgs

  datatype Option<T> = None | Some(value: T)

  /** What a "#!" line names: the interpreter's path, its last component, and an argument for it. */
  datatype Script = Script(path: CString, name: CString, arg: Option<CString>)

  const NEWLINE: Byte := 10
  const SLASH: Byte := 47

  predicate Blank(c: Byte) {
    c == 32 || c == 9
  }

  // ----- The "#!" line -----

  /** name is what follows the last slash of path. */
  ghost predicate LastComponent(path: seq<Byte>, name: seq<Byte>) {
    && |name| <= |path| && path[|path| - |name|..] == name && SLASH !in name
    && (|name| < |path| ==> path[|path| - |name| - 1] == SLASH)
  }

  /** line is blanks, the path, and then nothing or a blank and the argument. */
  ghost predicate Names(line: seq<Byte>, lo: nat, hi: nat, s: Script) {
    && lo < hi <= |line| && (forall k | 0 <= k < lo :: Blank(line[k])) && (forall k | lo <= k < hi :: !Blank(line[k]))
    && s.path == line[lo..hi] && LastComponent(s.path, s.name)
    && (if hi == |line| then s.arg == None else Blank(line[hi]) && s.arg.Some? && s.arg.value == line[hi + 1..])
  }

  /** exec.c:298-313, on the line without its newline; no script when it names no interpreter. */
  method ParseLine(line: CString) returns (s: Option<Script>)
    ensures s.None? <==> forall k | 0 <= k < |line| :: Blank(line[k])
    ensures s.Some? ==> exists lo: nat, hi: nat :: Names(line, lo, hi, s.value)
  {
    var cp := 0;
    while cp < |line| && Blank(line[cp])
      invariant 0 <= cp <= |line| && forall k | 0 <= k < cp :: Blank(line[k])
    {
      cp := cp + 1;
    }
    if cp == |line| {
      return None;
    }
    var interp, name := cp, cp;
    while cp < |line| && !Blank(line[cp])
      invariant interp <= name <= cp <= |line| && forall k | interp <= k < cp :: !Blank(line[k])
      invariant forall k | name <= k < cp :: line[k] != SLASH
      invariant name > interp ==> line[name - 1] == SLASH
    {
      if line[cp] == SLASH {
        name := cp + 1;
      }
      cp := cp + 1;
    }
    var arg: Option<CString> := None;
    if cp < |line| {
      arg := Some(line[cp + 1..]);
    }
    var script := Script(line[interp..cp], line[name..cp], arg);
    assert script.path[|script.path| - |script.name|..] == script.name;
    assert Names(line, interp, cp, script);
    s := Some(script);
  }

  /** No newline comes before a null byte, or before the buffer is full, n bytes on. */
  ghost predicate NoLine(data: seq<Byte>, n: nat) {
    n <= 1022 && 2 + n <= |data| && NEWLINE !in data[2..2 + n] && (n == 1022 || (2 + n < |data| && data[2 + n] == 0))
  }

  /** strncpy and strchr (exec.c:292-299): the text after "#!" up to a newline that comes before any null byte. */
  method HeaderLine(data: seq<Byte>) returns (line: Option<CString>)
    requires |data| == 1024
    ensures line.Some? ==> |line.value| < 1022 && data[2..2 + |line.value|] == line.value && data[2 + |line.value|] == NEWLINE && NEWLINE !in line.value
    ensures line.None? ==> exists n: nat :: NoLine(data, n)
  {
    var n := 0;
    while n < 1022 && data[2 + n] != 0 && data[2 + n] != NEWLINE
      invariant 0 <= n <= 1022 && forall k | 2 <= k < 2 + n :: data[k] != 0 && data[k] != NEWLINE
    {
      n := n + 1;
    }
    if n < 1022 && data[2 + n] == NEWLINE {
      return Some(data[2..2 + n]);
    }
    assert NoLine(data, n);
    return None;
  }

  // ----- The strings -----

  /** argv as the new program should see it. */
  function NewArgs(filename: CString, args: seq<CString>, script: Option<Script>): seq<CString> {
    match script
    case None => args
    case Some(s) =>
      [s.name] + (if s.arg.Some? then [s.arg.value] else []) + [filename] + Upto(if args == [] then [] else args[1..], |args| - 1)
  }

  /** argc as do_execve counts it (exec.c:240, 320, 331-337). */
  function Argc(args: seq<CString>, script: Option<Script>): int {
    match script
    case None => |args|
    case Some(s) => |args| - 1 + 1 + (if s.arg.Some? then 1 else 0) + 1
  }

  /** With a script, a program started with no argv[0] is told of one string too few. */
  lemma ArgcCounts(filename: CString, args: seq<CString>, script: Option<Script>)
    ensures 0 <= Argc(args, script) <= |NewArgs(filename, args, script)|
    ensures Argc(args, script) == |NewArgs(filename, args, script)| <==> script.None? || args != []
  {
  }

  /** exec of the script "s" for interpreter "i" with an empty argv: the filename is copied but not counted. */
  lemma EmptyArgvLosesFilename()
    ensures var script := Some(Script([105], [105], None)); var args: seq<CString> := [];
      NewArgs([115], args, script) == [[105], [115]] && Argc(args, script) == 1
  {
  }

  /** The calls of copy_strings (exec.c:318-341 and 373-380); 0 when memory ran out. */
  method CopyArguments(area: ArgPages, filename: CString, args: seq<CString>, env: seq<CString>, script: Option<Script>)
    returns (p: nat, argc: int)
    requires area.Valid() && |Flat(NewArgs(filename, args, script) + env)| < TOP && Backed(area.page[..], TOP)
    modifies area`free, area.page
    ensures p != 0 <==> PagesFor(TOP - |Flat(NewArgs(filename, args, script) + env)|) <= old(area.free)
    ensures p != 0 ==> argc == Argc(args, script) && Stands(area.page[..], p, NewArgs(filename, args, script) + env)
  {
    hide Flat, ByteAt, Stands, Upto, NewArgs, Backed, PagesFor;
    ghost var free := area.free;
    assert PagesFor(TOP) == 0 by {
      NoBytesNoPages();
    }
    p := TOP;
    argc := |args|;
    NothingStands(area.page[..]);
    UptoAll(env);
    UptoAll(args);
    NewArgsAre(filename, args, env, script);
    assert env + [] == env;
    var tail := if args == [] then [] else args[1..];
    match script {
      case Some(s) =>
        ghost var named := if s.arg.Some? then [s.arg.value] else [];
        ghost var rest := Upto(tail, |args| - 1);
        Lengths([s.name], named + ([filename] + (rest + env)));
        Lengths(named, [filename] + (rest + env));
        Lengths([filename], rest + env);
        Lengths(rest, env);
        UptoAll([filename]);
        UptoAll([s.name]);
        UptoAll(named);
        assert [] + ([filename] + (rest + env)) == [filename] + (rest + env);
        p := Add(area, |env|, env, p, [], free);
        StandsWhere(area.page[..], p, env);
        argc := argc - 1;
        p := Add(area, argc, tail, p, env, free);
        StandsWhere(area.page[..], p, rest + env);
        p := Add(area, 1, [filename], p, rest + env, free);
        StandsWhere(area.page[..], p, [filename] + (rest + env));
        argc := argc + 1;
        if s.arg.Some? {
          p := Add(area, 1, [s.arg.value], p, [filename] + (rest + env), free);
          argc := argc + 1;
        }
        StandsWhere(area.page[..], p, named + ([filename] + (rest + env)));
        p := Add(area, 1, [s.name], p, named + ([filename] + (rest + env)), free);
        argc := argc + 1;
      case None =>
        Lengths(args, env);

        p := Add(area, |env|, env, p, [], free);
        StandsWhere(area.page[..], p, env);
        p := Add(area, argc, args, p, env, free);
    }
  }

  lemma UptoAll(ss: seq<CString>)
    ensures Upto(ss, |ss|) == ss
  {
  }

  /** The strings of the new program, in the order in which they are stacked. */
  lemma NewArgsAre(filename: CString, args: seq<CString>, env: seq<CString>, script: Option<Script>)
    ensures script.None? ==> NewArgs(filename, args, script) == args
    ensures script.Some? ==>
      var named := if script.value.arg.Some? then [script.value.arg.value] else [];
      var rest := Upto(if args == [] then [] else args[1..], |args| - 1);
      NewArgs(filename, args, script) + env == [script.value.name] + (named + ([filename] + (rest + env)))
  {
  }

  /** The strings of ss stand in the area from p up to the top. */
  ghost predicate Stands(pages: seq<Page>, p: nat, ss: seq<CString>) {
    |pages| == MAX_ARG_PAGES && p <= TOP && p + |Flat(ss)| == TOP && Slice(pages, p, TOP) == Flat(ss)
  }

  lemma NothingStands(pages: seq<Page>)
    requires |pages| == MAX_ARG_PAGES
    ensures Flat([]) == [] && Stands(pages, TOP, [])
  {
  }

  lemma StandsWhere(pages: seq<Page>, p: nat, ss: seq<CString>)
    requires p != 0 ==> Stands(pages, p, ss)
    ensures p != 0 ==> p + |Flat(ss)| == TOP
  {
  }

  lemma Lengths(a: seq<CString>, b: seq<CString>)
    ensures |Flat(a + b)| == |Flat(a)| + |Flat(b)|
  {
    FlatConcat(a, b);
  }

  /** copy_strings on top of the strings already in the area. */
  method Add(area: ArgPages, n: int, ss: seq<CString>, p0: nat, ghost done: seq<CString>, ghost free: nat) returns (p: nat)
    requires area.Valid() && n <= |ss| && p0 <= TOP && |Flat(Upto(ss, n) + done)| < TOP
    requires p0 != 0 ==> Stands(area.page[..], p0, done) && Backed(area.page[..], p0) && PagesFor(p0) + area.free == free
    requires p0 == 0 ==> |Flat(done)| <= TOP && PagesFor(TOP - |Flat(done)|) > free
    modifies area`free, area.page
    ensures p != 0 <==> PagesFor(TOP - |Flat(Upto(ss, n) + done)|) <= free
    ensures p != 0 ==> p <= TOP && Stands(area.page[..], p, Upto(ss, n) + done)
    ensures p != 0 ==> Backed(area.page[..], p) && PagesFor(p) + area.free == free
  {
    hide Flat, ByteAt, Backed, PagesFor;
    ghost var pages := area.page[..];
    FlatConcat(Upto(ss, n), done);
    p := area.CopyStrings(n, ss, p0);
    if p != 0 {
      SliceJoin(pages, area.page[..], p, p0, TOP);
    } else if p0 == 0 {
      MoreBytesMorePages(TOP - |Flat(Upto(ss, n) + done)|, TOP - |Flat(done)|);
    }
  }

  lemma NoBytesNoPages()
    ensures PagesFor(TOP) == 0
  {
  }

  // ----- What the new program finds -----

  /**
    The strings of do_execve from the user's lists to the new stack.  Unless memory ran out, the
    program finds at sp its argc, the table of its arguments and that of its environment; the argument
    table is the intended one exactly when the program is not a script or was given an argv[0].
  */
  method PassArguments(area: ArgPages, filename: CString, args: seq<CString>, env: seq<CString>, script: Option<Script>, mem: array<Byte>)
    returns (sp: nat)
    requires area.Valid() && |Flat(NewArgs(filename, args, script) + env)| < TOP && forall k | 0 <= k < MAX_ARG_PAGES :: area.page[k] == []
    requires mem.Length == DATA_LIMIT && forall a | 0 <= a < DATA_LIMIT :: mem[a] == 0
    modifies area`free, area.page, mem
    ensures sp != 0 <==> PagesFor(TOP - |Flat(NewArgs(filename, args, script) + env)|) <= old(area.free)
    ensures sp != 0 ==> sp % 4 == 0 && sp + 12 <= DATA_LIMIT && LongAt(mem[..], sp) == Argc(args, script)
    ensures sp != 0 && (script.None? || args != []) ==>
              TableAt(mem[..], LongAt(mem[..], sp + 4), NewArgs(filename, args, script)) && TableAt(mem[..], LongAt(mem[..], sp + 8), env)
    ensures sp != 0 && script.Some? && args == [] ==>
              !TableAt(mem[..], LongAt(mem[..], sp + 4), NewArgs(filename, args, script))
              && TableAt(mem[..], LongAt(mem[..], sp + 8), ([filename] + env)[..|env|])
  {
    hide Flat, ByteAt, LongAt, TableAt, Stands, StringsAt, PagesFor;
    ghost var all := NewArgs(filename, args, script) + env;
    var p, argc := CopyArguments(area, filename, args, env, script);
    if p == 0 {
      return 0;
    }
    StandsWhere(area.page[..], p, all);
    ghost var pages, p0 := area.page[..], p;
    var dataLimit := PlacePages(area.page, mem);
    p := p + (dataLimit - AREA);
    assert area.page[..] == pages;
    PlacedStrings(pages, mem[..], p0, all);
    ArgcCounts(filename, args, script);
    FlatIsLong(all);
    ghost var seen, rest := all[..argc], all[argc..argc + |env|];
    assert all == seen + rest + all[argc + |env|..];
    SplitStrings(mem[..], p, seen + rest, all[argc + |env|..]);
    sp := CreateTables(mem, p, argc, |env|, seen, rest);
    SeenIs(filename, args, env, script);
    if TableAt(mem[..], LongAt(mem[..], sp + 4), NewArgs(filename, args, script)) {
      TableAtUnique(mem[..], LongAt(mem[..], sp + 4), NewArgs(filename, args, script), seen);
    }
  }

  lemma SeenIs(filename: CString, args: seq<CString>, env: seq<CString>, script: Option<Script>)
    ensures var all, argc := NewArgs(filename, args, script) + env, Argc(args, script);
      && 0 <= argc && argc + |env| <= |all|
      && (script.None? || args != [] ==> all[..argc] == NewArgs(filename, args, script) && all[argc..argc + |env|] == env)
      && (script.Some? && args == [] ==> |all[..argc]| < |NewArgs(filename, args, script)|)
      && (script.Some? && args == [] ==> all[argc..argc + |env|] == ([filename] + env)[..|env|])
  {
  }

  /** The area's strings keep their place relative to the top. */
  lemma PlacedStrings(pages: seq<Page>, mem: seq<Byte>, p: nat, ss: seq<CString>)
    requires |mem| == DATA_LIMIT && Stands(pages, p, ss)
    requires forall a: nat {:trigger ByteAt(pages, a)} | a < AREA :: mem[DATA_LIMIT - AREA + a] == ByteAt(pages, a)
    ensures StringsAt(mem, p + (DATA_LIMIT - AREA), ss)
  {
    hide ByteAt, Flat;
    var q := p + (DATA_LIMIT - AREA);
    var s := mem[q..q + |Flat(ss)|];
    forall k | 0 <= k < |s| ensures s[k] == Flat(ss)[k] {
      assert Slice(pages, p, TOP)[k] == ByteAt(pages, p + k);
    }
  }
}
