/**
  The canonical input processing of linux-0.11/kernel/chr_drv/tty_io.c as an editor on plain sequences:
  what one character of raw input does to the line being typed, the signals sent and the echo.
*/
module LineEditor {
  /** A signed char; settings hold unsigned ones, so a code above 127 in c_cc never matches. */
  type Char = c: int | -128 <= c < 128

  datatype Signal = INT | QUIT

  /** The parts of struct termios that input processing looks at. */
  datatype Termios = Termios(crnl: bool, nocr: bool, nlcr: bool, uclc: bool, canon: bool, isig: bool, echo: bool, echoctl: bool,
                             intr: nat, quit: nat, erase: nat, kill: nat, eof: nat, start: nat, stop: nat)

  /** The cooked characters not yet read, whether output is stopped, the signals sent, and the echo. */
  datatype State = State(cooked: seq<Char>, stopped: bool, signals: seq<Signal>, echo: seq<Char>)

  /** A newline or end-of-file character, which ends a line. */
  predicate IsBreak(t: Termios, c: Char) {
    c == 10 || c == t.eof
  }

  // ----- One character -----

  function ToLower(c: Char): Char {
    if 65 <= c <= 90 then c + 32 else c
  }

  datatype Mapped = Dropped | As(c: Char)

  /** tty_io.c:158-167. */
  function Map(t: Termios, c: Char): Mapped {
    if c == 13 && !t.crnl && t.nocr then Dropped
    else
      var d: Char := if c == 13 && t.crnl then 10 else if c == 10 && t.nlcr then 13 else c;
      As(if t.uclc then ToLower(d) else d)
  }

  /** The finished lines: the longest prefix that is empty or ends in a break. */
  function Committed(t: Termios, s: seq<Char>): (p: seq<Char>)
    ensures p <= s && (p == [] || IsBreak(t, p[|p| - 1]))
    ensures forall k | |p| <= k < |s| :: !IsBreak(t, s[k])
  {
    if s == [] || IsBreak(t, s[|s| - 1]) then s else Committed(t, s[..|s| - 1])
  }

  /** Rubbing out c on the screen (tty_io.c:174-178). */
  function RubOut(t: Termios, c: Char): seq<Char> {
    if !t.echo then [] else if c < 32 then [127, 127] else [127]
  }

  /** Rubbing out the characters of s, the last one first. */
  function RubOutAll(t: Termios, s: seq<Char>): seq<Char> {
    if s == [] then [] else RubOut(t, s[|s| - 1]) + RubOutAll(t, s[..|s| - 1])
  }

  /** tty_io.c:219-231. */
  function Echo(t: Termios, c: Char): seq<Char> {
    if !t.echo then []
    else if c == 10 then [10, 13]
    else if c < 32 then (if t.echoctl then [94, c + 64] else [])
    else [c]
  }

  /** What a mapped character does (tty_io.c:168-232). */
  function Type(t: Termios, st: State, c: Char): State {
    var line := st.cooked[|Committed(t, st.cooked)|..];
    if t.canon && c == t.kill then
      st.(cooked := Committed(t, st.cooked), echo := st.echo + RubOutAll(t, line))
    else if t.canon && c == t.erase then
      if line == [] then st
      else st.(cooked := st.cooked[..|st.cooked| - 1], echo := st.echo + RubOut(t, st.cooked[|st.cooked| - 1]))
    else if t.canon && c == t.stop then st.(stopped := true)
    else if t.canon && c == t.start then st.(stopped := false)
    else if t.isig && c == t.intr then st.(signals := st.signals + [INT])
    else if t.isig && c == t.quit then st.(signals := st.signals + [QUIT])
    else st.(cooked := st.cooked + [c], echo := st.echo + Echo(t, c))
  }

  function Step(t: Termios, st: State, raw: Char): State {
    match Map(t, raw)
    case Dropped => st
    case As(c) => Type(t, st, c)
  }

  function StepAll(t: Termios, st: State, raw: seq<Char>): State {
    if raw == [] then st else Step(t, StepAll(t, st, raw[..|raw| - 1]), raw[|raw| - 1])
  }

  /** How many lines are ended in s. */
  function Breaks(t: Termios, s: seq<Char>): nat {
    if s == [] then 0 else Breaks(t, s[..|s| - 1]) + if IsBreak(t, s[|s| - 1]) then 1 else 0
  }

  // ----- What the editor does with a line -----

  /** c goes into the line as it is. */
  predicate Plain(t: Termios, c: Char) {
    && !IsBreak(t, c) && !(t.canon && (c == t.kill || c == t.erase || c == t.stop || c == t.start))
    && !(t.isig && (c == t.intr || c == t.quit))
  }

  /** Finished lines are out of reach of any character typed later. */
  lemma TypeKeepsCommitted(t: Termios, st: State, c: Char)
    ensures Committed(t, st.cooked) <= Type(t, st, c).cooked
  {
  }

  /** Only a break finishes a line, and it adds one to their number. */
  lemma TypeCountsBreaks(t: Termios, st: State, c: Char)
    ensures Breaks(t, Type(t, st, c).cooked) == Breaks(t, st.cooked) + if Type(t, st, c).cooked == st.cooked + [c] && IsBreak(t, c) then 1 else 0
  {
    hide Breaks;
    BreaksOfCommitted(t, st.cooked);
    BreaksOfErased(t, st.cooked);
    BreaksAppend(t, st.cooked, c);
  }

  lemma BreaksAppend(t: Termios, s: seq<Char>, c: Char)
    ensures Breaks(t, s + [c]) == Breaks(t, s) + if IsBreak(t, c) then 1 else 0
  {
    assert (s + [c])[..|s|] == s;
  }

  lemma BreaksOfErased(t: Termios, s: seq<Char>)
    ensures s != [] && !IsBreak(t, s[|s| - 1]) ==> Breaks(t, s[..|s| - 1]) == Breaks(t, s)
  {
  }

  lemma RubNone(t: Termios, e: seq<Char>)
    ensures e + RubOutAll(t, []) == e
  {
  }

  /** Rubbing out the last character, then the rest. */
  lemma RubOne(t: Termios, e: seq<Char>, u: seq<Char>)
    requires u != []
    ensures e + RubOutAll(t, u) == e + RubOut(t, u[|u| - 1]) + RubOutAll(t, u[..|u| - 1])
  {
  }

  lemma {:induction false} BreaksOfCommitted(t: Termios, s: seq<Char>)
    ensures Breaks(t, Committed(t, s)) == Breaks(t, s)
  {
    if s != [] && !IsBreak(t, s[|s| - 1]) {
      BreaksOfCommitted(t, s[..|s| - 1]);
    }
  }

  /** Typing a plain character and erasing it leaves the line as it was, and rubs out all of its echo. */
  lemma EraseUndoes(t: Termios, st: State, c: Char, e: Char)
    requires t.canon && Plain(t, c) && e == t.erase && e != t.kill
    ensures Type(t, Type(t, st, c), e).cooked == st.cooked
    ensures Type(t, Type(t, st, c), e).echo == Type(t, st, c).echo + if !t.echo then [] else if c < 32 then [127, 127] else [127]
  {
    var s := st.cooked + [c];
    assert Type(t, st, c).cooked == s && s[..|s| - 1] == st.cooked;
    assert Committed(t, s) == Committed(t, st.cooked);
  }

  /** The plain characters of cs are typed one after another. */
  function TypeAll(t: Termios, st: State, cs: seq<Char>): State {
    if cs == [] then st else Type(t, TypeAll(t, st, cs[..|cs| - 1]), cs[|cs| - 1])
  }

  lemma TypePlainOne(t: Termios, st: State, c: Char)
    requires Plain(t, c)
    ensures Type(t, st, c).cooked == st.cooked + [c] && Committed(t, st.cooked + [c]) == Committed(t, st.cooked)
  {
    assert (st.cooked + [c])[..|st.cooked|] == st.cooked;
  }

  lemma {:induction false} TypePlain(t: Termios, st: State, cs: seq<Char>)
    requires forall c | c in cs :: Plain(t, c)
    ensures TypeAll(t, st, cs).cooked == st.cooked + cs && Committed(t, st.cooked + cs) == Committed(t, st.cooked)
  {
    hide Type, Committed, Plain;
    if cs == [] {
      assert st.cooked + cs == st.cooked;
    } else {
      var k := |cs| - 1;
      TypePlain(t, st, cs[..k]);
      assert st.cooked + cs == st.cooked + cs[..k] + [cs[k]];
      assert cs[k] in cs;
      TypePlainOne(t, TypeAll(t, st, cs[..k]), cs[k]);
    }
  }

  /** However much of a line was typed, kill goes back to the last newline or end of file. */
  lemma KillUndoes(t: Termios, st: State, cs: seq<Char>, k: Char)
    requires t.canon && (forall c | c in cs :: Plain(t, c)) && k == t.kill
    ensures Type(t, TypeAll(t, st, cs), k).cooked == Committed(t, st.cooked)
  {
    TypePlain(t, st, cs);
  }

  lemma {:induction false} BreaksConcat(t: Termios, a: seq<Char>, b: seq<Char>)
    ensures Breaks(t, a + b) == Breaks(t, a) + Breaks(t, b)
  {
    if b == [] {
      assert a + b == a;
    } else {
      assert (a + b)[..|a + b| - 1] == a + b[..|b| - 1];
      BreaksConcat(t, a, b[..|b| - 1]);
    }
  }

  // ----- What the user sees of one character -----

  /** CR and NL as the input flags say, capitals in lower case with IUCLC, all else as it comes. */
  predicate Arrives(t: Termios, raw: Char, c: Char) {
    if raw == 13 then (t.crnl && c == 10) || (!t.crnl && !t.nocr && c == 13)
    else if raw == 10 then c == if t.nlcr then 13 else 10
    else c == if t.uclc && 'A' as int <= raw <= 'Z' as int then raw + 32 else raw
  }

  predicate Edits(t: Termios, c: Char) {
    t.canon && (c == t.kill || c == t.erase || c == t.stop || c == t.start)
  }

  /** With IGNCR, and without ICRNL, a carriage return is as if it had not been typed. */
  lemma ReturnIgnored(t: Termios, st: State)
    ensures !t.crnl && t.nocr ==> Step(t, st, 13) == st
  {
  }

  /** The interrupt and the quit character send their signals and leave line and echo alone. */
  lemma SignalsSent(t: Termios, st: State, raw: Char, c: Char)
    requires Arrives(t, raw, c) && !Edits(t, c) && t.isig
    ensures c == t.intr ==> Step(t, st, raw) == st.(signals := st.signals + [INT])
    ensures c == t.quit && t.quit != t.intr ==> Step(t, st, raw) == st.(signals := st.signals + [QUIT])
  {
    hide Committed;
  }

  /** Stop and start hold and release the output, and do nothing else. */
  lemma OutputHeld(t: Termios, st: State, raw: Char, c: Char)
    requires Arrives(t, raw, c) && t.canon && c != t.kill && c != t.erase
    ensures c == t.stop ==> Step(t, st, raw) == st.(stopped := true)
    ensures c == t.start && t.start != t.stop ==> Step(t, st, raw) == st.(stopped := false)
  {
    hide Committed;
  }

  /**
    Any other character joins the line.  A newline is echoed as newline and carriage return, a control
    character as ^ and a capital or not at all, anything else as itself.
  */
  lemma CharacterTyped(t: Termios, st: State, raw: Char, c: Char)
    requires Arrives(t, raw, c) && !Edits(t, c) && !(t.isig && (c == t.intr || c == t.quit))
    ensures var r := Step(t, st, raw);
      && r == st.(cooked := st.cooked + [c], echo := r.echo)
      && (!t.echo ==> r.echo == st.echo)
      && (t.echo && c == 10 ==> r.echo == st.echo + [10, 13])
      && (t.echo && c != 10 && c < 32 && t.echoctl ==> r.echo == st.echo + ['^' as int, c + 64])
      && (t.echo && c != 10 && c < 32 && !t.echoctl ==> r.echo == st.echo)
      && (t.echo && c >= 32 ==> r.echo == st.echo + [c])
  {
    hide Committed;
  }

  /** c is an ordinary visible character under these settings. */
  predicate Visible(t: Termios, c: Char) {
    c >= 32 && Arrives(t, c, c) && !Edits(t, c) && !(t.isig && (c == t.intr || c == t.quit))
  }

  /** A line typed and ended with the return key stands in the input as typed, with a newline, and on the screen. */
  lemma {:induction false} LineTyped(t: Termios, st: State, text: seq<Char>)
    requires t.echo && t.crnl && !t.uclc && (forall c | c in text :: Visible(t, c))
    requires !Edits(t, 10) && !(t.isig && (10 == t.intr || 10 == t.quit))
    ensures StepAll(t, st, text) == st.(cooked := st.cooked + text, echo := st.echo + text)
    ensures StepAll(t, st, text + [13]) == st.(cooked := st.cooked + text + [10], echo := st.echo + text + [10, 13])
  {
    hide Step, Visible, Edits, Arrives;
    if text == [] {
      assert st.cooked + text == st.cooked && st.echo + text == st.echo;
    } else {
      var k := |text| - 1;
      assert forall c | c in text[..k] :: c in text;
      LineTyped(t, st, text[..k]);
      assert text[k] in text;
      VisibleTyped(t, StepAll(t, st, text[..k]), text[k]);
      assert st.cooked + text == st.cooked + text[..k] + [text[k]] && st.echo + text == st.echo + text[..k] + [text[k]];
    }
    assert (text + [13])[..|text|] == text;
    ReturnTyped(t, StepAll(t, st, text));
  }

  lemma VisibleTyped(t: Termios, st: State, c: Char)
    requires t.echo && Visible(t, c)
    ensures Step(t, st, c) == st.(cooked := st.cooked + [c], echo := st.echo + [c])
  {
    hide Step;
    CharacterTyped(t, st, c, c);
  }

  lemma ReturnTyped(t: Termios, st: State)
    requires t.echo && t.crnl && !t.uclc && !Edits(t, 10) && !(t.isig && (10 == t.intr || 10 == t.quit))
    ensures Step(t, st, 13) == st.(cooked := st.cooked + [10], echo := st.echo + [10, 13])
  {
    hide Step;
    CharacterTyped(t, st, 13, 10);
  }

  // ----- Reading -----

  /** What a read of n characters is given: no end of file and nothing behind one. */
  function Given(t: Termios, s: seq<Char>, n: nat): (b: seq<Char>)
    ensures |b| <= n && b <= s
  {
    if s == [] || n == 0 || (t.canon && s[0] == t.eof) then [] else [s[0]] + Given(t, s[1..], n - 1)
  }

  /** b has been given out of s, rest is left, and the read still wants n of its n0 characters. */
  ghost predicate GivenSoFar(t: Termios, s: seq<Char>, n0: nat, b: seq<Char>, rest: seq<Char>, n: nat) {
    s == b + rest && n + |b| == n0 && Given(t, s, n0) == b + Given(t, rest, n)
  }

  lemma GivenNone(t: Termios, s: seq<Char>, n: nat)
    ensures GivenSoFar(t, s, n, [], s, n)
  {
  }

  lemma GivenOneMore(t: Termios, s: seq<Char>, n0: nat, b: seq<Char>, rest: seq<Char>, n: nat)
    requires GivenSoFar(t, s, n0, b, rest, n) && rest != [] && n > 0
    ensures if t.canon && rest[0] == t.eof then s == b + [rest[0]] + rest[1..] && Given(t, s, n0) == b
      else GivenSoFar(t, s, n0, b + [rest[0]], rest[1..], n - 1)
  {
    GivenHead(t, rest, n);
    hide Given;
    Regroup(b, rest[0], rest[1..]);
    assert rest == [rest[0]] + rest[1..];
    if !(t.canon && rest[0] == t.eof) {
      Regroup(b, rest[0], Given(t, rest[1..], n - 1));
    }
  }

  lemma GivenHead(t: Termios, s: seq<Char>, n: nat)
    requires s != [] && n > 0
    ensures Given(t, s, n) == if t.canon && s[0] == t.eof then [] else [s[0]] + Given(t, s[1..], n - 1)
  {
  }

  lemma Regroup(a: seq<Char>, x: Char, b: seq<Char>)
    ensures a + ([x] + b) == a + [x] + b
  {
  }

  lemma GivenAll(t: Termios, s: seq<Char>, n0: nat, b: seq<Char>, rest: seq<Char>, n: nat)
    requires GivenSoFar(t, s, n0, b, rest, n)
    ensures s == b + rest && n + |b| == n0 && (rest == [] || n == 0 ==> Given(t, s, n0) == b)
  {
  }

  /** The length of the first line, with its newline. */
  function FirstLine(s: seq<Char>): (n: nat)
    ensures n <= |s|
  {
    if s == [] then 0 else if s[0] == 10 then 1 else 1 + FirstLine(s[1..])
  }

  /** Nothing follows the first newline. */
  predicate OneLine(b: seq<Char>) {
    forall k | 0 <= k < |b| - 1 :: b[k] != 10
  }

  /** The reader asks for no more than the first line, or there is no more, or an end of file comes in between. */
  predicate AsksForLine(t: Termios, s: seq<Char>, n: nat) {
    var l := FirstLine(s);
    n <= l || l == |s| || s[l] == t.eof || t.eof in s[..l]
  }

  /** A canonical read is given at most one line if and only if it asks for no more. */
  lemma {:induction false} OneLineGiven(t: Termios, s: seq<Char>, n: nat)
    requires t.canon
    ensures OneLine(Given(t, s, n)) <==> AsksForLine(t, s, n)
  {
    hide Given, AsksForLine, OneLine, FirstLine;
    if s == [] || n == 0 || s[0] == t.eof {
      AsksForNothing(t, s, n);
    } else {
      OneLineGiven(t, s[1..], n - 1);
      GivenHead(t, s, n);
      OneLineCons(s[0], Given(t, s[1..], n - 1));
      if s[0] == 10 {
        AsksAtNewline(t, s, n);
      } else {
        AsksNext(t, s, n);
      }
    }
  }

  lemma AsksForNothing(t: Termios, s: seq<Char>, n: nat)
    requires t.canon && (s == [] || n == 0 || s[0] == t.eof)
    ensures AsksForLine(t, s, n) && OneLine(Given(t, s, n))
  {
    if s != [] && n > 0 {
      assert s[..FirstLine(s)][0] == s[0];
    }
  }

  lemma OneLineCons(x: Char, b: seq<Char>)
    ensures OneLine([x] + b) <==> OneLine(b) && (b == [] || x != 10)
  {
    var r := [x] + b;
    if OneLine(r) {
      forall k | 0 <= k < |b| - 1 ensures b[k] != 10 {
        assert r[k + 1] == b[k];
      }
      assert r[0] == x;
    }
  }

  lemma AsksNext(t: Termios, s: seq<Char>, n: nat)
    requires s != [] && n > 0 && s[0] != 10 && s[0] != t.eof
    ensures AsksForLine(t, s, n) <==> AsksForLine(t, s[1..], n - 1)
  {
    var l := FirstLine(s);
    assert s[..l] == [s[0]] + s[1..][..l - 1];
  }

  lemma AsksAtNewline(t: Termios, s: seq<Char>, n: nat)
    requires s != [] && n > 0 && s[0] == 10 != t.eof && t.canon
    ensures AsksForLine(t, s, n) <==> Given(t, s[1..], n - 1) == []
    ensures Given(t, s[1..], n - 1) == [] ==> OneLine(Given(t, s[1..], n - 1))
  {
    assert s[..1] == [s[0]];
    if |s| > 1 && n > 1 {
      assert s[1..][0] == s[1];
    }
  }

  /** Two lines have been typed, and a read of four characters is given both. */
  lemma TwoLinesAtOnce(t: Termios)
    requires t.canon && t.eof == 4
    ensures var s: seq<Char> := [97, 10, 98, 10]; Given(t, s, 4) == s && !OneLine(s)
  {
    var s: seq<Char> := [97, 10, 98, 10];
    assert s[1..] == [10, 98, 10] && s[2..] == [98, 10] && s[3..] == [10];
    assert s[1..][1..] == s[2..] && s[2..][1..] == s[3..] && s[3..][1..] == [];
    assert Given(t, s[3..], 1) == [10] && Given(t, s[2..], 2) == [98, 10];
    assert Given(t, s[1..], 3) == [10, 98, 10];
    assert s[1] == 10;
  }
}
