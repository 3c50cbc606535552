/**
  A plain VT100-style terminal: a screen of cells that scrolls by copying rows, and the control
  functions of linux-0.11/kernel/chr_drv/console.c on it.
*/
module Screen {
  import opened Bytes

  type Cell = c: nat | c < 0x1_0000

  const ERASE: Cell := 0x0720       // video_erase_char
  const NPAR := 16

  /** What the user sees and what the emulator remembers. */
  datatype Term = Term(cols: nat, rows: nat, screen: seq<Cell>, x: nat, y: nat, top: nat, bottom: nat, attr: nat,
                       state: nat, npar: nat, par: seq<Word32>, savedX: nat, savedY: nat)

  /** The cursor may stand one column past the end of its row. */
  ghost predicate TermOk(t: Term) {
    && 8 <= t.cols < 0x1_0000 && t.cols % 2 == 0 && 1 <= t.rows < 0x1_0000 && |t.screen| == Row(t.rows, t.cols)
    && t.x <= t.cols && t.y < t.rows && t.top < t.bottom <= t.rows && t.attr < 256
    && t.state <= 3 && t.npar < NPAR && |t.par| == NPAR && t.savedX <= t.cols && t.savedY < t.rows
  }

  function Unsigned(n: int): Word32 {
    n % 0x1_0000_0000
  }

  /** The first cell of row r. */
  function Row(r: nat, cols: nat): nat {
    r * cols
  }

  lemma RowFits(r: nat, rows: nat, cols: nat)
    requires r < rows
    ensures Row(r, cols) + cols <= Row(rows, cols)
  {
    RowsAscend(r + 1, rows, cols);
    NextRow(r, cols);
  }

  lemma NextRow(r: nat, cols: nat)
    ensures Row(0, cols) == 0 && Row(r + 1, cols) == Row(r, cols) + cols
  {
  }

  lemma RowsAscend(a: nat, b: nat, cols: nat)
    requires a <= b
    ensures Row(a, cols) <= Row(b, cols)
  {
  }

  // ----- Changing cells -----

  /** Cells [a, b) are erased. */
  function Erased(s: seq<Cell>, a: int, b: int): (r: seq<Cell>)
    ensures |r| == |s| && forall i {:trigger r[i]} | 0 <= i < |s| :: r[i] == if a <= i < b then ERASE else s[i]
  {
    seq(|s|, i requires 0 <= i < |s| => if a <= i < b then ERASE else s[i])
  }

  /** The cells [a, b) move n places down the sequence, and [a, a + n) is erased: rows go down. */
  function ShiftedUp(s: seq<Cell>, a: nat, b: nat, n: nat): (r: seq<Cell>)
    requires b <= |s|
    ensures |r| == |s| && forall i {:trigger r[i]} | 0 <= i < |s| :: r[i] == if a <= i < b then (if i + n < b then s[i + n] else ERASE) else s[i]
  {
    seq(|s|, i requires 0 <= i < |s| => if a <= i < b then (if i + n < b then s[i + n] else ERASE) else s[i])
  }

  function ShiftedDown(s: seq<Cell>, a: nat, b: nat, n: nat): (r: seq<Cell>)
    requires b <= |s|
    ensures |r| == |s| && forall i {:trigger r[i]} | 0 <= i < |s| :: r[i] == if a <= i < b then (if i - n >= a then s[i - n] else ERASE) else s[i]
  {
    seq(|s|, i requires 0 <= i < |s| => if a <= i < b then (if i - n >= a then s[i - n] else ERASE) else s[i])
  }

  // ----- Control functions -----

  /** gotoxy (console.c:88-96) on unsigned coordinates. */
  function Goto(t: Term, x: Word32, y: Word32): Term {
    if x > t.cols || y >= t.rows then t else t.(x := x, y := y)
  }

  /** The row-copying scroll of rows [top, bottom) (console.c:139-162). */
  function ScrollUp(t: Term, top: nat, bottom: nat): Term {
    if Row(bottom, t.cols) <= |t.screen| then t.(screen := ShiftedUp(t.screen, Row(top, t.cols), Row(bottom, t.cols), t.cols)) else t
  }

  /** console.c:170-195. */
  function ScrollDown(t: Term, top: nat, bottom: nat): Term {
    if Row(bottom, t.cols) <= |t.screen| then t.(screen := ShiftedDown(t.screen, Row(top, t.cols), Row(bottom, t.cols), t.cols)) else t
  }

  function Lf(t: Term): Term {
    if t.y + 1 < t.bottom then t.(y := t.y + 1) else ScrollUp(t, t.top, t.bottom)
  }

  function Ri(t: Term): Term {
    if t.y > t.top then t.(y := t.y - 1) else ScrollDown(t, t.top, t.bottom)
  }

  function Place(t: Term): nat {
    Row(t.y, t.cols) + t.x
  }

  function Del(t: Term): Term {
    if t.x > 0 then t.(x := t.x - 1, screen := Erased(t.screen, Place(t) - 1, Place(t))) else t
  }

  /** csi_J (console.c:234-259). */
  function EraseDisplay(t: Term, par: Word32): Term {
    if par == 0 then t.(screen := Erased(t.screen, Place(t), |t.screen|))
    else if par == 1 then t.(screen := Erased(t.screen, 0, Place(t)))
    else if par == 2 then t.(screen := Erased(t.screen, 0, |t.screen|))
    else t
  }

  /** csi_K (console.c:261-288). */
  function EraseLine(t: Term, par: Word32): Term {
    var row := Row(t.y, t.cols);
    if par == 0 then t.(screen := Erased(t.screen, Place(t), row + t.cols))
    else if par == 1 then t.(screen := Erased(t.screen, row, Place(t)))
    else if par == 2 then t.(screen := Erased(t.screen, row, row + t.cols))
    else t
  }

  function InsertChar(t: Term): Term {
    var end := Row(t.y, t.cols) + t.cols;
    if end <= |t.screen| then t.(screen := ShiftedDown(t.screen, Place(t), end, 1)) else t
  }

  function DeleteChar(t: Term): Term {
    var end := Row(t.y, t.cols) + t.cols;
    if end <= |t.screen| then t.(screen := ShiftedUp(t.screen, Place(t), end, 1)) else t
  }

  function InsertLine(t: Term): Term {
    ScrollDown(t, t.y, t.rows)
  }

  function DeleteLine(t: Term): Term {
    ScrollUp(t, t.y, t.rows)
  }

  datatype Edit = CharIn | CharOut | LineIn | LineOut

  function Once(t: Term, e: Edit): Term {
    match e
    case CharIn => InsertChar(t)
    case CharOut => DeleteChar(t)
    case LineIn => InsertLine(t)
    case LineOut => DeleteLine(t)
  }

  function Times(t: Term, e: Edit, n: nat): Term {
    if n == 0 then t else Once(Times(t, e, n - 1), e)
  }

  /** csi_at, csi_L, csi_P and csi_M (console.c:386-424). */
  function Repeated(t: Term, e: Edit, nr: Word32): Term {
    var most := if e.CharIn? || e.CharOut? then t.cols else t.rows;
    Times(t, e, if nr > most then most else if nr == 0 then 1 else nr)
  }

  /** csi_m (console.c:290-302). */
  function Attr(attr: nat, p: Word32): nat {
    if p == 0 || p == 27 then 0x07 else if p == 1 || p == 4 then 0x0f else if p == 7 then 0x70 else attr
  }

  function Attrs(attr: nat, par: seq<Word32>, n: nat): nat
    requires n <= |par|
  {
    if n == 0 then attr else Attr(Attrs(attr, par, n - 1), par[n - 1])
  }

  /** The scrolling region (console.c:600-609). */
  function Region(t: Term, a: Word32, b: Word32): Term {
    var top := if a > 0 then a - 1 else 0;
    var bottom := if b == 0 then t.rows else b;
    if top < bottom <= t.rows then t.(top := top, bottom := bottom) else t
  }

  // ----- The state machine of console_write -----

  /** A count of at least one, and a coordinate counted from one. */
  function AtLeastOne(p: Word32): Word32 {
    if p == 0 then 1 else p
  }

  function FromOne(p: Word32): Word32 {
    if p == 0 then 0 else p - 1
  }

  /** A control sequence with final character c (console.c:525-616). */
  function Dispatch(t: Term, c: int): Term
    requires |t.par| == NPAR && t.npar < NPAR
  {
    var a, b := t.par[0], t.par[1];
    if c == 'G' as int || c == '`' as int then Goto(t, FromOne(a), Unsigned(t.y))
    else if c == 'A' as int then Goto(t, Unsigned(t.x), Unsigned(t.y - AtLeastOne(a)))
    else if c == 'B' as int || c == 'e' as int then Goto(t, Unsigned(t.x), Unsigned(t.y + AtLeastOne(a)))
    else if c == 'C' as int || c == 'a' as int then Goto(t, Unsigned(t.x + AtLeastOne(a)), Unsigned(t.y))
    else if c == 'D' as int then Goto(t, Unsigned(t.x - AtLeastOne(a)), Unsigned(t.y))
    else if c == 'E' as int then Goto(t, 0, Unsigned(t.y + AtLeastOne(a)))
    else if c == 'F' as int then Goto(t, 0, Unsigned(t.y - AtLeastOne(a)))
    else if c == 'd' as int then Goto(t, Unsigned(t.x), FromOne(a))
    else if c == 'H' as int || c == 'f' as int then Goto(t, FromOne(b), FromOne(a))
    else if c == 'J' as int then EraseDisplay(t, a)
    else if c == 'K' as int then EraseLine(t, a)
    else if c == 'L' as int then Repeated(t, LineIn, a)
    else if c == 'M' as int then Repeated(t, LineOut, a)
    else if c == 'P' as int then Repeated(t, CharOut, a)
    else if c == '@' as int then Repeated(t, CharIn, a)
    else if c == 'm' as int then t.(attr := Attrs(t.attr, t.par, t.npar + 1))
    else if c == 'r' as int then Region(t, a, b)
    else if c == 's' as int then t.(savedX := t.x, savedY := t.y)
    else if c == 'u' as int then Goto(t, Unsigned(t.savedX), Unsigned(t.savedY))
    else t
  }

  /** Past the end of a row the next character starts the next one (console.c:452-456). */
  function Wrap(t: Term): Term {
    if t.x >= t.cols then Lf(t.(x := t.x - t.cols)) else t
  }

  function Show(t: Term, c: nat): Term
    requires c < 256 && t.attr < 256
  {
    var w := Wrap(t);
    if Place(w) < |w.screen| then w.(screen := w.screen[Place(w) := 256 * t.attr + c], x := w.x + 1) else w
  }

  function Tab(t: Term): Term {
    var x := t.x + (8 - t.x % 8);
    if x > t.cols then Lf(t.(x := x - t.cols)) else t.(x := x)
  }

  /** console.c:449-489; erase is the erase character of the terminal. */
  function Ground(t: Term, c: int, erase: nat): Term
    requires t.attr < 256
  {
    if 31 < c < 127 then Show(t, c)
    else if c == 27 then t.(state := 1)
    else if c == 10 || c == 11 || c == 12 then Lf(t)
    else if c == 13 then t.(x := 0)
    else if c == erase then Del(t)
    else if c == 8 then (if t.x > 0 then t.(x := t.x - 1) else t)
    else if c == 9 then Tab(t)
    else t
  }

  /** console.c:490-507. */
  function Escape(t: Term, c: int): Term {
    if c == '[' as int then t.(state := 2)
    else
      var u := t.(state := 0);
      if c == 'E' as int then Goto(u, 0, Unsigned(u.y + 1))
      else if c == 'M' as int then Ri(u)
      else if c == 'D' as int then Lf(u)
      else if c == '7' as int then u.(savedX := u.x, savedY := u.y)
      else if c == '8' as int then Goto(u, Unsigned(u.savedX), Unsigned(u.savedY))
      else u
  }

  /** console.c:515-616, with the parameters collected so far. */
  function Collect(t: Term, c: int): Term
    requires |t.par| == NPAR && t.npar < NPAR
  {
    if c == ';' as int && t.npar < NPAR - 1 then t.(npar := t.npar + 1)
    else if '0' as int <= c <= '9' as int then t.(par := t.par[t.npar := Unsigned(10 * t.par[t.npar] + c - '0' as int)])
    else Dispatch(t.(state := 0), c)
  }

  /** One character of output. */
  function Put(t: Term, c: int, erase: nat): Term
    requires TermOk(t)
  {
    if t.state == 0 then Ground(t, c, erase)
    else if t.state == 1 then Escape(t, c)
    else if t.state == 2 then
      var u := t.(npar := 0, par := seq(NPAR, _ => 0), state := 3);
      if c == '?' as int then u else Collect(u, c)
    else Collect(t, c)
  }

  // ----- The cursor and the region stay within the screen -----

  lemma LfOk(t: Term)
    requires TermOk(t)
    ensures TermOk(Lf(t)) && Lf(t) == t.(y := Lf(t).y, screen := Lf(t).screen) && |Lf(t).screen| == |t.screen|
  {
  }

  lemma RiOk(t: Term)
    requires TermOk(t)
    ensures TermOk(Ri(t))
  {
  }

  lemma WrapOk(t: Term)
    requires TermOk(t)
    ensures TermOk(Wrap(t)) && |Wrap(t).screen| == |t.screen| && Wrap(t).x < t.cols && Wrap(t).attr == t.attr
    ensures Place(Wrap(t)) < |t.screen| && Wrap(t).cols == t.cols
  {
    hide Lf;
    if t.x >= t.cols {
      LfOk(t.(x := t.x - t.cols));
    }
    var w := Wrap(t);
    RowFits(w.y, w.rows, w.cols);
  }

  /** A character is shown in the cell of the cursor, after a line feed if the cursor was past the end of its row. */
  lemma ShowOk(t: Term, c: nat)
    requires TermOk(t) && c < 256
    ensures Place(Wrap(t)) < |Wrap(t).screen| && TermOk(Show(t, c))
    ensures Show(t, c) == Wrap(t).(screen := Wrap(t).screen[Place(Wrap(t)) := 256 * t.attr + c], x := Wrap(t).x + 1)
  {
    hide Wrap, Place;
    WrapOk(t);
  }

  lemma TabOk(t: Term)
    requires TermOk(t)
    ensures TermOk(Tab(t))
  {
    hide Lf;
    var x := t.x + (8 - t.x % 8);
    if x > t.cols {
      LfOk(t.(x := x - t.cols));
    }
  }

  lemma {:induction false} TimesOk(t: Term, e: Edit, n: nat)
    requires TermOk(t)
    ensures TermOk(Times(t, e, n)) && Times(t, e, n) == t.(screen := Times(t, e, n).screen)
  {
    if n > 0 {
      TimesOk(t, e, n - 1);
    }
  }

  lemma {:induction false} AttrsOk(attr: nat, par: seq<Word32>, n: nat)
    requires n <= |par| && attr < 256
    ensures Attrs(attr, par, n) < 256
  {
    if n > 0 {
      AttrsOk(attr, par, n - 1);
    }
  }

  lemma GotoOk(t: Term)
    requires TermOk(t)
    ensures forall x: Word32, y: Word32 :: TermOk(Goto(t, x, y))
  {
  }

  lemma RegionOk(t: Term, a: Word32, b: Word32)
    requires TermOk(t)
    ensures TermOk(Region(t, a, b))
  {
  }

  lemma EditsOk(t: Term, a: Word32)
    requires TermOk(t)
    ensures TermOk(EraseDisplay(t, a)) && TermOk(EraseLine(t, a))
  {
  }

  lemma DispatchOk(t: Term, c: int)
    requires TermOk(t)
    ensures TermOk(Dispatch(t, c))
  {
    hide Erased, Times, Attrs, Goto, Region, EraseDisplay, EraseLine;
    EditsOk(t, t.par[0]);
    GotoOk(t);
    RegionOk(t, t.par[0], t.par[1]);
    AttrsOk(t.attr, t.par, t.npar + 1);
    forall e, n: nat ensures TermOk(Times(t, e, n)) {
      TimesOk(t, e, n);
    }
  }

  lemma GroundOk(t: Term, c: int, erase: nat)
    requires TermOk(t)
    ensures TermOk(Ground(t, c, erase))
  {
    hide Show, Lf, Tab;
    if 31 < c < 127 {
      ShowOk(t, c);
    }
    LfOk(t);
    TabOk(t);
  }

  lemma EscapeOk(t: Term, c: int)
    requires TermOk(t)
    ensures TermOk(Escape(t, c))
  {
    hide Lf, Ri;
    LfOk(t.(state := 0));
    RiOk(t.(state := 0));
  }

  lemma CollectOk(t: Term, c: int)
    requires TermOk(t)
    ensures TermOk(Collect(t, c))
  {
    hide Dispatch;
    DispatchOk(t.(state := 0), c);
  }

  /** Whatever is written, the cursor and the scrolling region stay within the screen. */
  lemma PutKeepsOk(t: Term, c: int, erase: nat)
    requires TermOk(t)
    ensures TermOk(Put(t, c, erase))
  {
    hide Ground, Escape, Collect;
    GroundOk(t, c, erase);
    EscapeOk(t, c);
    CollectOk(t, c);
    var u := t.(npar := 0, par := seq(NPAR, _ => 0), state := 3);
    CollectOk(u, c);
  }

  function PutAll(t: Term, chars: seq<int>, erase: nat): (r: Term)
    requires TermOk(t)
    ensures TermOk(r)
  {
    if chars == [] then t
    else
      var u := PutAll(t, chars[..|chars| - 1], erase);
      PutKeepsOk(u, chars[|chars| - 1], erase);
      Put(u, chars[|chars| - 1], erase)
  }
}
