/**
  What the console of linux-0.11/kernel/chr_drv/console.c does with each character and each control
  function written to it, as rows, columns and the cell in them.  ESC [ parameters final comes with any
  number of parameters up to 16; those left out count as 0.  0x0720 is a blank cell.
*/
module ControlFunctions {
  import opened Bytes
  import opened Screen
  import opened ControlSequences

  function CellAt(t: Term, i: nat, j: nat): Cell
    requires |t.screen| == Row(t.rows, t.cols) && i < t.rows && j < t.cols
  {
    RowFits(i, t.rows, t.cols);
    t.screen[Row(i, t.cols) + j]
  }

  /** Cells follow one another row by row; the cursor may stand just past the end of its row. */
  lemma Order(cols: nat, i: nat, j: nat, y: nat, x: nat)
    requires j < cols && x <= cols
    ensures Row(i, cols) + j < Row(y, cols) + x <==> i < y || (i == y && j < x)
    ensures x < cols ==> (Row(i, cols) + j == Row(y, cols) + x <==> i == y && j == x)
  {
    hide Row;
    if i < y {
      RowsAscend(i + 1, y, cols);
      NextRow(i, cols);
    } else if i > y {
      RowsAscend(y + 1, i, cols);
      NextRow(y, cols);
    }
  }

  lemma ErasedCells(t: Term, u: Term, a: int, b: int, i: nat, j: nat)
    requires TermOk(t) && i < t.rows && j < t.cols && u == t.(screen := Erased(t.screen, a, b))
    ensures CellAt(u, i, j) == if a <= Row(i, t.cols) + j < b then 0x0720 else CellAt(t, i, j)
  {
    RowFits(i, t.rows, t.cols);
  }

  // ----- Erasing -----

  /**
    ED: from the cursor to the end of the display, from its start up to the cursor, or all of it.  (In
    section 8.3.39 of ECMA-48 the second form includes the cursor's own cell; the console leaves it.)
  */
  lemma EraseInDisplay(t: Term, ds: seq<seq<int>>, ns: seq<Word32>, erase: nat, i: nat, j: nat)
    requires TermOk(t) && t.state == 0 && Written(ds, ns) && i < t.rows && j < t.cols
    ensures var r := PutAll(t, Csi(ds, 'J' as int), erase); var n := ns[0];
      && r == AtFinal(t, ns).(screen := r.screen) && |r.screen| == |t.screen|
      && CellAt(r, i, j) ==
           if || (n == 0 && (i > t.y || (i == t.y && j >= t.x)))
              || (n == 1 && (i < t.y || (i == t.y && j < t.x)))
              || n == 2
           then 0x0720 else CellAt(t, i, j)
  {
    hide Row, Erased, Put, PutAll;
    SequenceRead(t, ds, ns, 'J' as int, erase);
    var u := AtFinal(t, ns);
    Order(t.cols, i, j, t.y, t.x);
    RowFits(i, t.rows, t.cols);
    ErasedCells(u, u.(screen := Erased(u.screen, Place(u), |u.screen|)), Place(u), |u.screen|, i, j);
    ErasedCells(u, u.(screen := Erased(u.screen, 0, Place(u))), 0, Place(u), i, j);
    ErasedCells(u, u.(screen := Erased(u.screen, 0, |u.screen|)), 0, |u.screen|, i, j);
  }

  /** EL: the same within the row of the cursor. */
  lemma EraseInLine(t: Term, ds: seq<seq<int>>, ns: seq<Word32>, erase: nat, i: nat, j: nat)
    requires TermOk(t) && t.state == 0 && Written(ds, ns) && i < t.rows && j < t.cols
    ensures var r := PutAll(t, Csi(ds, 'K' as int), erase); var n := ns[0];
      && r == AtFinal(t, ns).(screen := r.screen) && |r.screen| == |t.screen|
      && CellAt(r, i, j) ==
           if i == t.y && ((n == 0 && j >= t.x) || (n == 1 && j < t.x) || n == 2) then 0x0720 else CellAt(t, i, j)
  {
    hide Row, Erased, Put, PutAll;
    SequenceRead(t, ds, ns, 'K' as int, erase);
    var u, row := AtFinal(t, ns), Row(t.y, t.cols);
    Order(t.cols, i, j, t.y, t.x);
    Order(t.cols, i, j, t.y, 0);
    Order(t.cols, i, j, t.y, t.cols);
    ErasedCells(u, u.(screen := Erased(u.screen, Place(u), row + u.cols)), Place(u), row + u.cols, i, j);
    ErasedCells(u, u.(screen := Erased(u.screen, row, Place(u))), row, Place(u), i, j);
    ErasedCells(u, u.(screen := Erased(u.screen, row, row + u.cols)), row, row + u.cols, i, j);
  }

  // ----- Moving the cursor -----

  /** The cursor in column x of row y if there is one, column cols being just past the end of the row. */
  function Moved(t: Term, x: nat, y: nat): Term {
    if x <= t.cols && y < t.rows then t.(x := x, y := y) else t
  }

  lemma GotoMoved(t: Term, x: int, y: int)
    requires TermOk(t)
    ensures Goto(t, Unsigned(x), Unsigned(y)) == Moved(t, x % 0x1_0000_0000, y % 0x1_0000_0000)
    ensures 0 <= x < 0x1_0000_0000 ==> Unsigned(x) == x
  {
  }

  lemma ByRows(t: Term, n: nat)
    requires TermOk(t) && n == AtLeastOne(t.par[0])
    ensures Dispatch(t, 'A' as int) == Goto(t, Unsigned(t.x), Unsigned(t.y - n))
    ensures Dispatch(t, 'B' as int) == Dispatch(t, 'e' as int) == Goto(t, Unsigned(t.x), Unsigned(t.y + n))
    ensures Dispatch(t, 'E' as int) == Goto(t, 0, Unsigned(t.y + n)) && Dispatch(t, 'F' as int) == Goto(t, 0, Unsigned(t.y - n))
  {
    hide Goto, Unsigned;
  }

  lemma ByColumns(t: Term, n: nat)
    requires TermOk(t) && n == AtLeastOne(t.par[0])
    ensures Dispatch(t, 'C' as int) == Dispatch(t, 'a' as int) == Goto(t, Unsigned(t.x + n), Unsigned(t.y))
    ensures Dispatch(t, 'D' as int) == Goto(t, Unsigned(t.x - n), Unsigned(t.y))
  {
    hide Goto, Unsigned;
  }

  lemma ToPlace(t: Term, n: Word32, m: Word32)
    requires TermOk(t) && n == FromOne(t.par[0]) && m == FromOne(t.par[1])
    ensures Dispatch(t, 'G' as int) == Dispatch(t, '`' as int) == Goto(t, n, Unsigned(t.y))
    ensures Dispatch(t, 'd' as int) == Goto(t, Unsigned(t.x), n)
    ensures Dispatch(t, 'H' as int) == Dispatch(t, 'f' as int) == Goto(t, m, n)
  {
    hide Goto, Unsigned;
  }

  /**
    CUU, CUD, CNL and CPL go at least one row.  A place outside the screen is refused, not approached,
    and unsigned arithmetic wraps.
  */
  lemma CursorByRows(t: Term, ds: seq<seq<int>>, ns: seq<Word32>, erase: nat)
    requires TermOk(t) && t.state == 0 && Written(ds, ns)
    ensures var u := AtFinal(t, ns); var n := if ns[0] == 0 then 1 else ns[0];
      && PutAll(t, Csi(ds, 'A' as int), erase) == Moved(u, t.x, (t.y - n) % 0x1_0000_0000)
      && PutAll(t, Csi(ds, 'B' as int), erase) == Moved(u, t.x, (t.y + n) % 0x1_0000_0000)
      && PutAll(t, Csi(ds, 'e' as int), erase) == Moved(u, t.x, (t.y + n) % 0x1_0000_0000)
      && PutAll(t, Csi(ds, 'E' as int), erase) == Moved(u, 0, (t.y + n) % 0x1_0000_0000)
      && PutAll(t, Csi(ds, 'F' as int), erase) == Moved(u, 0, (t.y - n) % 0x1_0000_0000)
  {
    hide Put, PutAll, Csi, Dispatch, Goto, Unsigned, Moved;
    var u := AtFinal(t, ns);
    var n := AtLeastOne(ns[0]);
    ByRows(u, n);
    GotoMoved(u, t.x, t.y - n);
    GotoMoved(u, t.x, t.y + n);
    GotoMoved(u, 0, t.y + n);
    GotoMoved(u, 0, t.y - n);
    SequenceRead(t, ds, ns, 'A' as int, erase);
    SequenceRead(t, ds, ns, 'B' as int, erase);
    SequenceRead(t, ds, ns, 'e' as int, erase);
    SequenceRead(t, ds, ns, 'E' as int, erase);
    SequenceRead(t, ds, ns, 'F' as int, erase);
  }

  /** CUF and CUB likewise within the row. */
  lemma CursorByColumns(t: Term, ds: seq<seq<int>>, ns: seq<Word32>, erase: nat)
    requires TermOk(t) && t.state == 0 && Written(ds, ns)
    ensures var u := AtFinal(t, ns); var n := if ns[0] == 0 then 1 else ns[0];
      && PutAll(t, Csi(ds, 'C' as int), erase) == Moved(u, (t.x + n) % 0x1_0000_0000, t.y)
      && PutAll(t, Csi(ds, 'a' as int), erase) == Moved(u, (t.x + n) % 0x1_0000_0000, t.y)
      && PutAll(t, Csi(ds, 'D' as int), erase) == Moved(u, (t.x - n) % 0x1_0000_0000, t.y)
  {
    hide Put, PutAll, Csi, Dispatch, Goto, Unsigned, Moved;
    var u := AtFinal(t, ns);
    var n := AtLeastOne(ns[0]);
    ByColumns(u, n);
    GotoMoved(u, t.x + n, t.y);
    GotoMoved(u, t.x - n, t.y);
    SequenceRead(t, ds, ns, 'C' as int, erase);
    SequenceRead(t, ds, ns, 'a' as int, erase);
    SequenceRead(t, ds, ns, 'D' as int, erase);
  }

  /** CHA, VPA, CUP and HVP: to the column, the row, or both, counted from 1. */
  lemma CursorTo(t: Term, ds: seq<seq<int>>, ns: seq<Word32>, erase: nat)
    requires TermOk(t) && t.state == 0 && Written(ds, ns)
    ensures var u := AtFinal(t, ns);
      var n := if ns[0] == 0 then 1 else ns[0]; var m := if |ns| < 2 || ns[1] == 0 then 1 else ns[1];
      && PutAll(t, Csi(ds, 'G' as int), erase) == Moved(u, n - 1, t.y)
      && PutAll(t, Csi(ds, '`' as int), erase) == Moved(u, n - 1, t.y)
      && PutAll(t, Csi(ds, 'd' as int), erase) == Moved(u, t.x, n - 1)
      && PutAll(t, Csi(ds, 'H' as int), erase) == Moved(u, m - 1, n - 1)
      && PutAll(t, Csi(ds, 'f' as int), erase) == Moved(u, m - 1, n - 1)
  {
    hide Put, PutAll, Csi, Dispatch, Unsigned;
    var u := AtFinal(t, ns);
    assert u.par[1] == if |ns| < 2 then 0 else ns[1];
    ToPlace(u, FromOne(u.par[0]), FromOne(u.par[1]));
    GotoMoved(u, t.x, t.y);
    GotoMoved(u, t.y, t.y);
    SequenceRead(t, ds, ns, 'G' as int, erase);
    SequenceRead(t, ds, ns, '`' as int, erase);
    SequenceRead(t, ds, ns, 'd' as int, erase);
    SequenceRead(t, ds, ns, 'H' as int, erase);
    SequenceRead(t, ds, ns, 'f' as int, erase);
  }

  // ----- Shifting within a row -----

  lemma CharInCells(t: Term, i: nat, j: nat)
    requires TermOk(t) && i < t.rows && j < t.cols
    ensures var u := InsertChar(t);
      && u == t.(screen := u.screen) && |u.screen| == |t.screen|
      && CellAt(u, i, j) == if i == t.y && j >= t.x then (if j - 1 >= t.x then CellAt(t, i, j - 1) else 0x0720) else CellAt(t, i, j)
  {
    RowFits(t.y, t.rows, t.cols);
    RowFits(i, t.rows, t.cols);
    hide Row;
    Order(t.cols, i, j, t.y, t.x);
    Order(t.cols, i, j, t.y, t.cols);
    if i == t.y && j > t.x {
      assert Row(i, t.cols) + (j - 1) == Row(i, t.cols) + j - 1;
    }
  }

  lemma CharOutCells(t: Term, i: nat, j: nat)
    requires TermOk(t) && i < t.rows && j < t.cols
    ensures var u := DeleteChar(t);
      && u == t.(screen := u.screen) && |u.screen| == |t.screen|
      && CellAt(u, i, j) == if i == t.y && j >= t.x then (if j + 1 < t.cols then CellAt(t, i, j + 1) else 0x0720) else CellAt(t, i, j)
  {
    RowFits(t.y, t.rows, t.cols);
    RowFits(i, t.rows, t.cols);
    hide Row;
    Order(t.cols, i, j, t.y, t.x);
    Order(t.cols, i, j, t.y, t.cols);
    if i == t.y && j >= t.x && j + 1 < t.cols {
      assert Row(i, t.cols) + (j + 1) == Row(i, t.cols) + j + 1;
    }
  }

  lemma {:induction false} CharsInCells(t: Term, n: nat, i: nat, j: nat)
    requires TermOk(t) && i < t.rows && j < t.cols
    ensures var u := Times(t, CharIn, n);
      && u == t.(screen := u.screen) && |u.screen| == |t.screen|
      && CellAt(u, i, j) == if i == t.y && j >= t.x then (if j - n >= t.x then CellAt(t, i, j - n) else 0x0720) else CellAt(t, i, j)
  {
    hide InsertChar, CellAt;
    if n > 0 {
      TimesOk(t, CharIn, n - 1);
      CharInCells(Times(t, CharIn, n - 1), i, j);
      CharsInCells(t, n - 1, i, j);
      if j > 0 {
        CharsInCells(t, n - 1, i, j - 1);
      }
    }
  }

  lemma {:induction false} CharsOutCells(t: Term, n: nat, i: nat, j: nat)
    requires TermOk(t) && i < t.rows && j < t.cols
    ensures var u := Times(t, CharOut, n);
      && u == t.(screen := u.screen) && |u.screen| == |t.screen|
      && CellAt(u, i, j) == if i == t.y && j >= t.x then (if j + n < t.cols then CellAt(t, i, j + n) else 0x0720) else CellAt(t, i, j)
  {
    hide DeleteChar, CellAt;
    if n > 0 {
      TimesOk(t, CharOut, n - 1);
      CharOutCells(Times(t, CharOut, n - 1), i, j);
      CharsOutCells(t, n - 1, i, j);
      if j + 1 < t.cols {
        CharsOutCells(t, n - 1, i, j + 1);
      }
    }
  }

  /** ICH: the rest of the row moves right, blanks come in at the cursor, and what leaves the row is lost. */
  lemma InsertCharacters(t: Term, ds: seq<seq<int>>, ns: seq<Word32>, erase: nat, i: nat, j: nat)
    requires TermOk(t) && t.state == 0 && Written(ds, ns) && i < t.rows && j < t.cols
    ensures var r := PutAll(t, Csi(ds, '@' as int), erase); var n := if ns[0] == 0 then 1 else ns[0];
      && r == AtFinal(t, ns).(screen := r.screen) && |r.screen| == |t.screen|
      && CellAt(r, i, j) == if i == t.y && j >= t.x then (if j - n >= t.x then CellAt(t, i, j - n) else 0x0720) else CellAt(t, i, j)
  {
    hide Put, PutAll, Dispatch, Times, Row;
    SequenceRead(t, ds, ns, '@' as int, erase);
    var u := AtFinal(t, ns);
    DispatchEdit(u, ns[0]);
    CharsInCells(u, if ns[0] > t.cols then t.cols else if ns[0] == 0 then 1 else ns[0], i, j);
  }

  /** DCH: the rest of the row moves left over the cells deleted, and blanks come in at its end. */
  lemma DeleteCharacters(t: Term, ds: seq<seq<int>>, ns: seq<Word32>, erase: nat, i: nat, j: nat)
    requires TermOk(t) && t.state == 0 && Written(ds, ns) && i < t.rows && j < t.cols
    ensures var r := PutAll(t, Csi(ds, 'P' as int), erase); var n := if ns[0] == 0 then 1 else ns[0];
      && r == AtFinal(t, ns).(screen := r.screen) && |r.screen| == |t.screen|
      && CellAt(r, i, j) == if i == t.y && j >= t.x then (if j + n < t.cols then CellAt(t, i, j + n) else 0x0720) else CellAt(t, i, j)
  {
    hide Put, PutAll, Dispatch, Times, Row;
    SequenceRead(t, ds, ns, 'P' as int, erase);
    var u := AtFinal(t, ns);
    DispatchEdit(u, ns[0]);
    CharsOutCells(u, if ns[0] > t.cols then t.cols else if ns[0] == 0 then 1 else ns[0], i, j);
  }

  lemma DispatchEdit(t: Term, nr: Word32)
    requires |t.par| == NPAR && t.npar < NPAR && t.par[0] == nr
    ensures Dispatch(t, '@' as int) == Repeated(t, CharIn, nr) && Dispatch(t, 'P' as int) == Repeated(t, CharOut, nr)
    ensures Dispatch(t, 'L' as int) == Repeated(t, LineIn, nr) && Dispatch(t, 'M' as int) == Repeated(t, LineOut, nr)
  {
    hide Repeated;
  }

  // ----- Shifting rows -----

  lemma RowsUpCells(t: Term, top: nat, bottom: nat, i: nat, j: nat)
    requires TermOk(t) && top <= bottom <= t.rows && i < t.rows && j < t.cols
    ensures var u := ScrollUp(t, top, bottom);
      && u == t.(screen := u.screen) && |u.screen| == |t.screen|
      && CellAt(u, i, j) == if top <= i < bottom then (if i + 1 < bottom then CellAt(t, i + 1, j) else 0x0720) else CellAt(t, i, j)
  {
    hide Row;
    RowFits(i, t.rows, t.cols);
    RowsAscend(bottom, t.rows, t.cols);
    NextRow(i, t.cols);
    Order(t.cols, i, j, top, 0);
    Order(t.cols, i, j, bottom, 0);
    Order(t.cols, i + 1, j, bottom, 0);
    if i + 1 < t.rows {
      RowFits(i + 1, t.rows, t.cols);
    }
    assert Row(i, t.cols) + j + t.cols == Row(i + 1, t.cols) + j;
  }

  lemma RowsDownCells(t: Term, top: nat, bottom: nat, i: nat, j: nat)
    requires TermOk(t) && top <= bottom <= t.rows && i < t.rows && j < t.cols
    ensures var u := ScrollDown(t, top, bottom);
      && u == t.(screen := u.screen) && |u.screen| == |t.screen|
      && CellAt(u, i, j) == if top <= i < bottom then (if i - 1 >= top then CellAt(t, i - 1, j) else 0x0720) else CellAt(t, i, j)
  {
    hide Row;
    RowFits(i, t.rows, t.cols);
    RowsAscend(bottom, t.rows, t.cols);
    Order(t.cols, i, j, top, 0);
    Order(t.cols, i, j, top, t.cols);
    NextRow(top, t.cols);
    Order(t.cols, i, j, bottom, 0);
    if i > 0 {
      NextRow(i - 1, t.cols);
      Order(t.cols, i - 1, j, top, 0);
      assert Row(i, t.cols) + j - t.cols == Row(i - 1, t.cols) + j;
    }
  }

  lemma {:induction false} LinesInCells(t: Term, n: nat, i: nat, j: nat)
    requires TermOk(t) && i < t.rows && j < t.cols
    ensures var u := Times(t, LineIn, n);
      && u == t.(screen := u.screen) && |u.screen| == |t.screen|
      && CellAt(u, i, j) == if i >= t.y then (if i - n >= t.y then CellAt(t, i - n, j) else 0x0720) else CellAt(t, i, j)
  {
    hide ScrollDown, CellAt;
    if n > 0 {
      TimesOk(t, LineIn, n - 1);
      RowsDownCells(Times(t, LineIn, n - 1), t.y, t.rows, i, j);
      LinesInCells(t, n - 1, i, j);
      if i > 0 {
        LinesInCells(t, n - 1, i - 1, j);
      }
    }
  }

  lemma {:induction false} LinesOutCells(t: Term, n: nat, i: nat, j: nat)
    requires TermOk(t) && i < t.rows && j < t.cols
    ensures var u := Times(t, LineOut, n);
      && u == t.(screen := u.screen) && |u.screen| == |t.screen|
      && CellAt(u, i, j) == if i >= t.y then (if i + n < t.rows then CellAt(t, i + n, j) else 0x0720) else CellAt(t, i, j)
  {
    hide ScrollUp, CellAt;
    if n > 0 {
      TimesOk(t, LineOut, n - 1);
      RowsUpCells(Times(t, LineOut, n - 1), t.y, t.rows, i, j);
      LinesOutCells(t, n - 1, i, j);
      if i + 1 < t.rows {
        LinesOutCells(t, n - 1, i + 1, j);
      }
    }
  }

  /** IL: blank rows come in at the cursor, and the rows from it on move down to the end of the screen. */
  lemma InsertLines(t: Term, ds: seq<seq<int>>, ns: seq<Word32>, erase: nat, i: nat, j: nat)
    requires TermOk(t) && t.state == 0 && Written(ds, ns) && i < t.rows && j < t.cols
    ensures var r := PutAll(t, Csi(ds, 'L' as int), erase); var n := if ns[0] == 0 then 1 else ns[0];
      && r == AtFinal(t, ns).(screen := r.screen) && |r.screen| == |t.screen|
      && CellAt(r, i, j) == if i >= t.y then (if i - n >= t.y then CellAt(t, i - n, j) else 0x0720) else CellAt(t, i, j)
  {
    hide Put, PutAll, Dispatch, Times, Row;
    SequenceRead(t, ds, ns, 'L' as int, erase);
    var u := AtFinal(t, ns);
    DispatchEdit(u, ns[0]);
    LinesInCells(u, if ns[0] > t.rows then t.rows else if ns[0] == 0 then 1 else ns[0], i, j);
  }

  /** DL: the rows from the cursor on move up over the rows deleted, and blank ones come in at the end of the screen. */
  lemma DeleteLines(t: Term, ds: seq<seq<int>>, ns: seq<Word32>, erase: nat, i: nat, j: nat)
    requires TermOk(t) && t.state == 0 && Written(ds, ns) && i < t.rows && j < t.cols
    ensures var r := PutAll(t, Csi(ds, 'M' as int), erase); var n := if ns[0] == 0 then 1 else ns[0];
      && r == AtFinal(t, ns).(screen := r.screen) && |r.screen| == |t.screen|
      && CellAt(r, i, j) == if i >= t.y then (if i + n < t.rows then CellAt(t, i + n, j) else 0x0720) else CellAt(t, i, j)
  {
    hide Put, PutAll, Dispatch, Times, Row;
    SequenceRead(t, ds, ns, 'M' as int, erase);
    var u := AtFinal(t, ns);
    DispatchEdit(u, ns[0]);
    LinesOutCells(u, if ns[0] > t.rows then t.rows else if ns[0] == 0 then 1 else ns[0], i, j);
  }

  // ----- Line feeds -----

  /** LF, VT, FF and ESC D: down a row, or the scrolling region moves up under the cursor. */
  lemma LineFeeds(t: Term, cs: seq<int>, erase: nat, i: nat, j: nat)
    requires TermOk(t) && t.state == 0 && (cs == [10] || cs == [11] || cs == [12] || cs == [27, 'D' as int])
    requires i < t.rows && j < t.cols
    ensures var r := PutAll(t, cs, erase);
      if t.y + 1 < t.bottom then r == t.(y := t.y + 1)
      else && r == t.(screen := r.screen) && |r.screen| == |t.screen|
           && CellAt(r, i, j) ==
                if t.top <= i < t.bottom then (if i + 1 < t.bottom then CellAt(t, i + 1, j) else 0x0720) else CellAt(t, i, j)
  {
    hide ScrollUp, PutAll, Row;
    if |cs| == 1 {
      assert cs == [cs[0]];
      PutOne(t, cs[0], erase);
    } else {
      EscapeRead(t, 'D' as int, erase);
      assert t.(state := 1).(state := 0) == t;
    }
    assert PutAll(t, cs, erase) == Lf(t);
    RowsUpCells(t, t.top, t.bottom, i, j);
  }

  /** ESC M: up a row, or the scrolling region moves down under the cursor. */
  lemma ReverseLineFeed(t: Term, erase: nat, i: nat, j: nat)
    requires TermOk(t) && t.state == 0 && i < t.rows && j < t.cols
    ensures var r := PutAll(t, [27, 'M' as int], erase);
      if t.y > t.top then r == t.(y := t.y - 1)
      else && r == t.(screen := r.screen) && |r.screen| == |t.screen|
           && CellAt(r, i, j) ==
                if t.top <= i < t.bottom then (if i - 1 >= t.top then CellAt(t, i - 1, j) else 0x0720) else CellAt(t, i, j)
  {
    hide ScrollDown, PutAll, Row;
    EscapeRead(t, 'M' as int, erase);
    assert t.(state := 1).(state := 0) == t;
    assert PutAll(t, [27, 'M' as int], erase) == Ri(t);
    RowsDownCells(t, t.top, t.bottom, i, j);
  }

  lemma EscapeRead(t: Term, c: int, erase: nat)
    requires TermOk(t) && t.state == 0
    ensures PutAll(t, [27, c], erase) == Escape(t.(state := 1), c)
  {
    assert [27, c] == [27] + [c];
    PutAllConcat(t, [27], [c], erase);
    PutOne(t, 27, erase);
    PutOne(t.(state := 1), c, erase);
  }

  // ----- The other characters -----

  /** ESC E, CR and BS. */
  lemma SingleMoves(t: Term, erase: nat)
    requires TermOk(t) && t.state == 0
    ensures PutAll(t, [27, 'E' as int], erase) == if t.y + 1 < t.rows then t.(x := 0, y := t.y + 1) else t
    ensures PutAll(t, [13], erase) == t.(x := 0)
    ensures erase != 8 ==> PutAll(t, [8], erase) == if t.x > 0 then t.(x := t.x - 1) else t
  {
    hide PutAll, Show, Lf, Del, Tab, Ri;
    EscapeRead(t, 'E' as int, erase);
    assert t.(state := 1).(state := 0) == t;
    PutOne(t, 13, erase);
    PutOne(t, 8, erase);
  }

  lemma EraseIsDel(t: Term, erase: nat)
    requires TermOk(t) && t.state == 0 && (erase == 8 || erase == 127)
    ensures PutAll(t, [erase], erase) == Del(t)
  {
    hide Row, Del, PutAll;
    PutOne(t, erase, erase);
  }

  lemma DelCells(t: Term, i: nat, j: nat)
    requires TermOk(t) && i < t.rows && j < t.cols
    ensures t.x == 0 ==> Del(t) == t
    ensures t.x > 0 ==> var u := Del(t);
              && u == t.(x := t.x - 1, screen := u.screen) && |u.screen| == |t.screen|
              && CellAt(u, i, j) == if i == t.y && j == t.x - 1 then 0x0720 else CellAt(t, i, j)
  {
    hide Row, Erased;
    if t.x > 0 {
      Order(t.cols, i, j, t.y, t.x - 1);
      ErasedCells(t, t.(screen := Erased(t.screen, Place(t) - 1, Place(t))), Place(t) - 1, Place(t), i, j);
    }
  }

  /** The terminal's erase character blanks the cell before the cursor. */
  lemma CharacterErased(t: Term, erase: nat, i: nat, j: nat)
    requires TermOk(t) && t.state == 0 && (erase == 8 || erase == 127) && i < t.rows && j < t.cols
    ensures var r := PutAll(t, [erase], erase);
      if t.x == 0 then r == t
      else && r == t.(x := t.x - 1, screen := r.screen) && |r.screen| == |t.screen|
           && CellAt(r, i, j) == if i == t.y && j == t.x - 1 then 0x0720 else CellAt(t, i, j)
  {
    hide Row, PutAll, Del;
    EraseIsDel(t, erase);
    DelCells(t, i, j);
  }

  /** A tab goes to the next column that is a multiple of 8; past the end of the row it goes on in the next. */
  lemma Tabs(t: Term, erase: nat) returns (x: nat)
    requires TermOk(t) && t.state == 0 && erase != 9
    ensures t.x < x <= t.x + 8 && x % 8 == 0
    ensures PutAll(t, [9], erase) == if x <= t.cols then t.(x := x) else PutAll(t.(x := x - t.cols), [10], erase)
  {
    hide PutAll, Show, Lf, Del;
    x := TabStop(t.x);
    PutOne(t, 9, erase);
    if x > t.cols {
      PutOne(t.(x := x - t.cols), 10, erase);
    }
  }

  lemma TabStop(c: nat) returns (x: nat)
    ensures x == c + (8 - c % 8) && c < x <= c + 8 && x % 8 == 0
  {
    x := c + (8 - c % 8);
  }

  /** A printable character stands in the cell of the cursor; past the end of its row, as after CR and LF. */
  lemma CharacterShown(t: Term, c: int, erase: nat, i: nat, j: nat)
    requires TermOk(t) && t.state == 0 && 31 < c < 127 && i < t.rows && j < t.cols
    ensures t.x == t.cols ==> PutAll(t, [c], erase) == PutAll(t, [13, 10, c], erase)
    ensures t.x < t.cols ==> var r := PutAll(t, [c], erase);
              && r == t.(x := t.x + 1, screen := r.screen) && |r.screen| == |t.screen|
              && CellAt(r, i, j) == if i == t.y && j == t.x then 256 * t.attr + c else CellAt(t, i, j)
  {
    hide Row, Lf, PutAll;
    PutOne(t, c, erase);
    if t.x == t.cols {
      NewLineFirst(t, c, erase);
    } else {
      ShowOk(t, c);
      Order(t.cols, i, j, t.y, t.x);
      RowFits(i, t.rows, t.cols);
    }
  }

  lemma NewLineFirst(t: Term, c: int, erase: nat)
    requires TermOk(t) && t.state == 0 && 31 < c < 127 && t.x == t.cols
    ensures PutAll(t, [13, 10, c], erase) == Show(t, c)
  {
    hide Row, Lf, PutAll;
    LfOk(t.(x := 0));
    var u := Lf(t.(x := 0));
    assert [13, 10, c] == [13] + ([10] + [c]);
    PutAllConcat(t, [13], [10] + [c], erase);
    PutAllConcat(t.(x := 0), [10], [c], erase);
    PutOne(t, 13, erase);
    PutOne(t.(x := 0), 10, erase);
    PutOne(u, c, erase);
    assert Wrap(t) == u == Wrap(u);
  }

  /** The other control characters, and ESC with any other character, show nothing and change nothing. */
  lemma ControlsIgnored(t: Term, c: int, erase: nat)
    requires TermOk(t) && t.state == 0
    ensures c !in [8, 9, 10, 11, 12, 13, 27, erase] && !(31 < c < 127) ==> PutAll(t, [c], erase) == t
    ensures c !in [55, 56, 68, 69, 77, 91] ==> PutAll(t, [27, c], erase) == t
  {
    hide PutAll, Show, Lf, Ri, Del, Tab, Goto;
    PutOne(t, c, erase);
    EscapeRead(t, c, erase);
    assert t.(state := 1).(state := 0) == t;
  }

  // ----- Modes -----

  predicate Known(p: Word32) {
    p == 0 || p == 1 || p == 4 || p == 7 || p == 27
  }

  lemma {:induction false} LastKnown(attr: nat, par: seq<Word32>, n: nat, k: nat)
    requires k < n <= |par| && Known(par[k]) && forall l | k < l < n :: !Known(par[l])
    ensures Attrs(attr, par, n) == if par[k] == 0 || par[k] == 27 then 0x07 else if par[k] == 7 then 0x70 else 0x0f
  {
    if k < n - 1 {
      LastKnown(attr, par, n - 1, k);
      assert !Known(par[n - 1]);
    }
  }

  lemma {:induction false} NoneKnown(attr: nat, par: seq<Word32>, n: nat)
    requires n <= |par| && forall l | 0 <= l < n :: !Known(par[l])
    ensures Attrs(attr, par, n) == attr
  {
    if n > 0 {
      NoneKnown(attr, par, n - 1);
      assert !Known(par[n - 1]);
    }
  }

  /** SGR: the last parameter the console knows decides; 0 and 27 are plain, 1 and 4 bright, 7 reverse. */
  lemma SelectRendition(t: Term, ds: seq<seq<int>>, ns: seq<Word32>, erase: nat)
    requires TermOk(t) && t.state == 0 && Written(ds, ns)
    ensures var r := PutAll(t, Csi(ds, 'm' as int), erase);
      && r == AtFinal(t, ns).(attr := r.attr)
      && ((forall k | 0 <= k < |ns| :: !Known(ns[k])) ==> r.attr == t.attr)
      && forall k | 0 <= k < |ns| && Known(ns[k]) && (forall l | k < l < |ns| :: !Known(ns[l])) ::
           r.attr == if ns[k] == 0 || ns[k] == 27 then 0x07 else if ns[k] == 7 then 0x70 else 0x0f
  {
    hide Put, PutAll, Attrs;
    SequenceRead(t, ds, ns, 'm' as int, erase);
    var par := AtFinal(t, ns).par;
    assert forall k | 0 <= k < |ns| :: par[k] == ns[k];
    if forall k | 0 <= k < |ns| :: !Known(ns[k]) {
      NoneKnown(t.attr, par, |ns|);
    }
    forall k | 0 <= k < |ns| && Known(ns[k]) && (forall l | k < l < |ns| :: !Known(ns[l]))
      ensures Attrs(t.attr, par, |ns|) == if ns[k] == 0 || ns[k] == 27 then 0x07 else if ns[k] == 7 then 0x70 else 0x0f
    {
      LastKnown(t.attr, par, |ns|, k);
    }
  }

  /** DECSTBM: rows n to m, counted from 1, scroll from now on; the whole screen by default. */
  lemma SetRegion(t: Term, ds: seq<seq<int>>, ns: seq<Word32>, erase: nat)
    requires TermOk(t) && t.state == 0 && Written(ds, ns)
    ensures var n := if ns[0] == 0 then 1 else ns[0]; var m := if |ns| < 2 || ns[1] == 0 then t.rows else ns[1];
      PutAll(t, Csi(ds, 'r' as int), erase) ==
        if n <= m <= t.rows then AtFinal(t, ns).(top := n - 1, bottom := m) else AtFinal(t, ns)
  {
    hide Put, PutAll;
    SequenceRead(t, ds, ns, 'r' as int, erase);
  }

  lemma RestoreMoves(t: Term)
    requires TermOk(t)
    ensures Dispatch(t, 's' as int) == t.(savedX := t.x, savedY := t.y) && Dispatch(t, 'u' as int) == t.(x := t.savedX, y := t.savedY)
    ensures Goto(t, Unsigned(t.savedX), Unsigned(t.savedY)) == t.(x := t.savedX, y := t.savedY)
  {
    hide Goto, Unsigned;
    GotoMoved(t, t.savedX, t.savedY);
    GotoMoved(t, t.savedY, t.savedX);
  }

  /** ESC [ s and ESC [ u, ESC 7 and ESC 8: the cursor is remembered, and goes back where it was. */
  lemma SaveAndRestore(t: Term, ds: seq<seq<int>>, ns: seq<Word32>, erase: nat)
    requires TermOk(t) && t.state == 0 && Written(ds, ns)
    ensures PutAll(t, Csi(ds, 's' as int), erase) == AtFinal(t, ns).(savedX := t.x, savedY := t.y)
    ensures PutAll(t, Csi(ds, 'u' as int), erase) == AtFinal(t, ns).(x := t.savedX, y := t.savedY)
    ensures PutAll(t, [27, '7' as int], erase) == t.(savedX := t.x, savedY := t.y)
    ensures PutAll(t, [27, '8' as int], erase) == t.(x := t.savedX, y := t.savedY)
  {
    hide Put, PutAll, Csi, Dispatch, Lf, Ri, Goto, Unsigned;
    RestoreMoves(t.(state := 0));
    RestoreMoves(AtFinal(t, ns));
    SequenceRead(t, ds, ns, 's' as int, erase);
    SequenceRead(t, ds, ns, 'u' as int, erase);
    EscapeRead(t, '7' as int, erase);
    EscapeRead(t, '8' as int, erase);
    assert t.(state := 1).(state := 0) == t;
  }

  /** Any other final character does nothing. */
  lemma OthersIgnored(t: Term, ds: seq<seq<int>>, ns: seq<Word32>, final: int, erase: nat)
    requires TermOk(t) && t.state == 0 && Written(ds, ns) && 64 <= final < 127
    requires final !in [64, 65, 66, 67, 68, 69, 70, 71, 72, 74, 75, 76, 77, 80, 96, 97, 100, 101, 102, 109, 114, 115, 117]
    ensures PutAll(t, Csi(ds, final), erase) == AtFinal(t, ns)
  {
    hide Put, PutAll;
    SequenceRead(t, ds, ns, final, erase);
  }
}
