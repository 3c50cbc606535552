/**
  linux-0.11/kernel/chr_drv/console.c on video memory.  Offsets count character cells (two bytes each)
  from video_mem_start.  On EGA and VGA cards a full-screen scroll moves the origin of the display
  through video memory, and copies the screen back to the start when it reaches the end.
*/
module Console {
  import opened Bytes
  import opened Screen

  class Display {
    const ega: bool                  // video_type is EGAC or EGAM
    const cols: nat
    const rows: nat
    const mem: array<Cell>           // video_mem_start up to video_mem_end
    const erase: nat                 // ERASE_CHAR of the terminal
    var origin: nat
    var scrollEnd: nat
    var pos: nat
    var x: nat
    var y: nat
    var top: nat
    var bottom: nat
    var attr: nat
    var state: nat
    var npar: nat
    const par: array<Word32>
    var savedX: nat
    var savedY: nat

    /** The display window is the screen, and the cursor's cell is where x and y say. */
    ghost predicate Window()
      reads this
    {
      && scrollEnd == origin + Row(rows, cols) && scrollEnd <= mem.Length
      && pos == origin + Row(y, cols) + x
    }

    /** What the user sees. */
    ghost function View(): Term
      reads this, mem, par
      requires Window()
    {
      Term(cols, rows, mem[..][origin..scrollEnd], x, y, top, bottom, attr, state, npar, par[..], savedX, savedY)
    }

    ghost predicate Valid()
      reads this, mem, par
    {
      Window() && TermOk(View())
    }

    /** console_init (console.c:637-723), with the cursor where the boot loader left it. */
    constructor (ega: bool, cols: nat, rows: nat, mem: array<Cell>, erase: nat, origX: nat, origY: nat)
      requires 8 <= cols < 0x1_0000 && cols % 2 == 0 && 1 <= rows < 0x1_0000 && Row(rows, cols) <= mem.Length
      requires origX <= cols && origY < rows
      ensures Valid() && this.mem == mem && fresh(par) && this.erase == erase
      ensures View() == Term(cols, rows, mem[..Row(rows, cols)], origX, origY, 0, rows, 7, 0, 0, seq(NPAR, _ => 0), 0, 0)
    {
      this.ega, this.cols, this.rows, this.mem, this.erase := ega, cols, rows, mem, erase;
      origin, scrollEnd, top, bottom := 0, rows * cols, 0, rows;
      x, y, pos := origX, origY, origY * cols + origX;
      attr, state, npar, savedX, savedY := 7, 0, 0, 0, 0;
      par := new Word32[NPAR](_ => 0);
      new;
      assert par[..] == seq(NPAR, _ => 0);
      assert mem[..][0..Row(rows, cols)] == mem[..Row(rows, cols)];
    }

    /** movsl, in either direction, for cells that may overlap. */
    method Move(to: nat, from: nat, n: nat)
      requires to + n <= mem.Length && from + n <= mem.Length
      modifies mem
      ensures mem[..] == Moved(old(mem[..]), to, from, n)
    {
      forall i | to <= i < to + n {
        mem[i] := mem[from + (i - to)];
      }
    }

    /** stosw of the erase character. */
    method Fill(at: nat, n: nat)
      requires at + n <= mem.Length
      modifies mem
      ensures mem[..] == Erased(old(mem[..]), at, at + n)
    {
      forall i | at <= i < at + n {
        mem[i] := ERASE;
      }
    }

    /** What the bounds of the cursor and the region say about video memory. */
    lemma Bounds()
      requires Valid()
      ensures top < bottom <= rows && y < rows && x <= cols && 8 <= cols
      ensures 0 <= Row(top, cols) && Row(top, cols) + cols <= Row(bottom, cols) <= Row(rows, cols) && Row(y, cols) + cols <= Row(rows, cols)
    {
      Rows(top, bottom, rows, cols);
      RowFits(y, rows, cols);
    }

    /** scrup (console.c:108-164). */
    method ScrUp()
      requires Valid()
      modifies this`origin, this`scrollEnd, this`pos, mem
      ensures Valid() && View() == ScrollUp(old(View()), top, bottom)
    {
      hide TermOk, Row;
      Bounds();
      ScrollOk(View(), top, bottom);
      if ega && top == 0 && bottom == rows {
        NextRow(0, cols);
        Pan(Row(rows, cols));
      } else {
        CopyUp(Row(top, cols), Row(bottom, cols));
      }
    }

    /** The fast scroll of a full screen of n cells (console.c:112-137). */
    method Pan(ghost n: nat)
      requires n == Row(rows, cols) && scrollEnd == origin + n <= mem.Length && origin <= pos && rows > 0
      modifies this`origin, this`scrollEnd, this`pos, mem
      ensures scrollEnd == origin + n <= mem.Length && pos - origin == old(pos - origin)
      ensures mem[..][origin..scrollEnd] == ShiftedUp(old(mem[..][origin..scrollEnd]), 0, n, cols)
    {
      hide ShiftedUp, Row;
      Rows(0, rows, rows, cols);
      origin, pos, scrollEnd := origin + cols, pos + cols, scrollEnd + cols;
      if scrollEnd > mem.Length {
        JumpBack(Row(rows - 1, cols), n);
        scrollEnd := scrollEnd - origin;
        pos := pos - origin;
        origin := 0;
      } else {
        BlankLast(n);
      }
    }

    /** The rows that stay go to the start of video memory (console.c:117-125). */
    method JumpBack(kept: nat, ghost n: nat)
      requires cols <= origin && kept + cols == n && origin + kept <= mem.Length && n <= mem.Length
      modifies mem
      ensures mem[..][0..n] == ShiftedUp(old(mem[..])[origin - cols..origin - cols + n], 0, n, cols)
    {
      hide ShiftedUp, Moved, Erased;
      ghost var m := mem[..];
      Move(0, origin, kept);
      Fill(kept, cols);
      BackAtStart(m, origin - cols, n, cols, origin, kept);
    }

    /** The row that has come into the window is blanked (console.c:130-135). */
    method BlankLast(ghost n: nat)
      requires cols <= origin && cols <= n && scrollEnd == origin + n <= mem.Length
      modifies mem
      ensures mem[..][origin..scrollEnd] == ShiftedUp(old(mem[..])[origin - cols..origin - cols + n], 0, n, cols)
    {
      hide ShiftedUp, Erased;
      ghost var m := mem[..];
      var last := scrollEnd - cols;
      Fill(last, cols);
      Panned(m, origin - cols, n, cols, origin, last);
    }

    /** The scroll by copying rows (console.c:139-162). */
    method CopyUp(ghost a: nat, ghost b: nat)
      requires top < bottom && a == Row(top, cols) && b == Row(bottom, cols) && a + cols <= b && origin + b <= scrollEnd <= mem.Length
      modifies mem
      ensures mem[..][origin..scrollEnd] == ShiftedUp(old(mem[..][origin..scrollEnd]), a, b, cols)
    {
      var to, from, n := origin + Row(top, cols), origin + Row(top + 1, cols), Row(bottom - top - 1, cols);
      assert to == origin + a && from == to + cols && n == b - a - cols by {
        Rows(top, bottom, bottom, cols);
      }
      RowsUp(to, from, n, a, b);
    }

    method RowsUp(to: nat, from: nat, n: nat, ghost a: nat, ghost b: nat)
      requires to == origin + a && from == to + cols && n + cols + a == b && origin + b <= scrollEnd <= mem.Length
      modifies mem
      ensures mem[..][origin..scrollEnd] == ShiftedUp(old(mem[..][origin..scrollEnd]), a, b, cols)
    {
      hide Moved, Erased, ShiftedUp, Row;
      ghost var m := mem[..];
      MoveAndFill(to, from, n, to + n);
      CopiedUp(m, origin, scrollEnd, a, b, cols, to, from, n);
    }

    /** The rows move and the one left over is blanked. */
    method MoveAndFill(to: nat, from: nat, n: nat, blank: nat)
      requires to + n <= mem.Length && from + n <= mem.Length && blank + cols <= mem.Length
      modifies mem
      ensures mem[..] == Erased(Moved(old(mem[..]), to, from, n), blank, blank + cols)
    {
      hide Moved, Erased, Row;
      Move(to, from, n);
      Fill(blank, cols);
    }

    /** scrdown (console.c:166-197). */
    method ScrDown()
      requires Valid()
      modifies mem
      ensures Valid() && View() == ScrollDown(old(View()), top, bottom)
    {
      hide TermOk, Row;
      Bounds();
      ScrollOk(View(), top, bottom);
      CopyDown(Row(top, cols), Row(bottom, cols));
    }

    method CopyDown(ghost a: nat, ghost b: nat)
      requires top < bottom && a == Row(top, cols) && b == Row(bottom, cols) && a + cols <= b && origin + b <= scrollEnd <= mem.Length
      modifies mem
      ensures mem[..][origin..scrollEnd] == ShiftedDown(old(mem[..][origin..scrollEnd]), a, b, cols)
    {
      var to, from, n := origin + Row(top + 1, cols), origin + Row(top, cols), Row(bottom - top - 1, cols);
      assert from == origin + a && to == from + cols && n == b - a - cols by {
        Rows(top, bottom, bottom, cols);
      }
      RowsDown(to, from, n, a, b);
    }

    method RowsDown(to: nat, from: nat, n: nat, ghost a: nat, ghost b: nat)
      requires from == origin + a && to == from + cols && n + cols + a == b && origin + b <= scrollEnd <= mem.Length
      modifies mem
      ensures mem[..][origin..scrollEnd] == ShiftedDown(old(mem[..][origin..scrollEnd]), a, b, cols)
    {
      hide Moved, Erased, ShiftedDown, Row;
      ghost var m := mem[..];
      MoveAndFill(to, from, n, from);
      CopiedDown(m, origin, scrollEnd, a, b, cols, to, from, n);
    }

    /** gotoxy (console.c:88-96). */
    method GotoXY(newX: Word32, newY: Word32)
      requires Valid()
      modifies this`x, this`y, this`pos
      ensures Valid() && View() == Goto(old(View()), newX, newY)
    {
      hide TermOk, Row;
      ghost var t := View();
      GotoOk(t);
      assert TermOk(Goto(t, newX, newY));
      if newX > cols || newY >= rows {
        return;
      }
      x, y := newX, newY;
      pos := origin + Row(y, cols) + x;
    }

    /** lf (console.c:199-207). */
    method LineFeed()
      requires Valid()
      modifies this`y, this`pos, this`origin, this`scrollEnd, mem
      ensures Valid() && View() == Lf(old(View()))
    {
      hide TermOk, Row;
      LfOk(View());
      if y + 1 < bottom {
        NextRow(y, cols);
        y := y + 1;
        pos := pos + cols;
        return;
      }
      ScrUp();
    }

    /** ri (console.c:209-217). */
    method ReverseIndex()
      requires Valid()
      modifies this`y, this`pos, mem
      ensures Valid() && View() == Ri(old(View()))
    {
      hide TermOk, Row;
      RiOk(View());
      if y > top {
        NextRow(y - 1, cols);
        y := y - 1;
        pos := pos - cols;
        return;
      }
      ScrDown();
    }

    /** cr (console.c:219-223). */
    method CarriageReturn()
      requires Valid()
      modifies this`x, this`pos
      ensures Valid() && View() == old(View()).(x := 0)
    {
      hide Row;
      pos := pos - x;
      x := 0;
    }

    /** Erases cells [a, b) of the screen. */
    method Wipe(a: nat, b: nat)
      requires Valid() && a <= b <= Row(rows, cols)
      modifies mem
      ensures Valid() && View() == old(View()).(screen := Erased(old(View()).screen, a, b))
    {
      hide Erased, TermOk, Row;
      ghost var m := mem[..];
      Bounds();
      WipeOk(View(), a, b);
      Fill(origin + a, b - a);
      ErasedWindow(m, origin, scrollEnd, a, b);
    }

    /** del (console.c:225-232). */
    method Delete()
      requires Valid()
      modifies this`x, this`pos, mem
      ensures Valid() && View() == Del(old(View()))
    {
      hide Row, TermOk, Erased;
      Bounds();
      ghost var t := View();
      DelOk(t);
      if x > 0 {
        pos := pos - 1;
        x := x - 1;
        assert origin <= pos;
        Wipe(pos - origin, pos - origin + 1);
      }
    }

    /** csi_J (console.c:234-259). */
    method CsiJ(p: Word32)
      requires Valid()
      modifies mem
      ensures Valid() && View() == EraseDisplay(old(View()), p)
    {
      hide Erased, TermOk, Row;
      Bounds();
      ScrollOk(View(), top, bottom);
      if p == 0 {
        Wipe(pos - origin, scrollEnd - origin);
      } else if p == 1 {
        Wipe(0, pos - origin);
      } else if p == 2 {
        Wipe(0, Row(rows, cols));
      }
    }

    /** csi_K (console.c:261-288). */
    method CsiK(p: Word32)
      requires Valid()
      modifies mem
      ensures Valid() && View() == EraseLine(old(View()), p)
    {
      hide Erased, TermOk, Row;
      Bounds();
      if p == 0 {
        if x >= cols {
          NothingErased(View().screen, pos - origin, Row(y, cols) + cols);
          return;
        }
        Wipe(pos - origin, pos - origin + (cols - x));
      } else if p == 1 {
        Wipe(pos - x - origin, pos - x - origin + if x < cols then x else cols);
      } else if p == 2 {
        Wipe(pos - x - origin, pos - x - origin + cols);
      }
    }

    /** insert_char (console.c:331-343). */
    method InsertOneChar()
      requires Valid()
      modifies mem
      ensures Valid() && View() == InsertChar(old(View()))
    {
      hide ShiftedDown, TermOk, Row;
      Bounds();
      ghost var m, t := mem[..], View();
      CharsOk(t);
      PushRight();
      ShiftedDownWindow(m, origin, scrollEnd, pos - origin, Row(y, cols) + cols, 1);
      assert TermOk(InsertChar(t));
    }

    /** The loop of insert_char. */
    method PushRight()
      requires x <= cols && pos + (cols - x) <= mem.Length
      modifies mem
      ensures mem[..] == ShiftedDown(old(mem[..]), pos, pos + (cols - x), 1)
    {
      hide ShiftedDown, Row;
      ghost var m := mem[..];
      var i, p, last: Cell := x, pos, ERASE;
      while i < cols
        invariant x <= i <= cols && p == pos + (i - x)
        invariant last == if i == x then ERASE else m[p - 1]
        invariant forall j | 0 <= j < mem.Length && (j < pos || j >= p) :: mem[j] == m[j]
        invariant forall j {:trigger mem[j]} | pos < j < p :: mem[j] == m[j - 1]
        invariant p > pos ==> mem[pos] == ERASE
      {
        var tmp := mem[p];
        mem[p] := last;
        last := tmp;
        i, p := i + 1, p + 1;
      }
      PushedRight(m, mem[..], pos, p);
    }

    /** delete_char (console.c:358-371). */
    method DeleteOneChar()
      requires Valid()
      modifies mem
      ensures Valid() && View() == DeleteChar(old(View()))
    {
      hide ShiftedUp, TermOk, Row;
      Bounds();
      ghost var m, t := mem[..], View();
      CharsOk(t);
      ShiftedUpWindow(m, origin, scrollEnd, pos - origin, Row(y, cols) + cols, 1);
      if x >= cols {
        SameCells(m, ShiftedUp(m, pos, pos, 1));
        return;
      }
      PullLeft();
      assert TermOk(DeleteChar(t));
    }

    /** The loop of delete_char. */
    method PullLeft()
      requires x < cols && pos + (cols - x) <= mem.Length
      modifies mem
      ensures mem[..] == ShiftedUp(old(mem[..]), pos, pos + (cols - x), 1)
    {
      hide ShiftedUp, Row;
      ghost var m := mem[..];
      var i, p := x + 1, pos;
      while i < cols
        invariant x < i <= cols && p == pos + (i - 1 - x)
        invariant forall j | 0 <= j < mem.Length && (j < pos || j >= p) :: mem[j] == m[j]
        invariant forall j {:trigger mem[j]} | pos <= j < p :: mem[j] == m[j + 1]
      {
        mem[p] := mem[p + 1];
        i, p := i + 1, p + 1;
      }
      mem[p] := ERASE;
      PulledLeft(m, mem[..], pos, p + 1);
    }

    /** insert_line (console.c:345-356). */
    method InsertOneLine()
      requires Valid()
      modifies this`top, this`bottom, mem
      ensures Valid() && View() == InsertLine(old(View()))
    {
      hide Row;
      var oldTop, oldBottom := top, bottom;
      top, bottom := y, rows;
      ScrDown();
      top, bottom := oldTop, oldBottom;
    }

    /** delete_line (console.c:373-384). */
    method DeleteOneLine()
      requires Valid()
      modifies this`top, this`bottom, this`origin, this`scrollEnd, this`pos, mem
      ensures Valid() && View() == DeleteLine(old(View()))
    {
      hide Row;
      var oldTop, oldBottom := top, bottom;
      top, bottom := y, rows;
      ScrUp();
      top, bottom := oldTop, oldBottom;
    }

    /** csi_at, csi_L, csi_P and csi_M (console.c:386-424), with what they repeat. */
    method Repeat(e: Edit, nr0: Word32)
      requires Valid()
      modifies this`top, this`bottom, this`origin, this`scrollEnd, this`pos, mem
      ensures Valid() && View() == Repeated(old(View()), e, nr0)
    {
      hide TermOk, Window, InsertChar, DeleteChar, InsertLine, DeleteLine, Row;
      var most := if e.CharIn? || e.CharOut? then cols else rows;
      var nr: nat := nr0;
      if nr > most {
        nr := most;
      } else if nr == 0 {
        nr := 1;
      }
      ghost var t := View();
      var k := 0;
      while k < nr
        invariant k <= nr && Valid() && View() == Times(t, e, k)
      {
        match e {
          case CharIn => InsertOneChar();
          case CharOut => DeleteOneChar();
          case LineIn => InsertOneLine();
          case LineOut => DeleteOneLine();
        }
        k := k + 1;
      }
    }

    /** csi_m (console.c:290-302). */
    method CsiM()
      requires Valid()
      modifies this`attr
      ensures Valid() && View() == old(View()).(attr := Attrs(old(attr), par[..], npar + 1))
    {
      ghost var a := attr;
      var i := 0;
      while i <= npar
        invariant i <= npar + 1 && attr == Attrs(a, par[..], i) && attr < 256
      {
        if par[i] == 0 || par[i] == 27 {
          attr := 0x07;
        } else if par[i] == 1 || par[i] == 4 {
          attr := 0x0f;
        } else if par[i] == 7 {
          attr := 0x70;
        }
        i := i + 1;
      }
    }

    // ----- The state machine of console_write -----

    /** A cell is written at the cursor (console.c:452-462). */
    method ShowChar(c: nat)
      requires Valid() && 31 < c < 127
      modifies this`x, this`y, this`pos, this`origin, this`scrollEnd, mem
      ensures Valid() && View() == Show(old(View()), c)
    {
      hide TermOk, Row, Lf;
      ghost var t := View();
      ShowOk(t, c);
      WrapOk(t);
      Bounds();
      if x >= cols {
        PastEnd(t);
        x := x - cols;
        pos := pos - cols;
        LineFeed();
      }
      StateOk(t);
      StoreCell(256 * attr + c);
    }

    /** The cursor's own cell. */
    method StoreCell(w: Cell)
      requires Valid() && x < cols
      modifies this`x, this`pos, mem
      ensures Valid() && Place(old(View())) < |old(View()).screen|
      ensures View() == old(View()).(screen := old(View()).screen[Place(old(View())) := w], x := old(x) + 1)
    {
      hide TermOk, Row;
      ghost var t, m := View(), mem[..];
      Bounds();
      StoreOk(t, w);
      mem[pos] := w;
      assert mem[..] == m[pos := w];
      assert m[pos := w][origin..scrollEnd] == m[origin..scrollEnd][pos - origin := w];
      pos := pos + 1;
      x := x + 1;
    }

    /** console.c:476-485. */
    method TabStop()
      requires Valid()
      modifies this`x, this`y, this`pos, this`origin, this`scrollEnd, mem
      ensures Valid() && View() == Tab(old(View()))
    {
      hide TermOk, Row, Lf;
      TabFits(View());
      Bounds();
      var c := 8 - x % 8;
      if x + c > cols {
        pos := pos + c - cols;
        x := x + c - cols;
        LineFeed();
      } else {
        x := x + c;
        pos := pos + c;
      }
    }

    /** console.c:449-489. */
    method InGround(c: int)
      requires Valid()
      modifies this`x, this`y, this`pos, this`origin, this`scrollEnd, this`state, mem
      ensures Valid() && View() == Ground(old(View()), c, erase)
    {
      hide TermOk, Row, Lf, Show, Tab, Del, Window;
      StateOk(View());
      if 31 < c < 127 {
        ShowChar(c);
      } else if c == 27 {
        SetState(1);
      } else if c == 10 || c == 11 || c == 12 {
        LineFeed();
      } else if c == 13 {
        CarriageReturn();
      } else if c == erase {
        Delete();
      } else if c == 8 {
        BackSpace();
      } else if c == 9 {
        TabStop();
      }
    }

    /** console.c:471-475. */
    method BackSpace()
      requires Valid()
      modifies this`x, this`pos
      ensures Valid() && View() == if old(x) > 0 then old(View()).(x := old(x) - 1) else old(View())
    {
      hide Row;
      if x > 0 {
        x := x - 1;
        pos := pos - 1;
      }
    }

    method SetState(s: nat)
      requires Valid() && s <= 3
      modifies this`state
      ensures Valid() && View() == old(View()).(state := s)
    {
      hide Row;
      state := s;
    }

    /** save_cur (console.c:429-433). */
    method SaveCursor()
      requires Valid()
      modifies this`savedX, this`savedY
      ensures Valid() && View() == old(View()).(savedX := x, savedY := y)
    {
      hide Row;
      savedX, savedY := x, y;
    }

    /** console.c:490-507. */
    method InEscape(c: int)
      requires Valid()
      modifies this`x, this`y, this`pos, this`origin, this`scrollEnd, this`state, this`savedX, this`savedY, mem
      ensures Valid() && View() == Escape(old(View()), c)
    {
      hide TermOk, Row, Lf, Ri, Goto, Window;
      SetState(0);
      if c == '[' as int {
        SetState(2);
      } else if c == 'E' as int {
        GotoXY(0, Unsigned(y + 1));
      } else if c == 'M' as int {
        ReverseIndex();
      } else if c == 'D' as int {
        LineFeed();
      } else if c == '7' as int {
        SaveCursor();
      } else if c == '8' as int {
        GotoXY(Unsigned(savedX), Unsigned(savedY));
      }
    }

    /** The parameters are cleared (console.c:509-512). */
    method ClearPar()
      requires Valid()
      modifies this`npar, this`state, par
      ensures Valid() && View() == old(View()).(npar := 0, par := seq(NPAR, _ => 0), state := 3)
    {
      hide Row;
      npar := 0;
      while npar < NPAR
        invariant npar <= NPAR && forall i | 0 <= i < npar :: par[i] == 0
      {
        par[npar] := 0;
        npar := npar + 1;
      }
      npar := 0;
      state := 3;
      assert par[..] == seq(NPAR, _ => 0);
    }

    /** The region of 'r' (console.c:600-609). */
    method SetRegion(a: Word32, b: Word32)
      requires Valid()
      modifies this`top, this`bottom
      ensures Valid() && View() == Region(old(View()), a, b)
    {
      hide Row;
      var first := if a > 0 then a - 1 else 0;
      var last := if b == 0 then rows else b;
      if first < last && last <= rows {
        top := first;
        bottom := last;
      }
    }

    /** console.c:515-523, and on to the final character. */
    method InSequence(c: int)
      requires Valid()
      modifies this, mem, par
      ensures Valid() && View() == Collect(old(View()), c)
    {
      hide TermOk, Row, Dispatch, Window;
      CollectOk(View(), c);
      ParOk(View());
      if c == ';' as int && npar < NPAR - 1 {
        NextPar();
      } else if '0' as int <= c <= '9' as int {
        Digit(c - '0' as int);
      } else {
        SetState(0);
        Final(c);
      }
    }

    method NextPar()
      requires Valid() && npar < NPAR - 1
      modifies this`npar
      ensures Valid() && View() == old(View()).(npar := old(npar) + 1)
    {
      hide Row;
      npar := npar + 1;
    }

    method Digit(d: nat)
      requires Valid() && d < 10
      modifies par
      ensures Valid() && npar < NPAR == par.Length
      ensures View() == old(View()).(par := old(par[..])[npar := Unsigned(10 * old(par[..])[npar] + d)])
    {
      hide Row;
      par[npar] := Unsigned(10 * par[npar] + d);
      assert par[..] == old(par[..])[npar := par[npar]];
    }

    /** The final character of a control sequence (console.c:525-616). */
    method Final(c: int)
      requires Valid()
      modifies this`x, this`y, this`pos, this`top, this`bottom, this`attr, this`origin, this`scrollEnd, this`savedX, this`savedY, mem
      ensures Valid() && npar < NPAR == par.Length && View() == Dispatch(old(View()), c)
    {
      hide TermOk, Row, Goto, Window, EraseDisplay, EraseLine, Repeated, Region, Attrs;
      ParOk(View());
      var a, b := par[0], par[1];
      if c == 'G' as int || c == '`' as int {
        GotoXY(FromOne(a), Unsigned(y));
      } else if c == 'A' as int {
        GotoXY(Unsigned(x), Unsigned(y - AtLeastOne(a)));
      } else if c == 'B' as int || c == 'e' as int {
        GotoXY(Unsigned(x), Unsigned(y + AtLeastOne(a)));
      } else if c == 'C' as int || c == 'a' as int {
        GotoXY(Unsigned(x + AtLeastOne(a)), Unsigned(y));
      } else if c == 'D' as int {
        GotoXY(Unsigned(x - AtLeastOne(a)), Unsigned(y));
      } else if c == 'E' as int {
        GotoXY(0, Unsigned(y + AtLeastOne(a)));
      } else if c == 'F' as int {
        GotoXY(0, Unsigned(y - AtLeastOne(a)));
      } else if c == 'd' as int {
        GotoXY(Unsigned(x), FromOne(a));
      } else if c == 'H' as int || c == 'f' as int {
        GotoXY(FromOne(b), FromOne(a));
      } else if c == 'J' as int {
        CsiJ(a);
      } else if c == 'K' as int {
        CsiK(a);
      } else if c == 'L' as int {
        Repeat(LineIn, a);
      } else if c == 'M' as int {
        Repeat(LineOut, a);
      } else if c == 'P' as int {
        Repeat(CharOut, a);
      } else if c == '@' as int {
        Repeat(CharIn, a);
      } else if c == 'm' as int {
        CsiM();
      } else if c == 'r' as int {
        SetRegion(a, b);
      } else if c == 's' as int {
        SaveCursor();
      } else if c == 'u' as int {
        GotoXY(Unsigned(savedX), Unsigned(savedY));
      }
    }

    /** console_write (console.c:440-620): the screen shown is the one the plain terminal would show. */
    method Write(chars: seq<int>)
      requires Valid()
      modifies this, mem, par
      ensures Valid() && View() == PutAll(old(View()), chars, erase)
    {
      hide TermOk, Row, Ground, Escape, Collect, Window;
      ghost var t := View();
      var nr := 0;
      assert chars[..0] == [];
      while nr < |chars|
        invariant 0 <= nr <= |chars| && Valid() && View() == PutAll(t, chars[..nr], erase)
      {
        var c := chars[nr];
        ghost var u := View();
        StateOk(u);
        if state == 0 {
          InGround(c);
        } else if state == 1 {
          InEscape(c);
        } else if state == 2 {
          ClearPar();
          if c != '?' as int {
            InSequence(c);
          }
        } else {
          InSequence(c);
        }
        assert View() == Put(u, c, erase);
        assert chars[..nr + 1][..nr] == chars[..nr];
        nr := nr + 1;
      }
      assert chars[..nr] == chars;
    }
  }

  lemma DelOk(t: Term)
    requires TermOk(t)
    ensures TermOk(Del(t)) && (t.x > 0 ==> TermOk(t.(x := t.x - 1)))
  {
  }

  lemma WipeOk(t: Term, a: nat, b: nat)
    requires TermOk(t)
    ensures TermOk(t.(screen := Erased(t.screen, a, b)))
  {
  }

  lemma CharsOk(t: Term)
    requires TermOk(t)
    ensures TermOk(InsertChar(t)) && TermOk(DeleteChar(t)) && |t.screen| == Row(t.rows, t.cols)
  {
  }

  lemma ScrollOk(t: Term, top: nat, bottom: nat)
    requires TermOk(t)
    ensures TermOk(ScrollUp(t, top, bottom)) && TermOk(ScrollDown(t, top, bottom))
    ensures |ScrollUp(t, top, bottom).screen| == |t.screen| == |ScrollDown(t, top, bottom).screen| == Row(t.rows, t.cols)
  {
  }

  function Moved(m: seq<Cell>, to: nat, from: nat, n: nat): (r: seq<Cell>)
    requires to + n <= |m| && from + n <= |m|
    ensures |r| == |m| && forall i {:trigger r[i]} | 0 <= i < |m| :: r[i] == if to <= i < to + n then m[from + (i - to)] else m[i]
  {
    m[..to] + m[from..from + n] + m[to + n..]
  }

  /** The window has moved on by a row of video memory: it shows the scrolled screen. */
  lemma Panned(m: seq<Cell>, o: nat, n: nat, cols: nat, o': nat, last: nat)
    requires o' == o + cols && last == o + n && last + cols <= |m| && cols <= n
    ensures Erased(m, last, last + cols)[o'..o' + n] == ShiftedUp(m[o..o + n], 0, n, cols)
  {
    SameWindow(Erased(m, last, last + cols), o', ShiftedUp(m[o..o + n], 0, n, cols));
  }

  /** All rows but the first have been copied to the start: the window there shows the scrolled screen. */
  lemma BackAtStart(m: seq<Cell>, o: nat, n: nat, cols: nat, o': nat, kept: nat)
    requires o' == o + cols && kept + cols == n && o + n <= |m|
    ensures Erased(Moved(m, 0, o', kept), kept, kept + cols)[0..n] == ShiftedUp(m[o..o + n], 0, n, cols)
  {
    SameWindow(Erased(Moved(m, 0, o', kept), kept, kept + cols), 0, ShiftedUp(m[o..o + n], 0, n, cols));
  }

  lemma CopiedUp(m: seq<Cell>, o: nat, e: nat, a: nat, b: nat, cols: nat, to: nat, from: nat, n: nat)
    requires to == o + a && from == to + cols && n + cols + a == b && o + b <= e <= |m|
    ensures Erased(Moved(m, to, from, n), to + n, to + n + cols)[o..e] == ShiftedUp(m[o..e], a, b, cols)
  {
    SameWindow(Erased(Moved(m, to, from, n), to + n, to + n + cols), o, ShiftedUp(m[o..e], a, b, cols));
  }

  lemma CopiedDown(m: seq<Cell>, o: nat, e: nat, a: nat, b: nat, cols: nat, to: nat, from: nat, n: nat)
    requires from == o + a && to == from + cols && n + cols + a == b && o + b <= e <= |m|
    ensures Erased(Moved(m, to, from, n), from, from + cols)[o..e] == ShiftedDown(m[o..e], a, b, cols)
  {
    SameWindow(Erased(Moved(m, to, from, n), from, from + cols), o, ShiftedDown(m[o..e], a, b, cols));
  }

  lemma SameWindow(m: seq<Cell>, o: nat, s: seq<Cell>)
    requires o + |s| <= |m| && forall i | 0 <= i < |s| :: m[o + i] == s[i]
    ensures m[o..o + |s|] == s
  {
  }

  /** The edges of rows [top, bottom), as cells. */
  lemma Rows(top: nat, bottom: nat, rows: nat, cols: nat)
    requires top < bottom <= rows
    ensures Row(top + 1, cols) == Row(top, cols) + cols && Row(0, cols) == 0
    ensures Row(bottom - top - 1, cols) == Row(bottom, cols) - Row(top, cols) - cols
    ensures Row(top, cols) + cols <= Row(bottom, cols) <= Row(rows, cols) && Row(rows - 1, cols) == Row(rows, cols) - cols
  {
    RowFits(top, bottom, cols);
    RowsAscend(bottom, rows, cols);
    NextRow(top, cols);
    NextRow(rows - 1, cols);
    Difference(bottom, top + 1, cols);
  }

  lemma Difference(a: nat, b: nat, c: nat)
    requires b <= a
    ensures Row(a - b, c) == Row(a, c) - Row(b, c)
  {
  }

  lemma PushedRight(m: seq<Cell>, m': seq<Cell>, a: nat, b: nat)
    requires |m'| == |m| && a <= b <= |m| && (forall j | 0 <= j < |m| && (j < a || j >= b) :: m'[j] == m[j])
    requires (forall j {:trigger m'[j]} | a < j < b :: m'[j] == m[j - 1]) && (b > a ==> m'[a] == ERASE)
    ensures m' == ShiftedDown(m, a, b, 1)
  {
    SameCells(m', ShiftedDown(m, a, b, 1));
  }

  lemma PulledLeft(m: seq<Cell>, m': seq<Cell>, a: nat, b: nat)
    requires |m'| == |m| && a < b <= |m| && (forall j | 0 <= j < |m| && (j < a || j >= b) :: m'[j] == m[j])
    requires (forall j {:trigger m'[j]} | a <= j < b - 1 :: m'[j] == m[j + 1]) && m'[b - 1] == ERASE
    ensures m' == ShiftedUp(m, a, b, 1)
  {
    SameCells(m', ShiftedUp(m, a, b, 1));
  }

  lemma SameCells(a: seq<Cell>, b: seq<Cell>)
    requires |a| == |b| && forall i | 0 <= i < |a| :: a[i] == b[i]
    ensures a == b
  {
  }

  lemma ErasedWindow(m: seq<Cell>, o: nat, e: nat, a: nat, b: nat)
    requires o <= e <= |m| && a <= b <= e - o
    ensures Erased(m, o + a, o + b)[o..e] == Erased(m[o..e], a, b)
  {
    SameWindow(Erased(m, o + a, o + b), o, Erased(m[o..e], a, b));
  }

  lemma NothingErased(s: seq<Cell>, a: int, b: int)
    requires b <= a
    ensures Erased(s, a, b) == s
  {
  }

  lemma ShiftedDownWindow(m: seq<Cell>, o: nat, e: nat, a: nat, b: nat, n: nat)
    requires o <= e <= |m| && a <= b <= e - o
    ensures ShiftedDown(m, o + a, o + b, n)[o..e] == ShiftedDown(m[o..e], a, b, n)
  {
    SameWindow(ShiftedDown(m, o + a, o + b, n), o, ShiftedDown(m[o..e], a, b, n));
  }

  lemma ShiftedUpWindow(m: seq<Cell>, o: nat, e: nat, a: nat, b: nat, n: nat)
    requires o <= e <= |m| && a <= b <= e - o
    ensures ShiftedUp(m, o + a, o + b, n)[o..e] == ShiftedUp(m[o..e], a, b, n)
  {
    SameWindow(ShiftedUp(m, o + a, o + b, n), o, ShiftedUp(m[o..e], a, b, n));
  }

  lemma PastEnd(t: Term)
    requires TermOk(t) && t.x >= t.cols
    ensures TermOk(t.(x := t.x - t.cols)) && t.x - t.cols == 0
  {
  }

  lemma StoreOk(t: Term, w: Cell)
    requires TermOk(t) && t.x < t.cols
    ensures Place(t) < |t.screen| && TermOk(t.(screen := t.screen[Place(t) := w], x := t.x + 1))
  {
    RowFits(t.y, t.rows, t.cols);
  }

  lemma TabFits(t: Term)
    requires TermOk(t)
    ensures var x := t.x + (8 - t.x % 8); if x > t.cols then TermOk(t.(x := x - t.cols)) else TermOk(t.(x := x))
  {
  }

  lemma StateOk(t: Term)
    requires TermOk(t)
    ensures t.state <= 3 && t.attr < 256
  {
  }

  lemma ParOk(t: Term)
    requires TermOk(t)
    ensures |t.par| == NPAR && t.npar < NPAR
  {
  }
}
