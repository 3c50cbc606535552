/**
  The line discipline of linux-0.11/kernel/chr_drv/tty_io.c: copy_to_cooked between the rings of a
  terminal, and the canonical and raw reads that empty the second one.
*/
module Tty {
  import opened LineEditor
  import opened TtyQueue

  /** A turn of tty_read: the characters it gave, and whether it would sleep for more. */
  datatype Turn = Returned | Asleep | Again

  class Terminal {
    const termios: Termios
    const readQ: Queue
    const secondary: Queue
    var stopped: bool
    var signals: seq<Signal>       // sent to the process group
    var echo: seq<Char>            // handed to tty->write

    ghost predicate Shape()
      reads this, readQ, secondary
    {
      readQ != secondary && readQ.buf != secondary.buf && readQ.Valid() && secondary.Valid()
    }

    /** The counter of the second ring is the number of line ends in it. */
    ghost predicate Valid()
      reads this, readQ, secondary, secondary.buf
    {
      Shape() && secondary.data == Breaks(termios, secondary.Contents())
    }

    ghost function Now(): State
      reads this, readQ, secondary, secondary.buf
      requires Shape()
    {
      State(secondary.Contents(), stopped, signals, echo)
    }

    constructor (termios: Termios)
      ensures Valid() && this.termios == termios && readQ.Contents() == [] && Now() == State([], false, [], [])
      ensures fresh(readQ) && fresh(secondary) && fresh(readQ.buf) && fresh(secondary.buf)
    {
      this.termios := termios;
      var raw := new Queue();
      var cooked := new Queue();
      readQ, secondary, stopped, signals, echo := raw, cooked, false, [], [];
    }

    /** A character arrives from the keyboard or the line; it is lost when the ring is full. */
    method Receive(c: Char)
      requires Valid()
      modifies readQ`head, readQ.buf
      ensures Valid() && Now() == old(Now())
      ensures readQ.Contents() == if |old(readQ.Contents())| < SIZE - 1 then old(readQ.Contents()) + [c] else old(readQ.Contents())
    {
      hide Queue.Contents;
      readQ.Room();
      if !readQ.Full() {
        readQ.Putch(c);
      }
    }

    /** The rubbing out of tty_io.c:174-181 and 189-195, for a line of which one character goes. */
    method Rub()
      requires Shape() && !secondary.Empty()
      modifies this`echo, secondary`head
      ensures Shape() && old(secondary.Contents()) != []
      ensures secondary.Contents() == old(secondary.Contents())[..|old(secondary.Contents())| - 1]
      ensures echo == old(echo) + RubOut(termios, old(secondary.Contents())[|old(secondary.Contents())| - 1])
    {
      hide Queue.Contents;
      var c := secondary.Last();
      if termios.echo {
        if c < 32 {
          echo := echo + [127];
        }
        echo := echo + [127];
      }
      secondary.DropLast();
    }

    /** Killing the line (tty_io.c:169-183). */
    method Kill()
      requires Shape()
      modifies this`echo, secondary`head
      ensures Shape() && secondary.Contents() == Committed(termios, old(secondary.Contents()))
      ensures var s := old(secondary.Contents()); echo == old(echo) + RubOutAll(termios, s[|Committed(termios, s)|..])
    {
      hide Queue.Contents, RubOut, RubOutAll, Committed;
      ghost var s := secondary.Contents();
      ghost var p, e := Committed(termios, s), echo;
      ghost var line := s[|p|..];
      secondary.Room();
      assert s == p + line by { CommittedPrefix(termios, s); }
      while !(secondary.Empty() || secondary.Last() == 10 || secondary.Last() == termios.eof)
        invariant Shape() && secondary.Contents() == p + line && p + line <= s
        invariant e + RubOutAll(termios, s[|p|..]) == echo + RubOutAll(termios, line)
        decreases |line|
      {
        secondary.Room();
        NotCommitted(termios, s, |p + line|);
        RubOne(termios, echo, line);
        Rub();
        assert (p + line)[..|p + line| - 1] == p + line[..|line| - 1];
        line := line[..|line| - 1];
      }
      secondary.Room();
      StopsAtCommitted(termios, s, |p + line|);
      assert line == [];
      RubNone(termios, echo);
    }

    /** tty_io.c:168-206: the characters that edit the line; false when c is not one of them. */
    method Edit(c: Char) returns (done: bool)
      requires Valid()
      modifies this, secondary`head
      ensures Valid() && (!done ==> Now() == old(Now()) && !(termios.canon && c in {termios.kill, termios.erase, termios.stop, termios.start}))
      ensures done ==> termios.canon && c in {termios.kill, termios.erase, termios.stop, termios.start} && Now() == Type(termios, old(Now()), c)
    {
      hide Queue.Contents, Breaks;
      ghost var s := secondary.Contents();
      ghost var p := Committed(termios, s);
      EditCounts(termios, s);
      if !termios.canon {
        return false;
      }
      secondary.Room();
      if c == termios.kill {
        Kill();
        return true;
      }
      if c == termios.erase {
        if secondary.Empty() || secondary.Last() == 10 || secondary.Last() == termios.eof {
          return true;
        }
        EraseKeepsBreaks(termios, s);
        Rub();
        return true;
      }
      if c == termios.stop {
        stopped := true;
        return true;
      }
      if c == termios.start {
        stopped := false;
        return true;
      }
      return false;
    }

    /** One character of raw input (tty_io.c:158-232). */
    method Cook(raw: Char)
      requires Valid() && !secondary.Full()
      modifies this, secondary`head, secondary`data, secondary.buf
      ensures Valid() && Now() == Step(termios, old(Now()), raw)
    {
      hide Queue.Contents, Committed, Breaks, Echo;
      secondary.Room();
      var c := raw;
      if c == 13 {
        if termios.crnl {
          c := 10;
        } else if termios.nocr {
          return;
        }
      } else if c == 10 && termios.nlcr {
        c := 13;
      }
      if termios.uclc {
        c := ToLower(c);
      }
      assert Map(termios, raw) == As(c);
      ghost var st := Now();
      var done := Edit(c);
      if done {
        return;
      }
      if termios.isig {
        if c == termios.intr {
          signals := signals + [INT];
          return;
        }
        if c == termios.quit {
          signals := signals + [QUIT];
          return;
        }
      }
      secondary.Room();
      Append(c);
    }

    /** The character joins the line (tty_io.c:217-232). */
    method Append(c: Char)
      requires Valid() && !secondary.Full()
      modifies this`echo, secondary`head, secondary`data, secondary.buf
      ensures Valid() && secondary.Contents() == old(secondary.Contents()) + [c] && echo == old(echo) + Echo(termios, c)
    {
      hide Queue.Contents, Breaks;
      ghost var s := secondary.Contents();
      if c == 10 || c == termios.eof {
        secondary.data := secondary.data + 1;
      }
      if termios.echo {
        if c == 10 {
          echo := echo + [10];
          echo := echo + [13];
        } else if c < 32 {
          if termios.echoctl {
            echo := echo + [94];
            echo := echo + [c + 64];
          }
        } else {
          echo := echo + [c];
        }
      }
      secondary.Putch(c);
      BreaksAppend(termios, s, c);
    }

    /**
      copy_to_cooked (tty_io.c:152-235): the rings end up as the editor leaves plain sequences, and it
      goes on until the input is used up or the second ring is full.
    */
    method CopyToCooked() returns (ghost n: nat)
      requires Valid()
      modifies this, readQ`tail, secondary`head, secondary`data, secondary.buf
      ensures Valid() && n <= |old(readQ.Contents())| && readQ.Contents() == old(readQ.Contents())[n..]
      ensures Now() == StepAll(termios, old(Now()), old(readQ.Contents())[..n])
      ensures readQ.Contents() == [] || |secondary.Contents()| == SIZE - 1
    {
      hide Queue.Contents, Step;
      ghost var raw, st := readQ.Contents(), Now();
      n := 0;
      assert raw[..n] == [];
      readQ.Room();
      secondary.Room();
      while !readQ.Empty() && !secondary.Full()
        invariant Valid() && n <= |raw| && readQ.Contents() == raw[n..] && Now() == StepAll(termios, st, raw[..n])
        decreases |raw| - n
      {
        readQ.Room();
        var c := readQ.Getch();
        assert c == raw[n];
        Cook(c);
        assert raw[..n + 1][..n] == raw[..n];
        n := n + 1;
      }
      readQ.Room();
      secondary.Room();
    }

    /**
      tty_read from one sleep to the next (tty_io.c:263-291), without timeouts or signals: count is how
      many characters are still wanted, got0 how many this call has already been given.  b is what the
      turn put into user memory.
    */
    method Read(count0: nat, got0: nat, minimum: nat) returns (b: seq<Char>, turn: Turn)
      requires Valid() && count0 > 0
      modifies secondary`tail, secondary`data
      ensures Valid() && |b| <= count0
      ensures old(secondary.Contents()) == b + secondary.Contents() || (termios.canon && Eof(old(secondary.Contents()), b, secondary.Contents()))
      ensures termios.canon ==> termios.eof !in b
      ensures turn != Asleep ==> |b| == count0 || secondary.Contents() == [] || Eof(old(secondary.Contents()), b, secondary.Contents())
      ensures old(Waits()) <==> turn == Asleep
      ensures b == if turn == Asleep then [] else Given(termios, old(secondary.Contents()), count0)
      ensures var enough := if termios.canon then 1 else minimum;
        var eof := termios.canon && Eof(old(secondary.Contents()), b, secondary.Contents());
        turn == Returned <==> turn != Asleep && (|b| == count0 || got0 + |b| >= enough || eof)
    {
      hide Queue.Contents, Breaks, Given, GivenSoFar;
      b := [];
      secondary.Room();
      if secondary.Empty() || (termios.canon && secondary.data == 0 && secondary.Left() > 20) {
        return b, Asleep;
      }
      ghost var s := secondary.Contents();
      var count, more := count0, true;
      GivenNone(termios, s, count0);
      while more
        invariant Valid() && count >= 0 && (termios.canon ==> termios.eof !in b)
        invariant GivenSoFar(termios, s, count0, b, secondary.Contents(), count)
        invariant if more then count > 0 && !secondary.Empty() else count == 0 || secondary.Contents() == []
        decreases more, |secondary.Contents()|
      {
        secondary.Room();
        ghost var rest := secondary.Contents();
        var c := TakeOne();
        assert rest[0] == c && rest[1..] == secondary.Contents();
        GivenOneMore(termios, s, count0, b, rest, count);
        if c == termios.eof && termios.canon {
          return b, Returned;
        }
        b, count := b + [c], count - 1;
        secondary.Room();
        more := count > 0 && !secondary.Empty();
      }
      GivenAll(termios, s, count0, b, secondary.Contents(), count);
      turn := if count == 0 then Returned else if termios.canon then (if got0 + |b| > 0 then Returned else Again)
              else if got0 + |b| >= minimum then Returned else Again;
    }

    /** One character leaves the ring (tty_io.c:269-271). */
    method TakeOne() returns (c: Char)
      requires Valid() && !secondary.Empty()
      modifies secondary`tail, secondary`data
      ensures Valid() && old(secondary.Contents()) == [c] + secondary.Contents()
    {
      hide Queue.Contents, Breaks;
      c := secondary.Getch();
      BreaksConcat(termios, [c], secondary.Contents());
      OneBreak(termios, c);
      if c == termios.eof || c == 10 {
        secondary.data := secondary.data - 1;
      }
    }

    /** The sleep condition of tty_read (tty_io.c:263-264). */
    ghost predicate Waits()
      reads this, readQ, secondary, secondary.buf
      requires Shape()
    {
      secondary.Contents() == [] || (termios.canon && secondary.data == 0 && SIZE - 1 - |secondary.Contents()| > 20)
    }

    /** An end of file stood after b, and has been taken out without being given to the reader. */
    ghost predicate Eof(s: seq<Char>, b: seq<Char>, rest: seq<Char>)
      reads this
    {
      exists c: Char :: c == termios.eof && s == b + [c] + rest
    }
  }

  lemma OneBreak(t: Termios, c: Char)
    ensures Breaks(t, [c]) == if IsBreak(t, c) then 1 else 0
  {
    assert [c][..0] == [];
  }

  lemma EditCounts(t: Termios, s: seq<Char>)
    ensures Breaks(t, Committed(t, s)) == Breaks(t, s)
  {
    BreaksOfCommitted(t, s);
  }

  lemma CommittedPrefix(t: Termios, s: seq<Char>)
    ensures s == Committed(t, s) + s[|Committed(t, s)|..]
  {
  }

  lemma NotCommitted(t: Termios, s: seq<Char>, n: nat)
    requires |Committed(t, s)| <= n <= |s| && n > 0 && !IsBreak(t, s[n - 1])
    ensures n > |Committed(t, s)|
  {
  }

  lemma StopsAtCommitted(t: Termios, s: seq<Char>, n: nat)
    requires |Committed(t, s)| <= n <= |s| && (n == 0 || IsBreak(t, s[n - 1]))
    ensures n == |Committed(t, s)| && s[..n] == Committed(t, s)
  {
  }

  lemma EraseKeepsBreaks(t: Termios, s: seq<Char>)
    requires s != [] && !IsBreak(t, s[|s| - 1])
    ensures Breaks(t, s[..|s| - 1]) == Breaks(t, s) && |Committed(t, s)| < |s|
  {
  }
}
