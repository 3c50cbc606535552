/** The ring buffers of linux-0.11/include/linux/tty.h. */
module TtyQueue {
  import opened LineEditor

  const SIZE := 1024       // TTY_BUF_SIZE

  /** The place in the buffer k after tail. */
  function At(tail: nat, k: nat): (a: nat)
    ensures a < SIZE
    ensures tail < SIZE && k < SIZE ==> a == if tail + k < SIZE then tail + k else tail + k - SIZE
  {
    (tail + k) % SIZE
  }

  /** The n characters from position tail on, around the ring. */
  function Around(buf: seq<Char>, tail: nat, n: nat): (s: seq<Char>)
    requires |buf| == SIZE
    ensures |s| == n && forall k | 0 <= k < n :: s[k] == buf[At(tail, k)]
  {
    seq(n, k requires 0 <= k < n => buf[At(tail, k)])
  }

  /** CHARS (tty.h:30). */
  function Between(head: nat, tail: nat): (n: nat)
    ensures n < SIZE
    ensures head < SIZE && tail < SIZE ==> n == if head >= tail then head - tail else head + SIZE - tail
  {
    (head - tail) % SIZE
  }

  /** INC and DEC (tty.h:24-25). */
  function Inc(a: nat): (r: nat)
    ensures r < SIZE
    ensures a < SIZE ==> r == if a == SIZE - 1 then 0 else a + 1
  {
    (a + 1) % SIZE
  }

  function Dec(a: nat): (r: nat)
    ensures r < SIZE
    ensures a < SIZE ==> r == if a == 0 then SIZE - 1 else a - 1
  {
    (a - 1) % SIZE
  }

  lemma IncHead(head: nat, tail: nat)
    requires head < SIZE && tail < SIZE && Between(head, tail) < SIZE - 1
    ensures Between(Inc(head), tail) == Between(head, tail) + 1 && At(tail, Between(head, tail)) == head
    ensures forall k: nat | k < Between(head, tail) :: At(tail, k) != head
  {
    hide At, Between, Inc;
  }

  lemma DecHead(head: nat, tail: nat)
    requires head < SIZE && tail < SIZE && head != tail
    ensures 0 < Between(head, tail) && Between(Dec(head), tail) == Between(head, tail) - 1
    ensures At(tail, Between(head, tail) - 1) == Dec(head)
  {
    hide At, Between, Dec;
  }

  lemma IncTail(head: nat, tail: nat)
    requires head < SIZE && tail < SIZE && head != tail
    ensures 0 < Between(head, tail) && Between(head, Inc(tail)) == Between(head, tail) - 1
    ensures At(tail, 0) == tail && forall k: nat {:trigger At(Inc(tail), k)} | k < SIZE - 1 :: At(Inc(tail), k) == At(tail, k + 1)
  {
    hide At, Between, Inc;
  }

  class Queue {
    var data: int
    var head: nat
    var tail: nat
    const buf: array<Char>

    ghost predicate Valid()
      reads `head, `tail
    {
      buf.Length == SIZE && head < SIZE && tail < SIZE
    }

    ghost function Contents(): seq<Char>
      reads `head, `tail, buf
      requires Valid()
    {
      Around(buf[..], tail, Between(head, tail))
    }

    constructor ()
      ensures Valid() && Contents() == [] && data == 0 && fresh(buf)
    {
      buf := new Char[SIZE];
      data, head, tail := 0, 0, 0;
    }

    /** EMPTY (tty.h:26). */
    predicate Empty()
      reads `head, `tail
    {
      head == tail
    }

    /** LEFT (tty.h:27). */
    function Left(): nat
      reads `head, `tail
    {
      (tail - head - 1) % SIZE
    }

    /** FULL (tty.h:29). */
    predicate Full()
      reads `head, `tail
    {
      Left() == 0
    }

    lemma Room()
      requires Valid()
      ensures Empty() <==> Contents() == []
      ensures Left() == SIZE - 1 - |Contents()|
    {
    }

    /** LAST (tty.h:28). */
    function Last(): (c: Char)
      reads `head, `tail, buf
      requires Valid() && !Empty()
      ensures Contents() != [] && c == Contents()[|Contents()| - 1]
    {
      DecHead(head, tail);
      buf[(head + SIZE - 1) % SIZE]
    }

    /** PUTCH (tty.h:33). */
    method Putch(c: Char)
      requires Valid() && !Full()
      modifies this`head, buf
      ensures Valid() && Contents() == old(Contents()) + [c]
    {
      hide Between, Inc, At;
      ghost var was := Contents();
      Room();
      IncHead(head, tail);
      buf[head] := c;
      head := Inc(head);
      forall k | 0 <= k < |was| ensures Contents()[k] == was[k] {
        assert At(tail, k) != old(head);
      }
    }

    /** GETCH (tty.h:31). */
    method Getch() returns (c: Char)
      requires Valid() && !Empty()
      modifies this`tail
      ensures Valid() && old(Contents()) == [c] + Contents()
    {
      hide Between, Inc, At;
      ghost var was := Contents();
      IncTail(head, tail);
      c := buf[tail];
      tail := Inc(tail);
      ghost var now := [c] + Contents();
      forall k | 0 <= k < |was| ensures was[k] == now[k] {
        if k > 0 {
          assert At(Inc(old(tail)), k - 1) == At(old(tail), k);
        }
      }
    }

    /** DEC(head): the last character is taken back. */
    method DropLast()
      requires Valid() && !Empty()
      modifies this`head
      ensures Valid() && old(Contents()) != [] && Contents() == old(Contents())[..|old(Contents())| - 1]
    {
      hide Between, At;
      DecHead(head, tail);
      head := Dec(head);
    }
  }
}
