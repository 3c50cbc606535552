/**
  linux-0.11/fs/pipe.c: the page-sized ring of a pipe, read and written by processes that sleep when it
  is empty or full.  Each method runs a call from one sleep to the next.
*/
module Pipe {
  import opened Bytes

  const PAGE_SIZE := 4096

  /** How a turn of read_pipe or write_pipe ended; BROKEN is the SIGPIPE return of -1. */
  datatype Turn = Finished | Asleep | Broken

  /** The n bytes from position tail on, around the ring. */
  function Around(page: seq<Byte>, tail: nat, n: nat): (s: seq<Byte>)
    requires |page| == PAGE_SIZE
    ensures |s| == n && forall k | 0 <= k < n :: s[k] == page[(tail + k) % PAGE_SIZE]
  {
    seq(n, k requires 0 <= k < n => page[(tail + k) % PAGE_SIZE])
  }

  /** PIPE_SIZE (include/linux/fs.h:60), on 16-bit values masked to twelve bits. */
  function Between(head: nat, tail: nat): (n: nat)
    ensures n <= PAGE_SIZE - 1
  {
    (head - tail) % PAGE_SIZE
  }

  lemma AroundDrop(page: seq<Byte>, tail: nat, n: nat, c: nat)
    requires |page| == PAGE_SIZE && tail < PAGE_SIZE && c <= n && tail + c <= PAGE_SIZE
    ensures Around(page, tail, n) == page[tail..tail + c] + Around(page, (tail + c) % PAGE_SIZE, n - c)
  {
    var s, t := Around(page, tail, n), page[tail..tail + c] + Around(page, (tail + c) % PAGE_SIZE, n - c);
    forall k | 0 <= k < n ensures s[k] == t[k] {
      Shift(tail, c, k);
    }
  }

  lemma Shift(tail: nat, c: nat, k: nat)
    requires tail < PAGE_SIZE && tail + c <= PAGE_SIZE
    ensures k < c ==> (tail + k) % PAGE_SIZE == tail + k
    ensures k >= c ==> ((tail + c) % PAGE_SIZE + (k - c)) % PAGE_SIZE == (tail + k) % PAGE_SIZE
  {
  }

  /** Bytes stored at the head do not disturb those already in the ring. */
  lemma AroundStore(page: seq<Byte>, page': seq<Byte>, tail: nat, n: nat, more: seq<Byte>)
    requires |page| == PAGE_SIZE == |page'| && tail < PAGE_SIZE && n + |more| < PAGE_SIZE
    requires (tail + n) % PAGE_SIZE + |more| <= PAGE_SIZE
    requires forall k | 0 <= k < PAGE_SIZE ::
               page'[k] == if (tail + n) % PAGE_SIZE <= k < (tail + n) % PAGE_SIZE + |more| then more[k - (tail + n) % PAGE_SIZE] else page[k]
    ensures Around(page', tail, n + |more|) == Around(page, tail, n) + more
  {
    var s, t := Around(page', tail, n + |more|), Around(page, tail, n) + more;
    forall k | 0 <= k < n + |more| ensures s[k] == t[k] {
      Position(tail, n, |more|, k);
    }
  }

  lemma Position(tail: nat, n: nat, m: nat, k: nat)
    requires tail < PAGE_SIZE && n + m < PAGE_SIZE && k < n + m && (tail + n) % PAGE_SIZE + m <= PAGE_SIZE
    ensures var head := (tail + n) % PAGE_SIZE; var a := (tail + k) % PAGE_SIZE;
      if k < n then !(head <= a < head + m) else a == head + (k - n)
  {
  }

  class PipeInode {
    const page: array<Byte>                  // the page at i_size
    var head: nat                            // i_zone[0]
    var tail: nat                            // i_zone[1]
    ghost var accepted: seq<Byte>            // the bytes taken by all writes so far
    ghost var delivered: seq<Byte>           // the bytes given to all reads so far

    function Size(): nat
      reads this
    {
      Between(head, tail)
    }

    ghost function Contents(): seq<Byte>
      reads this, page
      requires page.Length == PAGE_SIZE
    {
      Around(page[..], tail, Size())
    }

    ghost predicate Valid()
      reads this, page
    {
      page.Length == PAGE_SIZE && head < PAGE_SIZE && tail < PAGE_SIZE && accepted == delivered + Contents()
    }

    constructor ()
      ensures Valid() && accepted == [] == delivered && Size() == 0 && fresh(page)
    {
      page := new Byte[PAGE_SIZE];
      head, tail, accepted, delivered := 0, 0, [], [];
    }

    /** At most 4095 bytes are outstanding. */
    lemma Outstanding()
      requires Valid()
      ensures |accepted| - |delivered| == |Contents()| == Size() <= PAGE_SIZE - 1
    {
    }

    /**
      read_pipe (pipe.c:13-39) with count bytes still wanted; others tells whether anyone has the
      writing end open.  got is what this turn put into user memory.
    */
    method Read(count0: int, others: bool) returns (got: seq<Byte>, turn: Turn)
      requires Valid()
      modifies this
      ensures Valid() && accepted == old(accepted) && delivered == old(delivered) + got
      ensures old(Contents()) == got + Contents()
      ensures |got| < count0 ==> Size() == 0
      ensures if count0 > 0 then |got| <= count0 else got == []
      ensures turn == if count0 <= |got| then Finished else if others then Asleep else Finished
    {
      hide Contents;
      got := [];
      var count := count0;
      while count > 0
        invariant Valid() && accepted == old(accepted) && delivered == old(delivered) + got
        invariant old(Contents()) == got + Contents()
        invariant count + |got| == count0 && if count0 > 0 then count >= 0 else got == []
        decreases count
      {
        var size := Size();
        if size == 0 {
          return got, if others then Asleep else Finished;
        }
        var chars := PAGE_SIZE - tail;
        if chars > count {
          chars := count;
        }
        if chars > size {
          chars := size;
        }
        count := count - chars;
        ghost var was := Contents();
        var part := Drain(chars);
        assert got + was == got + part + Contents();
        got := got + part;
      }
      turn := Finished;
    }

    /** One turn of the reader's loop (pipe.c:31-35). */
    method Drain(chars: nat) returns (part: seq<Byte>)
      requires Valid() && 0 < chars <= Size() && tail + chars <= PAGE_SIZE
      modifies this
      ensures Valid() && accepted == old(accepted) && delivered == old(delivered) + part
      ensures |part| == chars && old(Contents()) == part + Contents()
    {
      hide Around, Between;
      var at := tail;
      AroundDrop(page[..], tail, Size(), chars);
      Retreat(head, tail, chars);
      ghost var was := Contents();
      tail := (tail + chars) % PAGE_SIZE;
      part := CopyOut(at, chars);
      assert was == part + Contents();
      delivered := delivered + part;
    }

    /** pipe.c:34-35. */
    method CopyOut(at: nat, chars: nat) returns (part: seq<Byte>)
      requires page.Length == PAGE_SIZE && at + chars <= PAGE_SIZE
      ensures part == page[at..at + chars]
    {
      part := [];
      while |part| < chars
        invariant |part| <= chars && part == page[at..at + |part|]
      {
        part := part + [page[at + |part|]];
      }
    }

    /**
      write_pipe (pipe.c:41-69) with data still to be written; others tells whether anyone has the
      reading end open.  n is how much this turn took.
    */
    method Write(data: seq<Byte>, others: bool) returns (n: nat, turn: Turn)
      requires Valid()
      modifies this, page
      ensures Valid() && n <= |data| && delivered == old(delivered) && accepted == old(accepted) + data[..n]
      ensures Contents() == old(Contents()) + data[..n]
      ensures turn == if n == |data| then Finished else if others then Asleep else if n > 0 then Finished else Broken
      ensures n < |data| ==> Size() == PAGE_SIZE - 1
    {
      hide Contents;
      n := 0;
      assert data[..n] == [];
      while n < |data|
        invariant n <= |data| && Valid() && delivered == old(delivered) && accepted == old(accepted) + data[..n]
        invariant Contents() == old(Contents()) + data[..n]
        decreases |data| - n
      {
        var size := PAGE_SIZE - 1 - Size();
        if size == 0 {
          return n, if others then Asleep else if n > 0 then Finished else Broken;
        }
        var chars := PAGE_SIZE - head;
        if chars > |data| - n {
          chars := |data| - n;
        }
        if chars > size {
          chars := size;
        }
        ghost var was := Contents();
        Fill(data, n, chars);
        assert was + data[n..n + chars] == Contents();
        assert data[..n] + data[n..n + chars] == data[..n + chars];
        n := n + chars;
      }
      turn := Finished;
    }

    /** One turn of the writer's loop (pipe.c:61-65). */
    method Fill(data: seq<Byte>, n: nat, chars: nat)
      requires Valid() && n + chars <= |data| && Size() + chars <= PAGE_SIZE - 1 && head + chars <= PAGE_SIZE
      modifies this, page
      ensures Valid() && delivered == old(delivered) && accepted == old(accepted) + data[n..n + chars]
      ensures Contents() == old(Contents()) + data[n..n + chars]
    {
      hide Around, Between;
      ghost var bytes, used, more := page[..], Size(), data[n..n + chars];
      var at := head;
      Advance(head, tail, chars);
      head := (head + chars) % PAGE_SIZE;
      CopyIn(at, data, n, chars);
      AroundStore(bytes, page[..], tail, used, more);
      accepted := accepted + more;
    }

    /** pipe.c:64-65. */
    method CopyIn(at: nat, data: seq<Byte>, from: nat, chars: nat)
      requires page.Length == PAGE_SIZE && at + chars <= PAGE_SIZE && from + chars <= |data|
      modifies page
      ensures forall k | 0 <= k < PAGE_SIZE :: page[k] == if at <= k < at + chars then data[from + k - at] else old(page[k])
    {
      var i := 0;
      while i < chars
        invariant i <= chars
        invariant forall k | 0 <= k < PAGE_SIZE :: page[k] == if at <= k < at + i then data[from + k - at] else old(page[k])
      {
        page[at + i] := data[from + i];
        i := i + 1;
      }
    }
  }

  lemma Advance(head: nat, tail: nat, c: nat)
    requires head < PAGE_SIZE && tail < PAGE_SIZE && Between(head, tail) + c <= PAGE_SIZE - 1
    ensures Between((head + c) % PAGE_SIZE, tail) == Between(head, tail) + c && (tail + Between(head, tail)) % PAGE_SIZE == head
  {
  }

  lemma Retreat(head: nat, tail: nat, c: nat)
    requires head < PAGE_SIZE && tail < PAGE_SIZE && c <= Between(head, tail)
    ensures Between(head, (tail + c) % PAGE_SIZE) == Between(head, tail) - c
  {
  }

  /** A turn of some reader or writer. */
  datatype Step = Reads(count: int, others: bool) | Writes(data: seq<Byte>, others: bool)

  /** What a turn took from the ring or put into it, how it ended, and how many bytes it left there. */
  datatype Took = Took(bytes: seq<Byte>, turn: Turn, level: nat)

  /** The turn went as far as the ring allowed. */
  predicate TookOk(step: Step, t: Took) {
    match step
    case Reads(count, others) =>
      && (if count > 0 then |t.bytes| <= count else t.bytes == [])
      && (|t.bytes| < count ==> t.level == 0)
      && t.turn == if count <= |t.bytes| then Finished else if others then Asleep else Finished
    case Writes(data, others) =>
      && t.bytes <= data
      && (t.bytes != data ==> t.level == PAGE_SIZE - 1)
      && t.turn == if t.bytes == data then Finished else if others then Asleep else if t.bytes != [] then Finished else Broken
  }

  /** The bytes of the first k turns that read, or of those that wrote, in order. */
  function Moved(steps: seq<Step>, took: seq<Took>, reading: bool, k: nat): seq<Byte>
    requires k <= |took| <= |steps|
  {
    if k == 0 then []
    else Moved(steps, took, reading, k - 1) + if steps[k - 1].Reads? == reading then took[k - 1].bytes else []
  }

  lemma {:induction false} MovedBefore(steps: seq<Step>, took: seq<Took>, took': seq<Took>, reading: bool, k: nat)
    requires k <= |took| <= |took'| <= |steps| && took <= took'
    ensures Moved(steps, took', reading, k) == Moved(steps, took, reading, k)
  {
    if k > 0 {
      MovedBefore(steps, took, took', reading, k - 1);
    }
  }

  /** After k turns what the ring held and what was written is what was read and what the ring holds. */
  ghost predicate Balanced(start: seq<Byte>, steps: seq<Step>, took: seq<Took>, k: nat, now: seq<Byte>)
    requires k <= |took| <= |steps|
  {
    start + Moved(steps, took, false, k) == Moved(steps, took, true, k) + now
  }

  /** How many bytes the ring holds after k turns. */
  function Level(start: nat, steps: seq<Step>, took: seq<Took>, k: nat): int
    requires k <= |took| <= |steps|
  {
    start + |Moved(steps, took, false, k)| - |Moved(steps, took, true, k)|
  }

  lemma TurnBalances(start: seq<Byte>, was: seq<Byte>, now: seq<Byte>, steps: seq<Step>, took: seq<Took>, t: Took)
    requires |took| < |steps| && Balanced(start, steps, took, |took|, was) && t.level == |now|
    requires if steps[|took|].Reads? then was == t.bytes + now else now == was + t.bytes
    ensures Balanced(start, steps, took + [t], |took| + 1, now) && t.level == Level(|start|, steps, took + [t], |took| + 1)
    ensures forall j | 0 <= j <= |took| :: Level(|start|, steps, took + [t], j) == Level(|start|, steps, took, j)
  {
    var k, took' := |took|, took + [t];
    forall j, b | 0 <= j <= k ensures Moved(steps, took', b, j) == Moved(steps, took, b, j) {
      MovedBefore(steps, took, took', b, j);
    }
    var w, r := Moved(steps, took, false, k), Moved(steps, took, true, k);
    if steps[k].Reads? {
      AfterRead(start, w, r, t.bytes, was, now);
    } else {
      AfterWrite(start, w, r, t.bytes, was, now);
    }
    assert |start + Moved(steps, took', false, k + 1)| == |Moved(steps, took', true, k + 1) + now|;
  }

  lemma AfterRead(start: seq<Byte>, w: seq<Byte>, r: seq<Byte>, b: seq<Byte>, was: seq<Byte>, now: seq<Byte>)
    requires start + w == r + was && was == b + now
    ensures start + w == (r + b) + now
  {
  }

  lemma AfterWrite(start: seq<Byte>, w: seq<Byte>, r: seq<Byte>, b: seq<Byte>, was: seq<Byte>, now: seq<Byte>)
    requires start + w == r + was && now == was + b
    ensures start + (w + b) == r + now
  {
    assert start + (w + b) == (start + w) + b;
    assert r + now == (r + was) + b;
  }

  /**
    Any interleaving of readers and writers: what was read, followed by the ring, is what was in the
    ring followed by what was written; and every turn went as far as the ring allowed.
  */
  method Run(pipe: PipeInode, steps: seq<Step>) returns (took: seq<Took>)
    requires pipe.Valid()
    modifies pipe, pipe.page
    ensures pipe.Valid() && pipe.Size() <= PAGE_SIZE - 1 && |took| == |steps|
    ensures Balanced(old(pipe.Contents()), steps, took, |steps|, pipe.Contents())
    ensures forall i | 0 <= i < |steps| :: TookOk(steps[i], took[i]) && took[i].level == Level(|old(pipe.Contents())|, steps, took, i + 1)
  {
    hide PipeInode.Contents, TookOk, Balanced, Level;
    took := [];
    ghost var start := pipe.Contents();
    StartsBalanced(start, steps);
    while |took| < |steps|
      invariant pipe.Valid() && |took| <= |steps| && Balanced(start, steps, took, |took|, pipe.Contents())
      invariant forall j | 0 <= j < |took| :: TookOk(steps[j], took[j]) && took[j].level == Level(|start|, steps, took, j + 1)
    {
      ghost var was := pipe.Contents();
      var t := TakeTurn(pipe, steps[|took|]);
      TurnBalances(start, was, pipe.Contents(), steps, took, t);
      took := took + [t];
    }
  }

  lemma StartsBalanced(start: seq<Byte>, steps: seq<Step>)
    ensures Balanced(start, steps, [], 0, start)
  {
  }

  /** One turn of the reader or writer whose turn it is. */
  method TakeTurn(pipe: PipeInode, step: Step) returns (t: Took)
    requires pipe.Valid()
    modifies pipe, pipe.page
    ensures pipe.Valid() && TookOk(step, t) && t.level == |pipe.Contents()|
    ensures if step.Reads? then old(pipe.Contents()) == t.bytes + pipe.Contents() else pipe.Contents() == old(pipe.Contents()) + t.bytes
  {
    hide Around, Between;
    match step {
      case Reads(count, others) =>
        var got, turn := pipe.Read(count, others);
        t := Took(got, turn, pipe.Size());
      case Writes(data, others) =>
        var n, turn := pipe.Write(data, others);
        t := Took(data[..n], turn, pipe.Size());
    }
  }
}
