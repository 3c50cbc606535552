/**
  Lists of C strings laid out one after another, as linux-0.11/fs/exec.c leaves the arguments and the
  environment at the top of a new program's memory.
*/
module ArgStrings {
  import opened Bytes

  /** A C string, without its terminator. */
  predicate IsString(s: seq<Byte>) {
    0 !in s
  }

  type CString = s: seq<Byte> | IsString(s)

  function Terminated(s: CString): (t: seq<Byte>)
    ensures |t| == |s| + 1 && t[|s|] == 0 && forall k | 0 <= k < |s| :: t[k] == s[k] != 0
  {
    s + [0]
  }

  /** The strings of ss, each with its terminator, in order. */
  function Flat(ss: seq<CString>): seq<Byte> {
    if ss == [] then [] else Terminated(ss[0]) + Flat(ss[1..])
  }

  lemma {:induction false} FlatConcat(a: seq<CString>, b: seq<CString>)
    ensures Flat(a + b) == Flat(a) + Flat(b)
  {
    if a == [] {
      assert a + b == b;
    } else {
      assert (a + b)[0] == a[0] && (a + b)[1..] == a[1..] + b;
      FlatConcat(a[1..], b);
    }
  }

  /** Every string takes at least its terminator. */
  lemma {:induction false} FlatIsLong(ss: seq<CString>)
    ensures |Flat(ss)| >= |ss|
  {
    if ss != [] {
      FlatIsLong(ss[1..]);
    }
  }

  /** Where string k begins, relative to the first. */
  function Start(ss: seq<CString>, k: nat): (o: nat)
    requires k <= |ss|
  {
    |Flat(ss[..k])|
  }

  /** String k stands, with its terminator, from Start(ss, k) up to Start(ss, k + 1). */
  lemma StartNext(ss: seq<CString>, k: nat)
    requires k < |ss|
    ensures Start(ss, k + 1) == Start(ss, k) + |ss[k]| + 1 <= |Flat(ss)|
    ensures Flat(ss)[Start(ss, k)..Start(ss, k + 1)] == Terminated(ss[k])
  {
    assert ss == ss[..k] + [ss[k]] + ss[k + 1..] && ss[..k + 1] == ss[..k] + [ss[k]];
    FlatConcat(ss[..k], [ss[k]]);
    FlatConcat(ss[..k] + [ss[k]], ss[k + 1..]);
    assert Flat([ss[k]]) == Terminated(ss[k]);
  }

  lemma StartIsBounded(ss: seq<CString>, k: nat)
    requires k <= |ss|
    ensures Start(ss, k) <= |Flat(ss)| && (k == |ss| ==> Start(ss, k) == |Flat(ss)|)
  {
    assert ss == ss[..k] + ss[k..];
    FlatConcat(ss[..k], ss[k..]);
  }

  // ----- Reading memory back -----

  /** The C string at address a. */
  ghost predicate StringAt(mem: seq<Byte>, a: nat, s: CString) {
    a + |s| < |mem| && mem[a..a + |s| + 1] == Terminated(s)
  }

  /** There is only one string at an address, so what is read back is what was written. */
  lemma StringAtUnique(mem: seq<Byte>, a: nat, s: CString, t: CString)
    requires StringAt(mem, a, s) && StringAt(mem, a, t)
    ensures s == t
  {
    NoShorter(mem, a, s, t);
    NoShorter(mem, a, t, s);
    assert Terminated(s) == Terminated(t);
    assert forall k | 0 <= k < |s| :: s[k] == Terminated(s)[k] == t[k];
  }

  lemma NoShorter(mem: seq<Byte>, a: nat, s: CString, t: CString)
    requires StringAt(mem, a, s) && StringAt(mem, a, t)
    ensures |s| >= |t|
  {
    var k: nat := |s|;
    BytesAt(mem, a, s, k);
    if k < |t| {
      BytesAt(mem, a, t, k);
    }
  }

  lemma BytesAt(mem: seq<Byte>, a: nat, s: CString, k: nat)
    requires StringAt(mem, a, s) && k <= |s|
    ensures mem[a + k] == Terminated(s)[k] && (mem[a + k] == 0 <==> k == |s|)
  {
    assert mem[a..a + |s| + 1][k] == mem[a + k];
  }

  /** The 32-bit word at address a, little end first. */
  function LongAt(mem: seq<Byte>, a: nat): nat
    requires a + 4 <= |mem|
  {
    (mem[a] as int) + 0x100 * (mem[a + 1] as int) + 0x1_0000 * (mem[a + 2] as int) + 0x100_0000 * (mem[a + 3] as int)
  }

  /** A table of pointers at address a to the strings of ss, in order, ended by a null pointer. */
  ghost predicate TableAt(mem: seq<Byte>, a: nat, ss: seq<CString>) {
    && a + 4 * |ss| + 4 <= |mem|
    && (forall k | 0 <= k < |ss| :: LongAt(mem, a + 4 * k) != 0 && StringAt(mem, LongAt(mem, a + 4 * k), ss[k]))
    && LongAt(mem, a + 4 * |ss|) == 0
  }

  /** The strings a program finds through a table are determined by memory. */
  lemma TableAtUnique(mem: seq<Byte>, a: nat, ss: seq<CString>, tt: seq<CString>)
    requires TableAt(mem, a, ss) && TableAt(mem, a, tt)
    ensures ss == tt
  {
    NoFewer(mem, a, ss, tt);
    NoFewer(mem, a, tt, ss);
    forall k | 0 <= k < |ss| ensures ss[k] == tt[k] {
      StringAtUnique(mem, LongAt(mem, a + 4 * k), ss[k], tt[k]);
    }
  }

  lemma NoFewer(mem: seq<Byte>, a: nat, ss: seq<CString>, tt: seq<CString>)
    requires TableAt(mem, a, ss) && TableAt(mem, a, tt)
    ensures |ss| >= |tt|
  {
    var k: nat := |ss|;
    if k < |tt| {
      PointerNotNull(mem, a, tt, k);
    }
  }

  lemma PointerNotNull(mem: seq<Byte>, a: nat, ss: seq<CString>, k: nat)
    requires TableAt(mem, a, ss) && k < |ss|
    ensures LongAt(mem, a + 4 * k) != 0
  {
  }
}
