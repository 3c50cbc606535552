/**
  Directory entries and link counts of one device, as linux-0.11/fs/namei.c keeps them.
*/
module Directories {
  import opened Bytes

  const ROOT := 1

  /** The name field of an entry, padded with null bytes. */
  type Name = s: seq<Byte> | |s| == 14 witness seq(14, _ => 0)

  /** struct dir_entry; inode number 0 marks an entry not in use. */
  datatype Entry = Entry(nr: nat, name: Name)

  /** An inode: free, a file or device, or a directory; users counts the references besides the call's own. */
  datatype Node = Free | File(nlinks: nat, users: nat) | Dir(nlinks: nat, users: nat, entries: seq<Entry>)

  /** x with another i_nlinks. */
  function SetLinks(x: Node, n: nat): Node {
    match x
    case Free => Free
    case File(_, users) => File(n, users)
    case Dir(_, users, entries) => Dir(n, users, entries)
  }

  function SetUsers(x: Node, n: nat): Node {
    match x
    case Free => Free
    case File(nlinks, _) => File(nlinks, n)
    case Dir(nlinks, _, entries) => Dir(nlinks, n, entries)
  }

  // ----- Names -----

  /** A name as a path gives it, not empty and without null bytes; only the first 14 bytes count. */
  predicate IsName(s: seq<Byte>) {
    s != [] && 0 !in s
  }

  function Pad(s: seq<Byte>): Name {
    seq(14, i requires 0 <= i < 14 => if i < |s| then s[i] else 0)
  }

  const DOT: seq<Byte> := [46]
  const DOTDOT: seq<Byte> := [46, 46]

  /** After a null byte there is nothing but null bytes. */
  predicate Padded(n: Name) {
    forall i, j | 0 <= i < j < 14 && n[i] == 0 :: n[j] == 0
  }

  /** match (namei.c:63-80), with the length cut to 14 by the caller. */
  predicate Match(len: nat, s: seq<Byte>, de: Entry)
    requires len <= |s| && len <= 14
  {
    de.nr != 0 && (len < 14 ==> de.name[len] == 0) && forall k | 0 <= k < len :: s[k] == de.name[k]
  }

  function Cut(s: seq<Byte>): nat {
    if |s| > 14 then 14 else |s|
  }

  /** match finds exactly the entries in use that carry the name. */
  lemma MatchIsName(s: seq<Byte>, de: Entry)
    requires IsName(s) && Padded(de.name)
    ensures Match(Cut(s), s, de) <==> de.nr != 0 && de.name == Pad(s)
  {
    if de.nr != 0 && de.name == Pad(s) {
      assert forall k | 0 <= k < Cut(s) :: s[k] == Pad(s)[k] == de.name[k];
    }
  }

  lemma PadIsPadded(s: seq<Byte>)
    requires IsName(s)
    ensures Padded(Pad(s))
  {
    forall i, j | 0 <= i < j < 14 && Pad(s)[i] == 0 ensures Pad(s)[j] == 0 {
      if i < |s| {
        assert s[i] in s;
      }
    }
  }

  // ----- One directory -----

  /** Entry k is the one in use under this name. */
  predicate Named(es: seq<Entry>, k: nat, n: Name) {
    k < |es| && es[k].nr != 0 && es[k].name == n
  }

  /** Names are unique, and all names are padded. */
  ghost predicate Names(es: seq<Entry>) {
    && (forall k | 0 <= k < |es| && es[k].nr != 0 :: Padded(es[k].name))
    && (forall k, l | 0 <= k < l < |es| && es[k].nr != 0 && es[l].nr != 0 :: es[k].name != es[l].name)
  }

  /** "." and ".." come first. */
  ghost predicate DirOk(es: seq<Entry>, d: nat) {
    && |es| >= 2 && es[0] == Entry(d, Pad(DOT)) && es[1].name == Pad(DOTDOT) && es[1].nr != 0
    && Names(es)
  }

  /** The directory with a new entry at k, which was free or one past the end. */
  function With(es: seq<Entry>, k: nat, e: Entry): (r: seq<Entry>)
    requires k <= |es|
  {
    if k < |es| then es[k := e] else es + [e]
  }

  /** What find_entry answers: the inode under a name, 0 for none. */
  ghost function Lookup(es: seq<Entry>, n: Name): nat {
    if exists k: nat :: Named(es, k, n) then (var k: nat :| Named(es, k, n); es[k].nr) else 0
  }

  lemma LookupIs(es: seq<Entry>, n: Name, k: nat)
    requires Names(es) && Named(es, k, n)
    ensures Lookup(es, n) == es[k].nr
  {
  }

  /** A name finds the inode of the entry in use that carries it, and 0 if there is none. */
  lemma LookupMeans(es: seq<Entry>, n: Name)
    requires Names(es)
    ensures forall k | 0 <= k < |es| && es[k].nr != 0 && es[k].name == n :: Lookup(es, n) == es[k].nr
    ensures (forall k | 0 <= k < |es| && es[k].nr != 0 :: es[k].name != n) ==> Lookup(es, n) == 0
  {
    forall k | 0 <= k < |es| && es[k].nr != 0 && es[k].name == n ensures Lookup(es, n) == es[k].nr {
      LookupIs(es, n, k);
    }
  }

  /** A new entry is found under its name; every other name finds what it found. */
  lemma EntryAdded(es: seq<Entry>, k: nat, n: Name, nr: nat, m: Name)
    requires Names(es) && k <= |es| && (k < |es| ==> es[k].nr == 0) && nr != 0 && Padded(n) && Lookup(es, n) == 0
    ensures Names(With(es, k, Entry(nr, n)))
    ensures Lookup(With(es, k, Entry(nr, n)), m) == if m == n then nr else Lookup(es, m)
  {
    var es' := With(es, k, Entry(nr, n));
    forall j | 0 <= j < |es| && es[j].nr != 0 ensures es[j].name != n {
      assert Named(es, j, es[j].name);
    }
    assert Names(es');
    if m == n {
      LookupIs(es', n, k);
    } else if j: nat :| Named(es, j, m) {
      assert Named(es', j, m);
      LookupIs(es, m, j);
      LookupIs(es', m, j);
    } else {
      assert forall j: nat :: Named(es', j, m) ==> j != k && Named(es, j, m);
    }
  }

  /** An entry that is cleared is not found any more; every other name finds what it found. */
  lemma EntryCleared(es: seq<Entry>, k: nat, m: Name)
    requires Names(es) && k < |es| && es[k].nr != 0
    ensures Names(es[k := es[k].(nr := 0)])
    ensures Lookup(es[k := es[k].(nr := 0)], m) == if m == es[k].name then 0 else Lookup(es, m)
  {
    var es' := es[k := es[k].(nr := 0)];
    assert Named(es, k, es[k].name);
    if j: nat :| Named(es', j, m) {
      assert Named(es, j, m);
      LookupIs(es, m, j);
      LookupIs(es', m, j);
    } else if m != es[k].name {
      assert forall j: nat :: Named(es, j, m) ==> Named(es', j, m);
    }
  }

  // ----- Counting links -----

  function CountIn(es: seq<Entry>, i: nat): nat {
    if es == [] then 0 else CountIn(es[..|es| - 1], i) + if es[|es| - 1].nr == i then 1 else 0
  }

  /** The entries of node x that name inode i. */
  function Count(x: Node, i: nat): nat {
    if x.Dir? then CountIn(x.entries, i) else 0
  }

  /** The entries of all directories below number n that name inode i. */
  function Total(v: seq<Node>, i: nat, n: nat): nat
    requires n <= |v|
  {
    if n == 0 then 0 else Total(v, i, n - 1) + Count(v[n - 1], i)
  }

  lemma {:induction false} CountSet(es: seq<Entry>, k: nat, e: Entry, i: nat)
    requires k < |es|
    ensures CountIn(es[k := e], i) + (if es[k].nr == i then 1 else 0) == CountIn(es, i) + (if e.nr == i then 1 else 0)
  {
    var n := |es| - 1;
    if k == n {
      assert es[k := e][..n] == es[..n];
    } else {
      assert es[k := e][..n] == es[..n][k := e];
      CountSet(es[..n], k, e, i);
    }
  }

  lemma CountWith(es: seq<Entry>, k: nat, e: Entry, i: nat)
    requires k <= |es| && (k < |es| ==> es[k].nr != i)
    ensures CountIn(With(es, k, e), i) == CountIn(es, i) + if e.nr == i then 1 else 0
  {
    if k < |es| {
      CountSet(es, k, e, i);
    } else {
      assert (es + [e])[..|es|] == es;
    }
  }

  lemma {:induction false} CountNone(es: seq<Entry>, i: nat)
    ensures CountIn(es, i) == 0 <==> forall k | 0 <= k < |es| :: es[k].nr != i
  {
    if es != [] {
      CountNone(es[..|es| - 1], i);
    }
  }

  lemma {:induction false} TotalOne(v: seq<Node>, v': seq<Node>, i: nat, n: nat, d: nat)
    requires n <= |v| == |v'| && forall e | 0 <= e < |v| && e != d :: Count(v'[e], i) == Count(v[e], i)
    ensures d < n ==> Total(v', i, n) + Count(v[d], i) == Total(v, i, n) + Count(v'[d], i)
    ensures d >= n ==> Total(v', i, n) == Total(v, i, n)
  {
    if n > 0 {
      TotalOne(v, v', i, n - 1, d);
    }
  }

  lemma {:induction false} TotalZero(v: seq<Node>, i: nat, n: nat)
    requires n <= |v|
    ensures Total(v, i, n) == 0 <==> forall d | 0 <= d < n :: Count(v[d], i) == 0
  {
    if n > 0 {
      TotalZero(v, i, n - 1);
    }
  }

  // ----- The invariant -----

  /** Entry k of directory d names inode i. */
  predicate NamesAt(v: seq<Node>, d: nat, k: nat, i: nat) {
    d < |v| && v[d].Dir? && k < |v[d].entries| && v[d].entries[k].nr == i
  }

  /** i_nlinks of every inode in use is the number of entries that name it; an inode not in use has none. */
  ghost predicate Counted(v: seq<Node>) {
    && (forall i | 0 < i < |v| && !v[i].Free? :: v[i].nlinks == Total(v, i, |v|) < 256)
    && (forall i: nat | i >= |v| || v[i].Free? :: i > 0 ==> Total(v, i, |v|) == 0)
  }

  ghost predicate Dirs(v: seq<Node>) {
    |v| > ROOT && v[ROOT].Dir? && v[0].Free? && forall d | 0 <= d < |v| && v[d].Dir? :: DirOk(v[d].entries, d)
  }

  /**
    Apart from "." and "..", a directory has one name, in the directory its ".." leads to; the root has
    none and is its own parent.
  */
  ghost predicate Tree(v: seq<Node>) {
    && (forall d: nat, k: nat, i: nat {:trigger NamesAt(v, d, k, i)} | NamesAt(v, d, k, i) && k >= 2 && 0 < i < |v| && v[i].Dir? ::
          i != ROOT && NamesAt(v, i, 1, d))
    && (forall d: nat, k: nat, e: nat, l: nat, i: nat {:trigger NamesAt(v, d, k, i), NamesAt(v, e, l, i)}
          | NamesAt(v, d, k, i) && NamesAt(v, e, l, i) && k >= 2 && l >= 2 && 0 < i < |v| && v[i].Dir? :: d == e && k == l)
    && (forall i: nat {:trigger v[i]} | i < |v| && v[i].Dir? && i != ROOT :: HasName(v, i))
    && NamesAt(v, ROOT, 1, ROOT)
  }

  /** The directory that ".." of i leads to has an entry for i. */
  ghost predicate HasName(v: seq<Node>, i: nat) {
    exists d: nat, k: nat :: NamesAt(v, d, k, i) && k >= 2
  }

  ghost predicate Inv(v: seq<Node>) {
    Dirs(v) && Counted(v) && Tree(v)
  }
}
