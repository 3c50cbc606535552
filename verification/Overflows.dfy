/**
  Two sequences of system calls, from a fresh device on, after which a link count is wrong: a file that
  gets 256 names, and a directory that gets 254 subdirectories.
*/
module Overflows {
  import opened Bytes
  import opened Directories
  import opened Links
  import opened Namei

  /** 256 different names, none of them "." or "..". */
  function NameOf(k: nat): (s: seq<Byte>)
    requires k < 256
    ensures IsName(s) && |s| == 2 && s != DOTDOT
  {
    [1 + k % 16, 1 + k / 16]
  }

  lemma NamesDiffer(j: nat, k: nat)
    requires j < 256 && k < 256 && j != k
    ensures Pad(NameOf(j)) != Pad(NameOf(k))
  {
    assert Pad(NameOf(j))[0] == 1 + j % 16 && Pad(NameOf(j))[1] == 1 + j / 16;
    assert Pad(NameOf(k))[0] == 1 + k % 16 && Pad(NameOf(k))[1] == 1 + k / 16;
  }

  /** The names from k on are not in use. */
  ghost predicate FreeFrom(es: seq<Entry>, k: nat) {
    forall j: nat {:trigger NameOf(j)} | k <= j < 256 :: Lookup(es, Pad(NameOf(j))) == 0
  }

  lemma NewDirHasNone(i: nat, d: nat)
    ensures FreeFrom(NewDir(i, d).entries, 0)
  {
    var es := NewDir(i, d).entries;
    forall j: nat | j < 256 ensures Lookup(es, Pad(NameOf(j))) == 0 {
      var n := Pad(NameOf(j));
      assert n[0] <= 16 && Pad(DOT)[0] == 46 && Pad(DOTDOT)[0] == 46;
      assert forall k: nat :: !Named(es, k, n);
    }
  }

  lemma OneNameLess(es: seq<Entry>, es': seq<Entry>, k: nat, i: nat)
    requires k < 256 && FreeFrom(es, k) && OneMore(es, es', Pad(NameOf(k)), i)
    ensures FreeFrom(es', k + 1)
  {
    hide Lookup;
    forall j: nat | k + 1 <= j < 256 ensures Lookup(es', Pad(NameOf(j))) == 0 {
      NamesDiffer(j, k);
    }
  }

  /** mknod, 254 times link, and once more: the file has been freed, with 256 names that lead to it. */
  method LinkTooOften() returns (v: Volume, ghost before: seq<Node>)
    ensures fresh(v) && fresh(v.inode) && |before| == v.inode.Length == 3 && Inv(before) && before[2] == File(255, 0)
    ensures v.inode[2].Free? && !v.Valid()
  {
    hide Inv, Lookup, OneMore, FreeFrom, Total, HasFree, HasRoom;
    v := new Volume(3, ROOT);
    NewDirHasNone(ROOT, ROOT);
    SomeFree(v.inode[..], 2);
    FirstIsFree(v.inode[ROOT].entries, 0);
    ghost var es := v.inode[ROOT].entries;
    AlwaysRoom(es);
    var o := v.Create(ROOT, NameOf(0), true, true, false);
    OneNameLess(es, v.inode[ROOT].entries, 0, o.i);
    assert o.i == 2;
    var k := 1;
    while k < 255
      invariant 1 <= k <= 255 && v.Valid() && v.root == ROOT && v.inode.Length == 3 && fresh(v) && fresh(v.inode)
      invariant v.inode[ROOT].Dir? && v.inode[2] == File(k, 0) && FreeFrom(v.inode[ROOT].entries, k)
    {
      es := v.inode[ROOT].entries;
      FirstIsFree(es, k);
      AlwaysRoom(es);
      o := v.Link(2, ROOT, NameOf(k), true, true);
      OneNameLess(es, v.inode[ROOT].entries, k, 2);
      k := k + 1;
    }
    before := v.inode[..];
    FirstIsFree(v.inode[ROOT].entries, 255);
    AlwaysRoom(v.inode[ROOT].entries);
    o := v.Link(2, ROOT, NameOf(255), true, true);
  }

  /** mkdir, 253 times mkdir in there, and once more: the directory has been freed with all its names. */
  method MkdirTooOften() returns (v: Volume, ghost before: seq<Node>)
    ensures fresh(v) && fresh(v.inode) && |before| == v.inode.Length == 300
    ensures Inv(before) && before[2].Dir? && before[2].nlinks == 255
    ensures v.inode[2].Free? && !v.Valid()
  {
    hide Inv, Lookup, OneMore, FreeFrom, Total, HasFree, HasRoom;
    v := new Volume(300, ROOT);
    NewDirHasNone(ROOT, ROOT);
    SomeFree(v.inode[..], 2);
    FirstIsFree(v.inode[ROOT].entries, 0);
    AlwaysRoom(v.inode[ROOT].entries);
    var o := v.Mkdir(ROOT, NameOf(0), true, true, true);
    assert o.i == 2;
    NewDirHasNone(2, ROOT);
    var k := 0;
    while k < 253
      invariant k <= 253 && v.Valid() && v.root == ROOT && v.inode.Length == 300 && fresh(v) && fresh(v.inode)
      invariant v.inode[2].Dir? && v.inode[2].nlinks == 2 + k && v.inode[2].users == 0 && FreeFrom(v.inode[2].entries, k)
      invariant forall j | 3 + k <= j < 300 :: v.inode[j].Free?
    {
      ghost var es := v.inode[2].entries;
      SomeFree(v.inode[..], 3 + k);
      FirstIsFree(es, k);
      AlwaysRoom(es);
      o := v.Mkdir(2, NameOf(k), true, true, true);
      OneNameLess(es, v.inode[2].entries, k, o.i);
      k := k + 1;
    }
    before := v.inode[..];
    SomeFree(v.inode[..], 299);
    FirstIsFree(v.inode[2].entries, 253);
    AlwaysRoom(v.inode[2].entries);
    o := v.Mkdir(2, NameOf(253), true, true, true);
  }

  lemma SomeFree(v: seq<Node>, i: nat)
    requires 0 < i < |v| && v[i].Free?
    ensures HasFree(v)
  {
  }

  lemma AlwaysRoom(es: seq<Entry>)
    ensures HasRoom(es, true)
  {
  }

  lemma FirstIsFree(es: seq<Entry>, k: nat)
    requires k < 256 && FreeFrom(es, k)
    ensures Lookup(es, Pad(NameOf(k))) == 0
  {
  }
}
