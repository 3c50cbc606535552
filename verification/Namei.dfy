/**
  The system calls of linux-0.11/fs/namei.c that make and remove names, on one device.  A call is
  atomic; the walk down the path, permissions and the sticky bit are parameters.  Blocks of directories
  are sequences of entries.
*/
module Namei {
  import opened Bytes
  import opened Directories
  import opened Links

  datatype Errno = ENOENT | EPERM | EACCES | EEXIST | ENOSPC | ENOTDIR | ENOTEMPTY

  /** The inode a call made or found, an error, or a kernel panic. */
  datatype Outcome = Done(i: nat) | Failed(e: Errno) | Panic

  const ENTRIES_PER_BLOCK := 64

  class Volume {
    const inode: array<Node>       // by inode number, 0 not used
    const root: nat                // the root directory of the calling process

    ghost predicate Valid()
      reads inode
    {
      Inv(inode[..])
    }

    /** A device with a root directory, as mkfs leaves it. */
    constructor (n: nat, root: nat)
      requires n > 1
      ensures Valid() && inode.Length == n && this.root == root && fresh(inode)
      ensures inode[ROOT] == NewDir(ROOT, ROOT) && forall i | 0 <= i < n && i != ROOT :: inode[i].Free?
    {
      inode := new Node[n](_ => Free);
      this.root := root;
      new;
      inode[ROOT] := NewDir(ROOT, ROOT);
      FreshRoot(inode[..]);
    }

    /** The name find_entry looks for: ".." in the root of the process is ".". */
    function Target(dir: nat, name: seq<Byte>): Name {
      TargetIn(root, dir, name)
    }

    /** Byte by byte: the name, cut to 14 bytes and filled up with null bytes; "." for ".." in the root of the process. */
    lemma TargetBytes(dir: nat, name: seq<Byte>, j: nat)
      requires j < 14
      ensures dir != root || name != [46, 46] ==> Target(dir, name)[j] == if j < |name| then name[j] else 0
      ensures dir == root && name == [46, 46] ==> Target(dir, name)[j] == if j == 0 then 46 else 0
    {
    }

    /** find_entry (namei.c:93-174); -1 when the name is not there. */
    method FindEntry(dir: nat, name: seq<Byte>) returns (k: int)
      requires Valid() && dir < inode.Length && inode[dir].Dir? && IsName(name)
      ensures -1 <= k < |inode[dir].entries|
      ensures k >= 0 ==> Named(inode[dir].entries, k, Target(dir, name))
      ensures k < 0 <==> Lookup(inode[dir].entries, Target(dir, name)) == 0
      ensures k >= 0 ==> Lookup(inode[dir].entries, Target(dir, name)) == inode[dir].entries[k].nr
    {
      hide Total, Tree;
      var s := name;
      if |s| == 2 && s[0] == 46 && s[1] == 46 && dir == root {
        s := s[..1];
      }
      assert s == if name == DOTDOT && dir == root then DOT else name;
      var es := inode[dir].entries;
      assert DirOk(es, dir);
      k := 0;
      while k < |es|
        invariant 0 <= k <= |es| && forall j: nat | j < k :: !Named(es, j, Pad(s))
      {
        if es[k].nr != 0 {
          MatchIsName(s, es[k]);
        }
        if Match(Cut(s), s, es[k]) {
          LookupIs(es, Pad(s), k);
          return;
        }
        k := k + 1;
      }
      k := -1;
    }

    /**
      add_entry (namei.c:186-241): a free entry of the directory, or a new one at its end, gets the name.
      room tells whether create_block finds a block when the last one is full.
    */
    method AddEntry(dir: nat, name: seq<Byte>, room: bool) returns (k: int)
      requires dir < inode.Length && inode[dir].Dir?
      modifies inode
      ensures forall j | 0 <= j < inode.Length && j != dir :: inode[j] == old(inode[j])
      ensures k < 0 ==> inode[dir] == old(inode[dir])
      ensures k >= 0 <==> room || |old(inode[dir].entries)| % 64 != 0 || exists j :: 0 <= j < |old(inode[dir].entries)| && old(inode[dir].entries)[j].nr == 0
      ensures k >= 0 <==> HasRoom(old(inode[dir].entries), room)
      ensures var es := old(inode[dir].entries); k >= 0 ==> k <= |es| && (k < |es| ==> es[k].nr == 0)
      ensures k >= 0 ==> inode[dir] == old(inode[dir]).(entries := With(old(inode[dir].entries), k, Entry(0, Pad(name))))
      ensures k >= 0 ==> forall j | 0 <= j < k :: old(inode[dir]).entries[j].nr != 0
    {
      var es := inode[dir].entries;
      k := 0;
      while k < |es| && es[k].nr != 0
        invariant 0 <= k <= |es| && forall j | 0 <= j < k :: es[j].nr != 0
      {
        k := k + 1;
      }
      if k == |es| {
        if k % ENTRIES_PER_BLOCK == 0 && !room {
          return -1;
        }
        es := es + [Entry(0, Pad([]))];
      }
      es := es[k := Entry(es[k].nr, Pad(name))];
      inode[dir] := inode[dir].(entries := es);
    }

    /** new_inode (bitmap.c:171-213): the lowest free inode, 0 for none. */
    method NewInode() returns (i: nat)
      requires inode.Length > 0
      modifies inode
      ensures i < inode.Length && (i != 0 ==> old(inode[i]).Free? && inode[..] == old(inode[..])[i := File(1, 0)])
      ensures i != 0 <==> HasFree(old(inode[..]))
      ensures i != 0 <==> exists j :: 0 < j < inode.Length && old(inode[j]).Free?
      ensures i == 0 ==> inode[..] == old(inode[..])
      ensures forall j | 0 < j < i :: !old(inode[j]).Free?
    {
      i := 1;
      while i < inode.Length && !inode[i].Free?
        invariant 1 <= i && (i <= inode.Length || i == 1) && forall j | 0 < j < i && j < inode.Length :: !inode[j].Free?
        invariant inode[..] == old(inode[..])
      {
        i := i + 1;
      }
      if i >= inode.Length {
        assert !HasFree(inode[..]);
        return 0;
      }
      assert inode[..][i].Free?;
      inode[i] := File(1, 0);
    }

    /** iput by the call itself: an inode without links or other users is truncated and freed (inode.c:199-203). */
    method Put(i: nat)
      requires i < inode.Length && !inode[i].Free?
      modifies inode
      ensures inode[..] == old(inode[..])[i := if old(inode[i]).nlinks == 0 && old(inode[i]).users == 0 then Free else old(inode[i])]
    {
      if inode[i].nlinks == 0 && inode[i].users == 0 {
        inode[i] := Free;
      }
      assert inode[..] == old(inode[..])[i := inode[i]];
    }

    /**
      The creating half of open_namei (namei.c:412-443), which leaves the file open, and sys_mknod
      (namei.c:489-517), which does not.
    */
    method Create(dir: nat, name: seq<Byte>, allowed: bool, room: bool, open: bool) returns (o: Outcome)
      requires Valid() && dir < inode.Length && inode[dir].Dir? && IsName(name)
      modifies inode
      ensures Valid() && inode[dir].Dir?
      ensures o.Failed? ==> inode[..] == old(inode[..])
      ensures o.Done? || o == Failed(if old(Lookup(inode[dir].entries, Target(dir, name))) != 0 then EEXIST else if !allowed then EACCES else ENOSPC)
      ensures o.Done? <==> old(Lookup(inode[dir].entries, Target(dir, name)) == 0 && allowed && HasFree(inode[..]) && HasRoom(inode[dir].entries, room))
      ensures o.Done? ==> 0 < o.i < inode.Length && old(inode[o.i]).Free? && inode[o.i] == File(1, if open then 1 else 0)
      ensures o.Done? ==> forall j | 0 < j < o.i :: !old(inode[j]).Free?
      ensures o.Done? ==> OneMore(old(inode[dir].entries), inode[dir].entries, Target(dir, name), o.i)
      ensures o.Done? ==> forall j | 0 <= j < inode.Length && j != dir && j != o.i :: inode[j] == old(inode[j])
    {
      hide Inv, Total, Lookup, HasFree, HasRoom, OneMore, OneLess, Pad, With, Spot;
      ghost var v := inode[..];
      var k := FindEntry(dir, name);
      if k >= 0 {
        return Failed(EEXIST);
      }
      if !allowed {
        return Failed(EACCES);
      }
      var i := NewInode();
      if i == 0 {
        return Failed(ENOSPC);
      }
      k := AddEntry(dir, name, room);
      if k < 0 {
        inode[i] := SetLinks(inode[i], inode[i].nlinks - 1);
        Put(i);
        assert inode[..] == v;
        return Failed(ENOSPC);
      }
      WithNr(v[dir].entries, k, Pad(name), i);
      inode[dir] := inode[dir].(entries := inode[dir].entries[k := inode[dir].entries[k].(nr := i)]);
      if open {
        inode[i] := SetUsers(inode[i], 1);
      }
      NewName(v, dir, k, root, name);
      FreeTotal(v, i);
      LinkStep(v, dir, k, Pad(name), i, inode[i]);
      assert inode[..] == Added(v[i := inode[i]], dir, k, Entry(i, Pad(name)), v[dir].nlinks);
      AddedIsOneMore(v, dir, k, Pad(name), i);
      o := Done(i);
    }

    /** sys_link (namei.c:786-834), for the inode that the old name leads to; a link count is one byte. */
    method Link(i: nat, dir: nat, name: seq<Byte>, allowed: bool, room: bool) returns (o: Outcome)
      requires Valid() && 0 < i < inode.Length && !inode[i].Free? && dir < inode.Length && inode[dir].Dir? && IsName(name)
      modifies inode
      ensures o.Failed? ==> inode[..] == old(inode[..])
      ensures o.Done? ==> o.i == i && old(inode[i]).File? && inode[dir].Dir?
      ensures o.Done? ==> OneMore(old(inode[dir].entries), inode[dir].entries, Target(dir, name), i)
      ensures o.Done? && old(inode[i]).nlinks < 255 ==> inode[i] == SetLinks(old(inode[i]), old(inode[i]).nlinks + 1)
      ensures o.Done? && old(inode[i]).nlinks == 255 ==> inode[i] == if old(inode[i]).users == 0 then Free else SetLinks(old(inode[i]), 0)
      ensures o.Done? ==> forall j | 0 <= j < inode.Length && j != dir && j != i :: inode[j] == old(inode[j])
      ensures Valid() <==> o.Failed? || old(inode[i]).nlinks < 255
      ensures old(inode[i].Dir?) ==> o == Failed(EPERM)
      ensures old(inode[i].File?) && !allowed ==> o == Failed(EACCES)
      ensures old(inode[i].File?) && allowed && o.Failed? ==>
                o == Failed(if old(Lookup(inode[dir].entries, Target(dir, name))) != 0 then EEXIST else ENOSPC)
      ensures !o.Panic? && (o.Done? <==>
                old(inode[i].File? && allowed && Lookup(inode[dir].entries, Target(dir, name)) == 0 && HasRoom(inode[dir].entries, room)))
    {
      hide Inv, Total, Lookup, HasFree, HasRoom, OneMore, OneLess, Named, Pad, With, Spot;
      ghost var v := inode[..];
      if inode[i].Dir? {
        return Failed(EPERM);
      }
      if !allowed {
        return Failed(EACCES);
      }
      var k := FindEntry(dir, name);
      if k >= 0 {
        return Failed(EEXIST);
      }
      k := AddEntry(dir, name, room);
      if k < 0 {
        assert inode[..] == v;
        return Failed(ENOSPC);
      }
      WithNr(v[dir].entries, k, Pad(name), i);
      inode[dir] := inode[dir].(entries := inode[dir].entries[k := inode[dir].entries[k].(nr := i)]);
      inode[i] := SetLinks(inode[i], (inode[i].nlinks + 1) % 256);
      Put(i);
      NewName(v, dir, k, root, name);
      FileTotal(v, i);
      assert inode[..] == Added(v[i := inode[i]], dir, k, Entry(i, Pad(name)), v[dir].nlinks);
      AddedIsOneMore(v, dir, k, Pad(name), i);
      if v[i].nlinks < 255 {
        LinkStep(v, dir, k, Pad(name), i, inode[i]);
      } else {
        LinkOverflows(v, dir, k, Pad(name), i, inode[i]);
      }
      o := Done(i);
    }

    /** sys_unlink (namei.c:738-775). */
    method Unlink(dir: nat, name: seq<Byte>, allowed: bool) returns (o: Outcome)
      requires Valid() && dir < inode.Length && inode[dir].Dir? && IsName(name)
      modifies inode
      ensures Valid() && !o.Panic?
      ensures o.Failed? ==> inode[..] == old(inode[..])
      ensures var i := old(Lookup(inode[dir].entries, Target(dir, name)));
        && (!allowed ==> o == Failed(EPERM)) && (allowed && i == 0 ==> o == Failed(ENOENT))
        && (allowed && 0 < i < inode.Length ==> o == if old(inode[i]).Dir? then Failed(EPERM) else Done(i))
      ensures o.Done? ==> 0 < o.i < inode.Length && old(inode[o.i]).File? && old(inode[o.i]).nlinks > 0 && inode[dir].Dir?
      ensures o.Done? ==> Lookup(old(inode[dir].entries), Target(dir, name)) == o.i
      ensures o.Done? ==> OneLess(old(inode[dir].entries), inode[dir].entries, Target(dir, name))
      ensures o.Done? ==> var x := old(inode[o.i]); inode[o.i] == if x.nlinks == 1 && x.users == 0 then Free else SetLinks(x, x.nlinks - 1)
      ensures o.Done? ==> forall j | 0 <= j < inode.Length && j != dir && j != o.i :: inode[j] == old(inode[j])
    {
      hide Inv, Total, Lookup, HasFree, HasRoom, OneMore, OneLess, Pad, With, Spot;
      ghost var v := inode[..];
      if !allowed {
        return Failed(EPERM);
      }
      var k := FindEntry(dir, name);
      if k < 0 {
        return Failed(ENOENT);
      }
      var i := inode[dir].entries[k].nr;
      EntryIsUsed(v, dir, k);
      if inode[i].Dir? {
        return Failed(EPERM);
      }
      LinkedFile(v, dir, k);
      inode[dir] := inode[dir].(entries := inode[dir].entries[k := inode[dir].entries[k].(nr := 0)]);
      inode[i] := SetLinks(inode[i], inode[i].nlinks - 1);
      Put(i);
      UnlinkStep(v, dir, k, inode[i]);
      assert inode[..] == Cleared(v, dir, k, v[dir].nlinks)[i := inode[i]];
      ClearedIsOneLess(v, dir, k);
      o := Done(i);
    }

    /**
      sys_mkdir (namei.c:540-594); block tells whether new_block finds one for the new directory.  When
      add_entry then fails, its block is released twice, which is a panic.  A parent whose link count
      wraps to zero is freed by the last iput if nobody else uses it.
    */
    method Mkdir(dir: nat, name: seq<Byte>, allowed: bool, block: bool, room: bool) returns (o: Outcome)
      requires Valid() && dir < inode.Length && inode[dir].Dir? && IsName(name)
      modifies inode
      ensures o.Failed? ==> inode[..] == old(inode[..])
      ensures o.Done? ==> 0 < o.i < inode.Length && old(inode[o.i]).Free? && inode[o.i] == NewDir(o.i, dir)
      ensures o.Done? ==> forall j | 0 < j < o.i :: !old(inode[j]).Free?
      ensures o.Done? && old(inode[dir]).nlinks == 255 && old(inode[dir]).users == 0 ==> inode[dir].Free?
      ensures o.Done? && (old(inode[dir]).nlinks < 255 || old(inode[dir]).users > 0) ==>
                && inode[dir].Dir? && inode[dir].users == old(inode[dir]).users
                && inode[dir].nlinks == (old(inode[dir]).nlinks + 1) % 256
                && OneMore(old(inode[dir].entries), inode[dir].entries, Target(dir, name), o.i)
      ensures o.Done? ==> forall j | 0 <= j < inode.Length && j != dir && j != o.i :: inode[j] == old(inode[j])
      ensures o.Panic? <==> old(Lookup(inode[dir].entries, Target(dir, name)) == 0 && allowed && HasFree(inode[..]) && !HasRoom(inode[dir].entries, room)) && block
      ensures o.Failed? ==> o == Failed(if !allowed then EPERM else if old(Lookup(inode[dir].entries, Target(dir, name))) != 0 then EEXIST else ENOSPC)
      ensures o.Done? <==> old(Lookup(inode[dir].entries, Target(dir, name)) == 0 && allowed && HasFree(inode[..]) && HasRoom(inode[dir].entries, room)) && block
      ensures !o.Panic? ==> (Valid() <==> o.Failed? || old(inode[dir]).nlinks < 255)
    {
      hide Inv, Total, Lookup, HasFree, HasRoom, OneMore, OneLess, Pad, With, Spot;
      ghost var v := inode[..];
      if !allowed {
        return Failed(EPERM);
      }
      var k := FindEntry(dir, name);
      if k >= 0 {
        return Failed(EEXIST);
      }
      var i := NewInode();
      if i == 0 {
        return Failed(ENOSPC);
      }
      if !block {
        inode[i] := SetLinks(inode[i], inode[i].nlinks - 1);
        Put(i);
        assert inode[..] == v;
        return Failed(ENOSPC);
      }
      inode[i] := Dir(2, 0, [Entry(i, Pad(DOT)), Entry(dir, Pad(DOTDOT))]);
      k := AddEntry(dir, name, room);
      if k < 0 {
        return Panic;
      }
      NewName(v, dir, k, root, name);
      EnterDir(dir, k, Pad(name), i, v);
      o := Done(i);
    }

    /** The end of sys_mkdir (namei.c:587-592): the entry gets its number, the parent counts a link more. */
    method EnterDir(dir: nat, k: nat, n: Name, i: nat, ghost v: seq<Node>)
      requires Inv(v) && Spot(v, dir, k, n) && dir < inode.Length && 0 < i < |v| && v[i].Free?
      requires inode[..] == v[i := NewDir(i, dir)][dir := v[dir].(entries := With(v[dir].entries, k, Entry(0, n)))]
      modifies inode
      ensures i != dir && v[dir].nlinks < 256 && OneMore(v[dir].entries, With(v[dir].entries, k, Entry(i, n)), n, i)
      ensures Inv(inode[..]) <==> v[dir].nlinks < 255
      ensures var nlinks := (v[dir].nlinks + 1) % 256;
        inode[..] == v[i := NewDir(i, dir)][dir :=
          if nlinks == 0 && v[dir].users == 0 then Free else Dir(nlinks, v[dir].users, With(v[dir].entries, k, Entry(i, n)))]
    {
      hide Inv, Total, Lookup, OneMore, NewDir;
      ghost var v1 := inode[..];
      WithNr(v[dir].entries, k, n, i);
      inode[dir] := inode[dir].(entries := inode[dir].entries[k := inode[dir].entries[k].(nr := i)]);
      inode[dir] := SetLinks(inode[dir], (inode[dir].nlinks + 1) % 256);
      ghost var nlinks := inode[dir].nlinks;
      Put(dir);
      MkdirResult(v, dir, k, n, i, nlinks, inode[dir]);
      assert inode[..] == Added(v[i := NewDir(i, dir)], dir, k, Entry(i, n), nlinks)[dir := inode[dir]];
    }

    /** empty_dir (namei.c:600-642). */
    method EmptyDir(i: nat) returns (b: bool)
      requires Valid() && i < inode.Length && inode[i].Dir?
      ensures b <==> Empty(inode[i].entries)
    {
      hide Total, Tree;
      var es := inode[i].entries;
      assert DirOk(es, i);
      if |es| < 2 || es[0].nr != i || es[1].nr == 0 || es[0].name != Pad(DOT) || es[1].name != Pad(DOTDOT) {
        return false;
      }
      var nr := 2;
      while nr < |es|
        invariant 2 <= nr <= |es| && forall k | 2 <= k < nr :: es[k].nr == 0
      {
        if es[nr].nr != 0 {
          return false;
        }
        nr := nr + 1;
      }
      b := true;
    }

    /** sys_rmdir (namei.c:664-717). */
    method Rmdir(dir: nat, name: seq<Byte>, allowed: bool) returns (o: Outcome)
      requires Valid() && dir < inode.Length && inode[dir].Dir? && IsName(name)
      modifies inode
      ensures Valid() && !o.Panic?
      ensures o.Failed? ==> inode[..] == old(inode[..])
      ensures var i := old(Lookup(inode[dir].entries, Target(dir, name)));
        && (!allowed ==> o == Failed(EPERM)) && (allowed && i == 0 ==> o == Failed(ENOENT))
        && (allowed && 0 < i < inode.Length ==>
              var x := old(inode[i]);
              o == if x.Free? || x.users > 0 || i == dir then Failed(EPERM)
                   else if !x.Dir? then Failed(ENOTDIR)
                   else if (forall k | 2 <= k < |x.entries| :: x.entries[k].nr == 0) then Done(i)
                   else Failed(ENOTEMPTY))
      ensures o.Done? ==> 0 < o.i < inode.Length && old(inode[o.i]).Dir? && Empty(old(inode[o.i]).entries) && old(inode[o.i]).nlinks == 2
      ensures o.Done? ==> inode[o.i].Free? && o.i != dir && inode[dir].Dir? && inode[dir].nlinks + 1 == old(inode[dir]).nlinks
      ensures o.Done? ==> OneLess(old(inode[dir].entries), inode[dir].entries, Target(dir, name))
      ensures o.Done? ==> forall j | 0 <= j < inode.Length && j != dir && j != o.i :: inode[j] == old(inode[j])
    {
      hide Inv, Total, Lookup, HasFree, HasRoom, OneMore, OneLess, Pad, With, Spot;
      ghost var v := inode[..];
      if !allowed {
        return Failed(EPERM);
      }
      var k := FindEntry(dir, name);
      if k < 0 {
        return Failed(ENOENT);
      }
      var i := inode[dir].entries[k].nr;
      EntryIsUsed(v, dir, k);
      if inode[i].users > 0 || i == dir {
        return Failed(EPERM);
      }
      if !inode[i].Dir? {
        return Failed(ENOTDIR);
      }
      var empty := EmptyDir(i);
      if !empty {
        return Failed(ENOTEMPTY);
      }
      RmdirStep(v, dir, k, i);
      inode[dir] := inode[dir].(entries := inode[dir].entries[k := inode[dir].entries[k].(nr := 0)]);
      inode[dir] := SetLinks(inode[dir], inode[dir].nlinks - 1);
      inode[i] := Free;
      assert inode[..] == Cleared(v, dir, k, v[dir].nlinks - 1)[i := Free];
      ClearedIsOneLess(v, dir, k);
      o := Done(i);
    }

    /** A file or directory is opened or becomes some process's, or is let go (iput). */
    method Use(i: nat, up: bool)
      requires Valid() && i < inode.Length && !inode[i].Free? && (!up ==> inode[i].users > 0)
      modifies inode
      ensures Valid() && forall j | 0 <= j < inode.Length && j != i :: inode[j] == old(inode[j])
      ensures var x := old(inode[i]); inode[i] == if up then SetUsers(x, x.users + 1)
        else if x.File? && x.users == 1 && x.nlinks == 0 then Free else SetUsers(x, x.users - 1)
    {
      hide Inv, Total;
      ghost var v := inode[..];
      inode[i] := SetUsers(inode[i], if up then inode[i].users + 1 else inode[i].users - 1);
      assert inode[..] == v[i := inode[i]];
      if inode[i].File? && !up {
        Put(i);
      }
      UsersStep(v, i, inode[i]);
      assert inode[..] == v[i := inode[i]];
    }

    /** The calls after which the counts are wrong, a link or mkdir that wraps one; and the mkdir that panics. */
    predicate Breaks(c: Call)
      reads inode
    {
      match c
      case Linking(i, d, s, allowed, room) =>
        && 0 < i < inode.Length && inode[i].File? && inode[i].nlinks == 255 && d < inode.Length && inode[d].Dir? && IsName(s)
        && allowed && !Taken(inode[d].entries, Target(d, s)) && HasRoom(inode[d].entries, room)
      case MakingDir(d, s, allowed, block, room) =>
        && d < inode.Length && inode[d].Dir? && IsName(s)
        && allowed && !Taken(inode[d].entries, Target(d, s)) && HasFree(inode[..]) && block
        && (!HasRoom(inode[d].entries, room) || inode[d].nlinks == 255)
      case _ => false
    }

    /** One call that does not break the counts; its error is ENOENT if the walk to the directory fails. */
    method Do(c: Call) returns (o: Outcome)
      requires Valid() && !Breaks(c)
      modifies inode
      ensures Valid() && Happened(c, root, old(inode[..]), o, inode[..])
    {
      hide Inv, Total, Lookup, OneMore, OneLess, HasFree, HasRoom, Taken, Pad, NewDir;
      o := Failed(ENOENT);
      match c {
        case Creating(d, s, allowed, room, open) =>
          if d < inode.Length && inode[d].Dir? && IsName(s) {
            o := Create(d, s, allowed, room, open);
          }
        case Linking(i, d, s, allowed, room) =>
          if 0 < i < inode.Length && !inode[i].Free? && d < inode.Length && inode[d].Dir? && IsName(s) {
            TakenIsFound(inode[d].entries, Target(d, s));
            if inode[i].File? {
              NotOver(inode[..], i);
            }
            o := Link(i, d, s, allowed, room);
          }
        case Unlinking(d, s, allowed) =>
          if d < inode.Length && inode[d].Dir? && IsName(s) {
            FoundIsUsed(inode[..], d, Target(d, s));
            o := Unlink(d, s, allowed);
          }
        case MakingDir(d, s, allowed, block, room) =>
          if d < inode.Length && inode[d].Dir? && IsName(s) {
            DirTotal(inode[..], d);
            TakenIsFound(inode[d].entries, Target(d, s));
            o := Mkdir(d, s, allowed, block, room);
          }
        case RemovingDir(d, s, allowed) =>
          if d < inode.Length && inode[d].Dir? && IsName(s) {
            FoundIsUsed(inode[..], d, Target(d, s));
            o := Rmdir(d, s, allowed);
          }
        case Using(i, up) =>
          if i < inode.Length && !inode[i].Free? && (up || inode[i].users > 0) {
            Use(i, up);
            o := Done(i);
          }
      }
    }

    /** Any sequence of calls, up to one that breaks the counts or panics: the link counts are right. */
    method Run(calls: seq<Call>) returns (n: nat, results: seq<Outcome>, ghost trace: seq<seq<Node>>)
      requires Valid()
      modifies inode
      ensures Valid() && n <= |calls| && (n < |calls| ==> Breaks(calls[n]))
      ensures IsRun(calls[..n], root, results, trace) && trace[0] == old(inode[..]) && trace[n] == inode[..]
      ensures forall i | 0 < i < inode.Length && !inode[i].Free? :: inode[i].nlinks == Total(inode[..], i, inode.Length)
    {
      hide Inv, Total, Happened;
      n, results, trace := 0, [], [inode[..]];
      while n < |calls| && !Breaks(calls[n])
        invariant n <= |calls| && Valid()
        invariant IsRun(calls[..n], root, results, trace) && trace[0] == old(inode[..]) && trace[n] == inode[..]
      {
        var o := Do(calls[n]);
        RunGoesOn(calls, n, root, results, trace, o, inode[..]);
        results, trace, n := results + [o], trace + [inode[..]], n + 1;
      }
      CountsAreRight(inode[..]);
    }
  }

  /** The name find_entry looks for: ".." in the root of the process is ".". */
  function TargetIn(root: nat, dir: nat, name: seq<Byte>): Name {
    Pad(if name == DOTDOT && dir == root then DOT else name)
  }

  // ----- Histories -----

  predicate IsDir(v: seq<Node>, d: nat) {
    d < |v| && v[d].Dir?
  }

  /** Inode i is the lowest free one. */
  ghost predicate Lowest(v: seq<Node>, i: nat) {
    0 < i < |v| && v[i].Free? && forall j | 0 < j < i :: !v[j].Free?
  }

  /** Directory d has gained the name for inode i, and only these two changed. */
  ghost predicate Entered(v: seq<Node>, v': seq<Node>, d: nat, n: Name, i: nat)
    requires IsDir(v, d) && |v'| == |v|
  {
    v'[d].Dir? && OneMore(v[d].entries, v'[d].entries, n, i) && forall j | 0 <= j < |v| && j != d && j != i :: v'[j] == v[j]
  }

  /** Directory d has lost the name, and only it and inode i changed. */
  ghost predicate Left(v: seq<Node>, v': seq<Node>, d: nat, n: Name, i: nat)
    requires IsDir(v, d) && |v'| == |v|
  {
    v'[d].Dir? && OneLess(v[d].entries, v'[d].entries, n) && forall j | 0 <= j < |v| && j != d && j != i :: v'[j] == v[j]
  }

  /** What each call answers and does. */
  ghost predicate Happened(c: Call, root: nat, v: seq<Node>, o: Outcome, v': seq<Node>) {
    && |v'| == |v| && (o.Failed? ==> v' == v)
    && match c
       case Creating(d, s, allowed, room, open) =>
         if !IsDir(v, d) || !IsName(s) then o == Failed(ENOENT)
         else
           var n := TargetIn(root, d, s);
           if Lookup(v[d].entries, n) != 0 then o == Failed(EEXIST)
           else if !allowed then o == Failed(EACCES)
           else if !HasFree(v) || !HasRoom(v[d].entries, room) then o == Failed(ENOSPC)
           else o.Done? && Lowest(v, o.i) && Entered(v, v', d, n, o.i) && v'[o.i] == File(1, if open then 1 else 0)
       case Linking(i, d, s, allowed, room) =>
         if !(0 < i < |v|) || v[i].Free? || !IsDir(v, d) || !IsName(s) then o == Failed(ENOENT)
         else
           var n := TargetIn(root, d, s);
           if v[i].Dir? then o == Failed(EPERM)
           else if !allowed then o == Failed(EACCES)
           else if Lookup(v[d].entries, n) != 0 then o == Failed(EEXIST)
           else if !HasRoom(v[d].entries, room) then o == Failed(ENOSPC)
           else o == Done(i) && Entered(v, v', d, n, i) && v'[i] == SetLinks(v[i], v[i].nlinks + 1)
       case Unlinking(d, s, allowed) =>
         if !IsDir(v, d) || !IsName(s) then o == Failed(ENOENT)
         else
           var n := TargetIn(root, d, s);
           var i := Lookup(v[d].entries, n);
           if !allowed then o == Failed(EPERM)
           else if i == 0 then o == Failed(ENOENT)
           else i < |v| && if v[i].Dir? then o == Failed(EPERM)
                           else && o == Done(i) && v[i].File? && v[i].nlinks > 0 && Left(v, v', d, n, i)
                                && v'[i] == if v[i].nlinks == 1 && v[i].users == 0 then Free else SetLinks(v[i], v[i].nlinks - 1)
       case MakingDir(d, s, allowed, block, room) =>
         if !IsDir(v, d) || !IsName(s) then o == Failed(ENOENT)
         else
           var n := TargetIn(root, d, s);
           if !allowed then o == Failed(EPERM)
           else if Lookup(v[d].entries, n) != 0 then o == Failed(EEXIST)
           else if !HasFree(v) || !block then o == Failed(ENOSPC)
           else && o.Done? && Lowest(v, o.i) && Entered(v, v', d, n, o.i) && v'[o.i] == NewDir(o.i, d)
                && v'[d].nlinks == v[d].nlinks + 1 && v'[d].users == v[d].users
       case RemovingDir(d, s, allowed) =>
         if !IsDir(v, d) || !IsName(s) then o == Failed(ENOENT)
         else
           var n := TargetIn(root, d, s);
           var i := Lookup(v[d].entries, n);
           if !allowed then o == Failed(EPERM)
           else if i == 0 then o == Failed(ENOENT)
           else i < |v| && !v[i].Free? && if v[i].users > 0 || i == d then o == Failed(EPERM)
                           else if !v[i].Dir? then o == Failed(ENOTDIR)
                           else if exists k :: 2 <= k < |v[i].entries| && v[i].entries[k].nr != 0 then o == Failed(ENOTEMPTY)
                           else o == Done(i) && Left(v, v', d, n, i) && v'[i].Free? && v'[d].nlinks + 1 == v[d].nlinks
       case Using(i, up) =>
         if i >= |v| || v[i].Free? || (!up && v[i].users == 0) then o == Failed(ENOENT)
         else && o == Done(i) && v' == v[i := v'[i]]
              && v'[i] == if up then SetUsers(v[i], v[i].users + 1)
                          else if v[i].File? && v[i].users == 1 && v[i].nlinks == 0 then Free else SetUsers(v[i], v[i].users - 1)
  }

  /** trace is the history these calls make, and results what they answered. */
  ghost predicate IsRun(calls: seq<Call>, root: nat, results: seq<Outcome>, trace: seq<seq<Node>>) {
    && |trace| == |calls| + 1 && |results| == |calls|
    && forall k | 0 <= k < |calls| :: Happened(calls[k], root, trace[k], results[k], trace[k + 1])
  }

  lemma RunGoesOn(calls: seq<Call>, n: nat, root: nat, results: seq<Outcome>, trace: seq<seq<Node>>, o: Outcome, v: seq<Node>)
    requires n < |calls| && IsRun(calls[..n], root, results, trace) && Happened(calls[n], root, trace[n], o, v)
    ensures IsRun(calls[..n + 1], root, results + [o], trace + [v])
  {
    hide Happened;
    var cs, rs, tr := calls[..n + 1], results + [o], trace + [v];
    forall k | 0 <= k <= n ensures Happened(cs[k], root, tr[k], rs[k], tr[k + 1]) {
      if k < n {
        assert Happened(calls[..n][k], root, trace[k], results[k], trace[k + 1]);
      }
    }
  }

  /** A name that is found names an inode in use. */
  lemma FoundIsUsed(v: seq<Node>, d: nat, n: Name)
    requires Inv(v) && IsDir(v, d)
    ensures Lookup(v[d].entries, n) != 0 ==> Lookup(v[d].entries, n) < |v| && !v[Lookup(v[d].entries, n)].Free?
  {
    hide Total, Tree;
    if Lookup(v[d].entries, n) != 0 {
      var k: nat :| Named(v[d].entries, k, n) && v[d].entries[k].nr == Lookup(v[d].entries, n);
      EntryIsUsed(v, d, k);
    }
  }

  /** The name is in the directory. */
  predicate Taken(es: seq<Entry>, n: Name) {
    exists k | 0 <= k < |es| :: Named(es, k, n)
  }

  lemma TakenIsFound(es: seq<Entry>, n: Name)
    ensures Taken(es, n) <==> Lookup(es, n) != 0
  {
  }

  predicate HasFree(v: seq<Node>) {
    exists i | 0 < i < |v| :: v[i].Free?
  }

  /** add_entry finds a place: a free entry, the rest of the last block, or a new block. */
  predicate HasRoom(es: seq<Entry>, room: bool) {
    room || |es| % ENTRIES_PER_BLOCK != 0 || exists k | 0 <= k < |es| :: es[k].nr == 0
  }

  /** After a call made a name for inode i, that name finds i and all others find what they found. */
  ghost predicate OneMore(es: seq<Entry>, es': seq<Entry>, n: Name, i: nat) {
    Lookup(es, n) == 0 && forall m: Name :: Lookup(es', m) == if m == n then i else Lookup(es, m)
  }

  /** After a call removed a name, it finds nothing and all others find what they found. */
  ghost predicate OneLess(es: seq<Entry>, es': seq<Entry>, n: Name) {
    Lookup(es, n) != 0 && forall m: Name :: Lookup(es', m) == if m == n then 0 else Lookup(es, m)
  }

  lemma AddedIsOneMore(v: seq<Node>, d: nat, k: nat, n: Name, i: nat)
    requires Dirs(v) && Spot(v, d, k, n) && i != 0
    ensures OneMore(v[d].entries, With(v[d].entries, k, Entry(i, n)), n, i)
  {
    hide Lookup;
    assert DirOk(v[d].entries, d);
    forall m: Name ensures Lookup(With(v[d].entries, k, Entry(i, n)), m) == if m == n then i else Lookup(v[d].entries, m) {
      EntryAdded(v[d].entries, k, n, i, m);
    }
  }

  /** The caller of add_entry fills in the inode number. */
  lemma WithNr(es: seq<Entry>, k: nat, n: Name, i: nat)
    requires k <= |es|
    ensures k < |With(es, k, Entry(0, n))| && With(es, k, Entry(0, n))[k].name == n
    ensures With(es, k, Entry(0, n))[k := Entry(i, n)] == With(es, k, Entry(i, n))
  {
  }

  lemma FreeTotal(v: seq<Node>, i: nat)
    requires Inv(v) && 0 < i < |v| && v[i].Free?
    ensures Total(v, i, |v|) == 0
  {
    hide Total, Tree, Dirs;
  }

  /** A name that is not found is not "." or "..", which every directory has. */
  lemma NewName(v: seq<Node>, d: nat, k: nat, root: nat, s: seq<Byte>)
    requires Inv(v) && d < |v| && v[d].Dir? && IsName(s)
    requires k <= |v[d].entries| && (k < |v[d].entries| ==> v[d].entries[k].nr == 0)
    requires Lookup(v[d].entries, Pad(if s == DOTDOT && d == root then DOT else s)) == 0
    ensures s != DOTDOT && Spot(v, d, k, Pad(s)) && Dirs(v)
  {
    hide Total, Tree, Lookup;
    var es := v[d].entries;
    assert d != 0 && DirOk(es, d);
    assert Named(es, 0, Pad(DOT)) && Named(es, 1, Pad(DOTDOT));
    LookupIs(es, Pad(DOT), 0);
    LookupIs(es, Pad(DOTDOT), 1);
    PadIsPadded(s);
  }

  lemma FreshRoot(v: seq<Node>)
    requires |v| > 1 && v[ROOT] == NewDir(ROOT, ROOT) && forall i | 0 <= i < |v| && i != ROOT :: v[i].Free?
    ensures Inv(v)
  {
    NewDirOk(ROOT, ROOT);
    forall i: nat ensures Total(v, i, |v|) == if i == ROOT then 2 else 0 {
      var w := v[ROOT := Free];
      CountTwo(v[ROOT].entries[0], v[ROOT].entries[1], i);
      assert v[ROOT].entries == [v[ROOT].entries[0], v[ROOT].entries[1]];
      TotalZero(w, i, |v|);
      TotalOne(w, v, i, |v|, ROOT);
    }
  }

  lemma MkdirResult(v: seq<Node>, d: nat, k: nat, n: Name, i: nat, nlinks: nat, x: Node)
    requires Inv(v) && Spot(v, d, k, n) && 0 < i < |v| && v[i].Free? && nlinks == (v[d].nlinks + 1) % 256
    requires x == if nlinks == 0 && v[d].users == 0 then Free else Dir(nlinks, v[d].users, With(v[d].entries, k, Entry(i, n)))
    ensures i != d && v[d].nlinks < 256
    ensures Inv(Added(v[i := NewDir(i, d)], d, k, Entry(i, n), nlinks)[d := x]) <==> v[d].nlinks < 255
    ensures OneMore(v[d].entries, With(v[d].entries, k, Entry(i, n)), n, i)
  {
    hide Inv, Total, Lookup, OneMore, NewDir;
    DirTotal(v, d);
    InvDirs(v);
    AddedIsOneMore(v, d, k, n, i);
    if v[d].nlinks < 255 {
      MkdirStep(v, d, k, n, i);
      var v2 := Added(v[i := NewDir(i, d)], d, k, Entry(i, n), nlinks);
      assert v2[d := x] == v2;
    } else {
      MkdirOverflows(v, d, k, n, i, x);
    }
  }

  lemma InvDirs(v: seq<Node>)
    requires Inv(v)
    ensures Dirs(v)
  {
  }

  lemma FileTotal(v: seq<Node>, i: nat)
    requires Inv(v) && 0 < i < |v| && v[i].File?
    ensures Total(v, i, |v|) == v[i].nlinks < 256
  {
    hide Total, Tree, Dirs;
  }

  lemma DirTotal(v: seq<Node>, d: nat)
    requires Inv(v) && d < |v| && v[d].Dir?
    ensures d > 0 && Total(v, d, |v|) == v[d].nlinks < 256
  {
    hide Total, Tree;
  }

  /** The 256th link wraps the count to zero. */
  lemma LinkOverflows(v: seq<Node>, d: nat, k: nat, n: Name, i: nat, x: Node)
    requires Inv(v) && Spot(v, d, k, n) && 0 < i < |v| && v[i].File? && v[i].nlinks == 255 && (x.Free? || (x.File? && x.nlinks == 0))
    ensures !Inv(Added(v[i := x], d, k, Entry(i, n), v[d].nlinks))
  {
    hide Total, Tree, Dirs, Lookup;
    var v2 := Added(v[i := x], d, k, Entry(i, n), v[d].nlinks);
    TotalOfFile(v, i, x, i);
    TotalAdded(v[i := x], d, k, Entry(i, n), v[d].nlinks, i);
    assert Total(v2, i, |v|) == 256;
  }

  /** So does the 254th subdirectory for the link count of its parent, which is freed if nobody uses it. */
  lemma MkdirOverflows(v: seq<Node>, d: nat, k: nat, n: Name, i: nat, x: Node)
    requires Inv(v) && Spot(v, d, k, n) && 0 < i < |v| && v[i].Free? && v[d].nlinks == 255 && d > 0
    requires x.Free? || x == Dir(0, v[d].users, With(v[d].entries, k, Entry(i, n)))
    ensures i != d && !Inv(Added(v[i := NewDir(i, d)], d, k, Entry(i, n), 0)[d := x])
  {
    hide Total, Tree, Dirs, Lookup, NewDir;
    var v2 := Added(v[i := NewDir(i, d)], d, k, Entry(i, n), 0);
    if x.Free? {
      var w := v2[d := x];
      NewDirNames(w, i, d);
      if Inv(w) {
        FreeUnnamed(w, d);
      }
    } else {
      assert v2[d := x] == v2;
      TotalOfNewDir(v, i, d, d);
      TotalAdded(v[i := NewDir(i, d)], d, k, Entry(i, n), 0, d);
      assert Total(v2, d, |v|) == 256;
    }
  }

  lemma NewDirNames(v: seq<Node>, i: nat, d: nat)
    requires i < |v| && v[i] == NewDir(i, d)
    ensures NamesAt(v, i, 1, d)
  {
  }

  /** An entry in use names an inode in use. */
  lemma EntryIsUsed(v: seq<Node>, d: nat, k: nat)
    requires Inv(v) && d < |v| && v[d].Dir? && k < |v[d].entries| && v[d].entries[k].nr != 0
    ensures v[d].entries[k].nr < |v| && !v[v[d].entries[k].nr].Free?
  {
    hide Total, Tree, Dirs;
    var i := v[d].entries[k].nr;
    CountNone(v[d].entries, i);
    TotalZero(v, i, |v|);
    assert Count(v[d], i) > 0;
  }

  lemma LinkedFile(v: seq<Node>, d: nat, k: nat)
    requires Inv(v) && d < |v| && v[d].Dir? && k < |v[d].entries| && 0 < v[d].entries[k].nr < |v|
    requires !v[v[d].entries[k].nr].Free?
    ensures v[v[d].entries[k].nr].nlinks > 0
  {
    hide Total, Tree, Dirs;
    var i := v[d].entries[k].nr;
    CountNone(v[d].entries, i);
    TotalZero(v, i, |v|);
    assert Count(v[d], i) > 0;
  }

  lemma ClearedIsOneLess(v: seq<Node>, d: nat, k: nat)
    requires Inv(v) && d < |v| && v[d].Dir? && k < |v[d].entries| && v[d].entries[k].nr != 0
    ensures var es := v[d].entries; OneLess(es, es[k := es[k].(nr := 0)], es[k].name) && Lookup(es, es[k].name) == es[k].nr
  {
    hide Lookup, Total, Tree;
    var es := v[d].entries;
    assert DirOk(es, d);
    assert Named(es, k, es[k].name);
    LookupIs(es, es[k].name, k);
    forall m: Name ensures Lookup(es[k := es[k].(nr := 0)], m) == if m == es[k].name then 0 else Lookup(es, m) {
      EntryCleared(es, k, m);
    }
  }

  /** A system call, with what the model leaves to chance. */
  datatype Call = Creating(dir: nat, name: seq<Byte>, allowed: bool, room: bool, open: bool)
                | Linking(i: nat, dir: nat, name: seq<Byte>, allowed: bool, room: bool)
                | Unlinking(dir: nat, name: seq<Byte>, allowed: bool)
                | MakingDir(dir: nat, name: seq<Byte>, allowed: bool, block: bool, room: bool)
                | RemovingDir(dir: nat, name: seq<Byte>, allowed: bool)
                | Using(i: nat, up: bool)

  lemma NotOver(v: seq<Node>, i: nat)
    requires Inv(v) && 0 < i < |v| && v[i].File?
    ensures v[i].nlinks < 256
  {
    hide Total, Tree, Dirs;
  }

  lemma CountsAreRight(v: seq<Node>)
    requires Inv(v)
    ensures forall i | 0 < i < |v| && !v[i].Free? :: v[i].nlinks == Total(v, i, |v|)
  {
    hide Total, Tree, Dirs;
  }
}
