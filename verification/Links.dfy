/** What the system calls of linux-0.11/fs/namei.c do to the link counts, step by step. */
module Links {
  import opened Directories

  /** Directory d with a new entry at k, which was free or one past the end; kind and users as they were. */
  function Added(v: seq<Node>, d: nat, k: nat, e: Entry, nlinks: nat): seq<Node>
    requires d < |v| && v[d].Dir? && k <= |v[d].entries|
  {
    v[d := Dir(nlinks, v[d].users, With(v[d].entries, k, e))]
  }

  function Cleared(v: seq<Node>, d: nat, k: nat, nlinks: nat): seq<Node>
    requires d < |v| && v[d].Dir? && k < |v[d].entries|
  {
    v[d := Dir(nlinks, v[d].users, v[d].entries[k := v[d].entries[k].(nr := 0)])]
  }

  /** A place for a new entry: past the two first ones, not in use, for a name not in the directory. */
  ghost predicate Spot(v: seq<Node>, d: nat, k: nat, n: Name) {
    && d < |v| && v[d].Dir? && k <= |v[d].entries| && (k < |v[d].entries| ==> v[d].entries[k].nr == 0)
    && Padded(n) && Lookup(v[d].entries, n) == 0
  }

  lemma SpotIsPastTwo(v: seq<Node>, d: nat, k: nat, n: Name)
    requires Dirs(v) && Spot(v, d, k, n)
    ensures k >= 2 && d > 0
  {
    assert d != 0 && DirOk(v[d].entries, d);
  }

  lemma TotalAdded(v: seq<Node>, d: nat, k: nat, e: Entry, nlinks: nat, i: nat)
    requires d < |v| && v[d].Dir? && k <= |v[d].entries| && (k < |v[d].entries| ==> v[d].entries[k].nr == 0) && i > 0
    ensures Total(Added(v, d, k, e, nlinks), i, |v|) == Total(v, i, |v|) + if e.nr == i then 1 else 0
  {
    CountWith(v[d].entries, k, e, i);
    TotalOne(v, Added(v, d, k, e, nlinks), i, |v|, d);
  }

  lemma TotalCleared(v: seq<Node>, d: nat, k: nat, nlinks: nat, i: nat)
    requires d < |v| && v[d].Dir? && k < |v[d].entries| && i > 0
    ensures Total(Cleared(v, d, k, nlinks), i, |v|) + (if v[d].entries[k].nr == i then 1 else 0) == Total(v, i, |v|)
  {
    CountSet(v[d].entries, k, v[d].entries[k].(nr := 0), i);
    TotalOne(v, Cleared(v, d, k, nlinks), i, |v|, d);
  }

  /** A file or free inode holds no entries, whatever becomes of it short of a directory. */
  lemma TotalOfFile(v: seq<Node>, i: nat, x: Node, j: nat)
    requires i < |v| && !v[i].Dir? && !x.Dir?
    ensures Total(v[i := x], j, |v|) == Total(v, j, |v|)
  {
    TotalOne(v, v[i := x], j, |v|, i);
  }

  // ----- A new entry for a file -----

  /** A name in directory d for file i, which is new or gets another link. */
  lemma LinkStep(v: seq<Node>, d: nat, k: nat, n: Name, i: nat, x: Node)
    requires Inv(v) && Spot(v, d, k, n) && 0 < i < |v| && !v[i].Dir? && x.File?
    requires x.nlinks == Total(v, i, |v|) + 1
    ensures i != d && (Inv(Added(v[i := x], d, k, Entry(i, n), v[d].nlinks)) <==> x.nlinks < 256)
  {
    hide Total, Lookup, DirOk, Tree, Dirs, Counted;
    var v2 := Added(v[i := x], d, k, Entry(i, n), v[d].nlinks);
    SpotIsPastTwo(v, d, k, n);
    CountedLink(v, d, k, n, i, x);
    RootAndZero(v);
    if x.nlinks < 256 {
      assert Dirs(v2) by {
        AddedDirs(v, v[i := x], v2, d, k, n, i);
      }
      assert Tree(v2) by {
        LinkTree(v, v2, d, k, n, i);
      }
    }
  }

  lemma CountedLink(v: seq<Node>, d: nat, k: nat, n: Name, i: nat, x: Node)
    requires Counted(v) && Spot(v, d, k, n) && 0 < i < |v| && !v[i].Dir? && x.File? && x.nlinks == Total(v, i, |v|) + 1
    ensures Counted(Added(v[i := x], d, k, Entry(i, n), v[d].nlinks)) <==> x.nlinks < 256
  {
    hide Total, Lookup;
    var v1, e := v[i := x], Entry(i, n);
    var v2 := Added(v1, d, k, e, v[d].nlinks);
    forall j: nat | j > 0 ensures Total(v2, j, |v|) == Total(v, j, |v|) + if j == i then 1 else 0 {
      TotalOfFile(v, i, x, j);
      TotalAdded(v1, d, k, e, v[d].nlinks, j);
    }
  }

  lemma AddedDirs(v: seq<Node>, v1: seq<Node>, v2: seq<Node>, d: nat, k: nat, n: Name, i: nat)
    requires Dirs(v) && Spot(v, d, k, n) && k >= 2 && i > 0 && |v1| == |v| && v1[d] == v[d] && v1[0].Free? && v1[ROOT].Dir?
    requires forall j | 0 <= j < |v| && v1[j].Dir? && j != d :: DirOk(v1[j].entries, j)
    requires |v2| == |v| && v2[d].Dir? && v2[d].entries == With(v[d].entries, k, Entry(i, n))
    requires forall j | 0 <= j < |v| && j != d :: v2[j] == v1[j]
    ensures Dirs(v2)
  {
    hide Lookup;
    EntryAdded(v[d].entries, k, n, i, n);
    DirsAdded(v, v1, v2, d, k, Entry(i, n));
  }

  lemma LinkTree(v: seq<Node>, v2: seq<Node>, d: nat, k: nat, n: Name, i: nat)
    requires Tree(v) && Dirs(v) && Spot(v, d, k, n) && k >= 2 && 0 < i < |v| && !v[i].Dir? && |v2| == |v| && !v2[i].Dir?
    requires v2[d].Dir? && v2[d].entries == With(v[d].entries, k, Entry(i, n))
    requires forall j | 0 <= j < |v| && j != d && j != i :: v2[j] == v[j]
    ensures Tree(v2)
  {
    hide DirOk, Lookup;
    FileTree(v, v2, d, k, i);
  }

  /** One entry more keeps a directory a directory. */
  lemma DirsAdded(v: seq<Node>, v1: seq<Node>, v2: seq<Node>, d: nat, k: nat, e: Entry)
    requires Dirs(v) && |v1| == |v| && d < |v| && v[d].Dir? && v1[d] == v[d] && 2 <= k <= |v[d].entries| && v1[0].Free?
    requires forall j | 0 <= j < |v| && v1[j].Dir? && j != d :: DirOk(v1[j].entries, j)
    requires Names(With(v[d].entries, k, e)) && |v2| == |v| && v2[d].Dir? && v2[d].entries == With(v[d].entries, k, e)
    requires forall j | 0 <= j < |v| && j != d :: v2[j] == v1[j]
    requires v1[ROOT].Dir?
    ensures Dirs(v2)
  {
    assert DirOk(v[d].entries, d);
    assert DirOk(v2[d].entries, d);
  }

  lemma DirsAfter(v: seq<Node>, v2: seq<Node>, d: nat)
    requires Dirs(v) && |v2| == |v| && d < |v| && v2[d].Dir? && DirOk(v2[d].entries, d) && v2[0].Free? && v2[ROOT].Dir?
    requires forall j | 0 <= j < |v| && j != d && v2[j].Dir? :: v[j].Dir? && v2[j].entries == v[j].entries
    ensures Dirs(v2)
  {
    hide DirOk;
  }

  /** The tree of directories does not change when entries for files do. */
  lemma FileTree(v: seq<Node>, v2: seq<Node>, d: nat, k: nat, i: nat)
    requires Tree(v) && |v2| == |v| && |v| > ROOT && k >= 2 && !(i < |v2| && v2[i].Dir?)
    requires forall j: nat | j < |v| :: v2[j].Dir? == v[j].Dir?
    requires forall a: nat, l: nat, j: nat {:trigger NamesAt(v2, a, l, j)} | (a != d || l != k) && 0 < j < |v| :: NamesAt(v2, a, l, j) == NamesAt(v, a, l, j)
    requires forall j: nat {:trigger NamesAt(v2, d, k, j)} | NamesAt(v2, d, k, j) && j > 0 :: j == i
    requires forall j: nat {:trigger NamesAt(v, d, k, j)} | NamesAt(v, d, k, j) && 0 < j < |v| :: !v[j].Dir?
    requires forall j: nat | j < |v| && v[j].Dir? :: j > 0
    ensures Tree(v2)
  {
    forall j: nat | j < |v2| && v2[j].Dir? && j != ROOT ensures HasName(v2, j) {
      assert HasName(v, j);
      var a: nat, l: nat :| NamesAt(v, a, l, j) && l >= 2;
      assert NamesAt(v2, a, l, j);
    }
    forall a: nat, l: nat, j: nat | NamesAt(v2, a, l, j) && l >= 2 && 0 < j < |v2| && v2[j].Dir?
      ensures j != ROOT && NamesAt(v2, j, 1, a) && NamesAt(v, a, l, j)
    {
      assert NamesAt(v, a, l, j);
      assert NamesAt(v, j, 1, a) && a > 0;
      assert NamesAt(v2, j, 1, a);
    }
    assert NamesAt(v2, ROOT, 1, ROOT);
  }

  /** The parent of a directory is a directory, and is what its ".." names. */
  lemma ParentIsDir(v: seq<Node>, d: nat) returns (p: nat)
    requires Inv(v) && d < |v| && v[d].Dir?
    ensures 0 < p < |v| && v[p].Dir? && NamesAt(v, d, 1, p)
  {
    if d == ROOT {
      p := ROOT;
    } else {
      assert HasName(v, d);
      var a: nat, k: nat :| NamesAt(v, a, k, d) && k >= 2;
      p := a;
    }
  }

  // ----- An entry less for a file -----

  /** An entry of a file is cleared, and the file counts a link less; without links and users it is free. */
  lemma UnlinkStep(v: seq<Node>, d: nat, k: nat, x: Node)
    requires Inv(v) && d < |v| && v[d].Dir? && k < |v[d].entries|
    requires 0 < v[d].entries[k].nr < |v| && v[v[d].entries[k].nr].File?
    requires var n := v[v[d].entries[k].nr].nlinks; if n == 1 then x.Free? || (x.File? && x.nlinks == 0) else x.File? && x.nlinks == n - 1
    ensures v[v[d].entries[k].nr].nlinks > 0 && Inv(Cleared(v, d, k, v[d].nlinks)[v[d].entries[k].nr := x])
  {
    hide Total, Lookup, DirOk, Tree, Dirs, Counted;
    var i := v[d].entries[k].nr;
    var p := ParentIsDir(v, d);
    PastTwo(v, d, k, p);
    RootAndZero(v);
    var v2 := Cleared(v, d, k, v[d].nlinks)[i := x];
    assert Counted(v2) by {
      CountedUnlink(v, d, k, x);
    }
    assert Dirs(v2) by {
      ClearedDirs(v, v2, d, k);
    }
    assert Tree(v2) by {
      hide NamesAt;
      UnlinkTree(v, v2, d, k, i);
    }
  }

  /** "." and ".." name directories. */
  lemma PastTwo(v: seq<Node>, d: nat, k: nat, p: nat)
    requires Dirs(v) && d < |v| && v[d].Dir? && k < |v[d].entries| && p < |v| && v[p].Dir? && NamesAt(v, d, 1, p)
    ensures d > 0 && (0 < v[d].entries[k].nr < |v| && v[v[d].entries[k].nr].File? ==> k >= 2)
  {
    assert DirOk(v[d].entries, d);
  }

  lemma CountedUnlink(v: seq<Node>, d: nat, k: nat, x: Node)
    requires Counted(v) && d < |v| && v[d].Dir? && k < |v[d].entries| && 0 < v[d].entries[k].nr < |v| && v[v[d].entries[k].nr].File?
    requires var n := v[v[d].entries[k].nr].nlinks; if n == 1 then x.Free? || (x.File? && x.nlinks == 0) else x.File? && x.nlinks == n - 1
    ensures v[v[d].entries[k].nr].nlinks > 0 && Counted(Cleared(v, d, k, v[d].nlinks)[v[d].entries[k].nr := x])
  {
    hide Total;
    var i := v[d].entries[k].nr;
    var v1 := Cleared(v, d, k, v[d].nlinks);
    var v2 := v1[i := x];
    forall j: nat | j > 0 ensures Total(v2, j, |v|) + (if j == i then 1 else 0) == Total(v, j, |v|) {
      TotalCleared(v, d, k, v[d].nlinks, j);
      TotalOfFile(v1, i, x, j);
    }
  }

  lemma ClearedDirs(v: seq<Node>, v2: seq<Node>, d: nat, k: nat)
    requires Dirs(v) && |v2| == |v| && 0 < d < |v| && v[d].Dir? && 2 <= k < |v[d].entries| && v[d].entries[k].nr != 0
    requires v2[d].Dir? && v2[d].entries == v[d].entries[k := v[d].entries[k].(nr := 0)] && v2[0].Free? && v2[ROOT].Dir?
    requires forall j | 0 <= j < |v| && j != d && v2[j].Dir? :: v[j].Dir? && v2[j].entries == v[j].entries
    ensures Dirs(v2)
  {
    EntryCleared(v[d].entries, k, v[d].entries[k].name);
    assert DirOk(v[d].entries, d);
    assert DirOk(v2[d].entries, d);
    DirsAfter(v, v2, d);
  }

  lemma UnlinkTree(v: seq<Node>, v2: seq<Node>, d: nat, k: nat, i: nat)
    requires Tree(v) && Dirs(v) && |v2| == |v| && 0 < d < |v| && v[d].Dir? && 2 <= k < |v[d].entries|
    requires v[d].entries[k].nr == i && 0 < i < |v| && v[i].File? && !v2[i].Dir?
    requires v2[d].Dir? && v2[d].entries == v[d].entries[k := v[d].entries[k].(nr := 0)]
    requires forall j | 0 <= j < |v| && j != d && j != i :: v2[j] == v[j]
    ensures Tree(v2)
  {
    hide DirOk;
    FileTree(v, v2, d, k, i);
  }

  /** References come and go, and a file without links is freed when the last one goes. */
  lemma UsersStep(v: seq<Node>, i: nat, x: Node)
    requires Inv(v) && i < |v|
    requires (v[i].File? && x.File? && x.nlinks == v[i].nlinks) || (v[i].Dir? && x.Dir? && x == SetUsers(v[i], x.users))
          || (v[i].File? && v[i].nlinks == 0 && x.Free?)
    ensures Inv(v[i := x])
  {
    hide Total;
    var v2 := v[i := x];
    forall j: nat ensures Total(v2, j, |v|) == Total(v, j, |v|) {
      TotalOne(v, v2, j, |v|, i);
    }
    forall a: nat, l: nat, j: nat ensures NamesAt(v2, a, l, j) == NamesAt(v, a, l, j) {
    }
    SameTree(v, v2);
  }

  lemma SameTree(v: seq<Node>, v2: seq<Node>)
    requires Tree(v) && |v2| == |v| && |v| > ROOT
    requires forall j: nat | j < |v| :: v2[j].Dir? == v[j].Dir?
    requires forall a: nat, l: nat, j: nat {:trigger NamesAt(v2, a, l, j)} :: NamesAt(v2, a, l, j) == NamesAt(v, a, l, j)
    ensures Tree(v2)
  {
    forall j: nat | j < |v2| && v2[j].Dir? && j != ROOT ensures HasName(v2, j) {
      assert HasName(v, j);
      var a: nat, l: nat :| NamesAt(v, a, l, j) && l >= 2;
      assert NamesAt(v2, a, l, j);
    }
    forall a: nat, l: nat, j: nat | NamesAt(v2, a, l, j) && l >= 2 && 0 < j < |v2| && v2[j].Dir? ensures j != ROOT && NamesAt(v2, j, 1, a) {
      assert NamesAt(v, a, l, j) && NamesAt(v2, j, 1, a) == NamesAt(v, j, 1, a);
    }
    assert NamesAt(v2, ROOT, 1, ROOT) == NamesAt(v, ROOT, 1, ROOT);
  }

  // ----- Directories -----

  /** The two entries mkdir writes into a new directory (namei.c:568-573). */
  function NewDir(i: nat, d: nat): Node {
    Dir(2, 0, [Entry(i, Pad(DOT)), Entry(d, Pad(DOTDOT))])
  }

  /** mkdir: i was free and becomes a directory in d, which counts a link more (namei.c:546-590). */
  lemma MkdirStep(v: seq<Node>, d: nat, k: nat, n: Name, i: nat)
    requires Inv(v) && Spot(v, d, k, n) && 0 < i < |v| && v[i].Free?
    ensures i != d && (Inv(Added(v[i := NewDir(i, d)], d, k, Entry(i, n), v[d].nlinks + 1)) <==> v[d].nlinks + 1 < 256)
  {
    hide Total, Lookup, DirOk, Tree, Dirs, Counted, NewDir;
    var v1 := v[i := NewDir(i, d)];
    var v2 := Added(v1, d, k, Entry(i, n), v[d].nlinks + 1);
    SpotIsPastTwo(v, d, k, n);
    CountedMkdir(v, d, k, n, i);
    if v[d].nlinks + 1 < 256 {
      assert Dirs(v2) by {
        MkdirDirs(v, d, k, n, i);
      }
      assert Tree(v2) by {
        MkdirTree(v, v2, d, k, n, i);
      }
    }
  }

  lemma CountedMkdir(v: seq<Node>, d: nat, k: nat, n: Name, i: nat)
    requires Counted(v) && Spot(v, d, k, n) && 0 < i < |v| && v[i].Free? && d > 0
    ensures i != d && (Counted(Added(v[i := NewDir(i, d)], d, k, Entry(i, n), v[d].nlinks + 1)) <==> v[d].nlinks + 1 < 256)
  {
    hide Total, Lookup;
    var v1, e := v[i := NewDir(i, d)], Entry(i, n);
    var v2 := Added(v1, d, k, e, v[d].nlinks + 1);
    forall j: nat | j > 0 ensures Total(v2, j, |v|) == Total(v, j, |v|) + (if j == i then 2 else if j == d then 1 else 0) {
      TotalOfNewDir(v, i, d, j);
      TotalAdded(v1, d, k, e, v[d].nlinks + 1, j);
    }
  }

  lemma MkdirDirs(v: seq<Node>, d: nat, k: nat, n: Name, i: nat)
    requires Dirs(v) && Spot(v, d, k, n) && 0 < i < |v| && v[i].Free? && d > 0 && k >= 2
    ensures i != d && Dirs(Added(v[i := NewDir(i, d)], d, k, Entry(i, n), v[d].nlinks + 1))
  {
    hide Lookup;
    NewDirOk(i, d);
    var v1 := v[i := NewDir(i, d)];
    AddedDirs(v, v1, Added(v1, d, k, Entry(i, n), v[d].nlinks + 1), d, k, n, i);
  }

  lemma CountTwo(a: Entry, b: Entry, j: nat)
    ensures CountIn([a, b], j) == (if a.nr == j then 1 else 0) + if b.nr == j then 1 else 0
  {
    assert [a, b][..1] == [a] && [a][..0] == [];
    assert CountIn([a], j) == if a.nr == j then 1 else 0;
  }

  lemma TotalOfNewDir(v: seq<Node>, i: nat, d: nat, j: nat)
    requires i < |v| && v[i].Free? && j > 0 && i != d
    ensures Total(v[i := NewDir(i, d)], j, |v|) == Total(v, j, |v|) + if j == i || j == d then 1 else 0
  {
    var es := NewDir(i, d).entries;
    CountTwo(es[0], es[1], j);
    TotalOne(v, v[i := NewDir(i, d)], j, |v|, i);
  }

  lemma NewDirOk(i: nat, d: nat)
    requires d > 0 && i > 0
    ensures DirOk(NewDir(i, d).entries, i)
  {
    PadIsPadded(DOT);
    PadIsPadded(DOTDOT);
    assert Pad(DOT)[1] != Pad(DOTDOT)[1];
  }

  lemma MkdirTree(v: seq<Node>, v2: seq<Node>, d: nat, k: nat, n: Name, i: nat)
    requires Inv(v) && Spot(v, d, k, n) && 0 < i < |v| && v[i].Free? && i != d && k >= 2 && d > 0
    requires v2 == Added(v[i := NewDir(i, d)], d, k, Entry(i, n), v[d].nlinks + 1)
    ensures Tree(v2)
  {
    hide Tree, Dirs, Counted, Spot, NamesAt;
    FreeUnnamed(v, i);
    RootAndZero(v);
    SpotIs(v, d, k, n);
    MkdirNames(v, v2, d, k, n, i);
    TreeGrows(v, v2, d, k, i);
  }

  lemma SpotIs(v: seq<Node>, d: nat, k: nat, n: Name)
    requires Spot(v, d, k, n)
    ensures d < |v| && v[d].Dir? && k <= |v[d].entries| && (k < |v[d].entries| ==> v[d].entries[k].nr == 0)
  {
  }

  lemma MkdirNames(v: seq<Node>, v2: seq<Node>, d: nat, k: nat, n: Name, i: nat)
    requires 0 < i < |v| && v[i].Free? && i != d && k >= 2 && d < |v| && v[d].Dir?
    requires k <= |v[d].entries| && (k < |v[d].entries| ==> v[d].entries[k].nr == 0)
    requires v2 == Added(v[i := NewDir(i, d)], d, k, Entry(i, n), v[d].nlinks + 1)
    ensures forall a: nat, l: nat, j: nat {:trigger NamesAt(v2, a, l, j)} | l >= 2 && j > 0 ::
              NamesAt(v2, a, l, j) <==> (NamesAt(v, a, l, j) || (a == d && l == k && j == i))
    ensures forall j: nat, p: nat {:trigger NamesAt(v, j, 1, p)} | NamesAt(v, j, 1, p) && p > 0 :: NamesAt(v2, j, 1, p)
    ensures NamesAt(v2, i, 1, d) && NamesAt(v2, d, k, i)
  {
  }

  /** One directory more, with its only name at k in d. */
  lemma TreeGrows(v: seq<Node>, v2: seq<Node>, d: nat, k: nat, i: nat)
    requires Tree(v) && |v| > ROOT && 0 < i < |v| == |v2| && v[ROOT].Dir? && v[i].Free? && k >= 2 && d > 0
    requires forall j: nat | j < |v| :: v2[j].Dir? <==> v[j].Dir? || j == i
    requires forall a: nat, l: nat :: !NamesAt(v, a, l, i)
    requires v[0].Free?
    requires forall a: nat, l: nat, j: nat {:trigger NamesAt(v2, a, l, j)} | l >= 2 && j > 0 ::
              NamesAt(v2, a, l, j) <==> (NamesAt(v, a, l, j) || (a == d && l == k && j == i))
    requires forall j: nat, p: nat {:trigger NamesAt(v, j, 1, p)} | NamesAt(v, j, 1, p) && p > 0 :: NamesAt(v2, j, 1, p)
    requires NamesAt(v2, i, 1, d) && NamesAt(v2, d, k, i)
    ensures Tree(v2)
  {
    NamedDirs(v);
    hide NamesAt, Tree;
    TreeSays(v);
    assert forall j: nat | j < |v2| && v2[j].Dir? && j != ROOT :: HasName(v2, j) by {
      forall j: nat | j < |v2| && v2[j].Dir? && j != ROOT ensures HasName(v2, j) {
        if j != i {
          assert HasName(v, j);
          var a: nat, l: nat :| NamesAt(v, a, l, j) && l >= 2;
          assert NamesAt(v2, a, l, j);
        }
      }
    }
    forall a: nat, l: nat, j: nat | NamesAt(v2, a, l, j) && l >= 2 && 0 < j < |v2| && v2[j].Dir? ensures j != ROOT && NamesAt(v2, j, 1, a) {
      if j != i {
        assert NamesAt(v, a, l, j) && NamesAt(v, j, 1, a);
      }
    }
    forall a: nat, l: nat, e: nat, m: nat, j: nat
      | NamesAt(v2, a, l, j) && NamesAt(v2, e, m, j) && l >= 2 && m >= 2 && 0 < j < |v2| && v2[j].Dir?
      ensures a == e && l == m
    {
      if j != i {
        assert NamesAt(v, a, l, j) && NamesAt(v, e, m, j);
      }
    }
    assert NamesAt(v2, ROOT, 1, ROOT);
    TreeFrom(v2);
  }

  lemma TreeSays(v: seq<Node>)
    requires Tree(v)
    ensures forall d: nat, k: nat, i: nat {:trigger NamesAt(v, d, k, i)} | NamesAt(v, d, k, i) && k >= 2 && 0 < i < |v| && v[i].Dir? ::
              i != ROOT && NamesAt(v, i, 1, d)
    ensures forall d: nat, k: nat, e: nat, l: nat, i: nat {:trigger NamesAt(v, d, k, i), NamesAt(v, e, l, i)}
              | NamesAt(v, d, k, i) && NamesAt(v, e, l, i) && k >= 2 && l >= 2 && 0 < i < |v| && v[i].Dir? :: d == e && k == l
    ensures forall i: nat | i < |v| && v[i].Dir? && i != ROOT :: HasName(v, i)
    ensures NamesAt(v, ROOT, 1, ROOT)
  {
  }

  lemma TreeFrom(v: seq<Node>)
    requires forall d: nat, k: nat, i: nat {:trigger NamesAt(v, d, k, i)} | NamesAt(v, d, k, i) && k >= 2 && 0 < i < |v| && v[i].Dir? ::
              i != ROOT && NamesAt(v, i, 1, d)
    requires forall d: nat, k: nat, e: nat, l: nat, i: nat {:trigger NamesAt(v, d, k, i), NamesAt(v, e, l, i)}
              | NamesAt(v, d, k, i) && NamesAt(v, e, l, i) && k >= 2 && l >= 2 && 0 < i < |v| && v[i].Dir? :: d == e && k == l
    requires forall i: nat | i < |v| && v[i].Dir? && i != ROOT :: HasName(v, i)
    requires NamesAt(v, ROOT, 1, ROOT)
    ensures Tree(v)
  {
  }

  /** Only directories, which are not inode 0, hold entries. */
  lemma NamedDirs(v: seq<Node>)
    requires |v| > 0 && v[0].Free?
    ensures forall a: nat, l: nat, j: nat {:trigger NamesAt(v, a, l, j)} | NamesAt(v, a, l, j) :: a > 0
  {
  }

  /** No entry names a free inode. */
  lemma FreeUnnamed(v: seq<Node>, i: nat)
    requires Counted(v) && 0 < i < |v| && v[i].Free?
    ensures forall a: nat, l: nat :: !NamesAt(v, a, l, i)
  {
    TotalZero(v, i, |v|);
    forall a: nat, l: nat ensures !NamesAt(v, a, l, i) {
      if a < |v| && v[a].Dir? {
        assert Count(v[a], i) == 0;
        CountNone(v[a].entries, i);
      }
    }
  }

  /** Apart from its first two entries the directory has none in use. */
  ghost predicate Empty(es: seq<Entry>) {
    forall k | 2 <= k < |es| :: es[k].nr == 0
  }

  /** rmdir: the empty directory that entry k of d names is free, and d counts a link less (namei.c:707-716). */
  lemma RmdirStep(v: seq<Node>, d: nat, k: nat, i: nat)
    requires Inv(v) && NamesAt(v, d, k, i) && 0 < i < |v| && v[i].Dir? && i != d && Empty(v[i].entries)
    ensures v[i].nlinks == 2 && v[d].nlinks > 0 && k >= 2
    ensures Inv(Cleared(v, d, k, v[d].nlinks - 1)[i := Free])
  {
    hide Total, Lookup, DirOk, Tree, Dirs, Counted;
    OnlyName(v, d, k, i);
    CountOfEmptyDir(v, i, d);
    RmdirTotals(v, d, k, i);
    var v2 := Cleared(v, d, k, v[d].nlinks - 1)[i := Free];
    assert Counted(v2) by {
      CountedRmdir(v, v2, d, i);
    }
    RootAndZero(v);
    assert Dirs(v2) by {
      ClearedDirs(v, v2, d, k);
    }
    assert Tree(v2) by {
      RmdirTree(v, v2, d, k, i);
    }
  }

  lemma RootAndZero(v: seq<Node>)
    requires Dirs(v)
    ensures |v| > ROOT && v[ROOT].Dir? && v[0].Free? && forall j | 0 <= j < |v| && v[j].Dir? :: DirOk(v[j].entries, j)
  {
  }

  lemma CountOfEmptyDir(v: seq<Node>, i: nat, d: nat)
    requires Dirs(v) && i < |v| && v[i].Dir? && Empty(v[i].entries) && NamesAt(v, i, 1, d) && i != d && d < |v| && v[d].Dir?
    ensures d > 0 && forall j: nat | j > 0 :: CountIn(v[i].entries, j) == if j == i || j == d then 1 else 0
  {
    assert DirOk(v[i].entries, i);
    CountOfEmpty(v[i].entries, i, d);
  }

  lemma CountedRmdir(v: seq<Node>, v2: seq<Node>, d: nat, i: nat)
    requires Counted(v) && 0 < i < |v| && 0 < d < |v| && i != d && v[i].Dir? && v[d].Dir? && v[d].nlinks > 0 && |v2| == |v|
    requires v2[i].Free? && v2[d].Dir? && v2[d].nlinks == v[d].nlinks - 1 && forall j | 0 <= j < |v| && j != i && j != d :: v2[j] == v[j]
    requires forall j: nat {:trigger Total(v2, j, |v|)} | j > 0 ::
        Total(v2, j, |v|) + (if j == i then 2 else if j == d then 1 else 0) == Total(v, j, |v|) && (j == i ==> Total(v2, j, |v|) == 0)
    ensures Counted(v2)
  {
    hide Total;
  }

  /** Inside an empty directory apart, entry k of d is the only one that names it. */
  lemma OnlyName(v: seq<Node>, d: nat, k: nat, i: nat)
    requires Inv(v) && NamesAt(v, d, k, i) && 0 < i < |v| && v[i].Dir? && i != d && Empty(v[i].entries)
    ensures k >= 2 && i != ROOT && NamesAt(v, i, 1, d)
    ensures forall a: nat, l: nat {:trigger NamesAt(v, a, l, i)} | NamesAt(v, a, l, i) :: a == i || (a == d && l == k)
  {
    hide Total, Lookup, Counted, Dirs, Empty, NamesAt, Tree;
    forall a: nat, l: nat | NamesAt(v, a, l, i) && l < 2 ensures a == i {
      LowEntry(v, a, l, i);
    }
    TreeSays(v);
  }

  /** "." names its own directory, and ".." one that is not empty. */
  lemma LowEntry(v: seq<Node>, a: nat, l: nat, i: nat)
    requires Inv(v) && NamesAt(v, a, l, i) && l < 2 && 0 < i < |v| && v[i].Dir? && Empty(v[i].entries)
    ensures a == i
  {
    hide Total, Lookup, Counted, Tree, Names;
    assert DirOk(v[a].entries, a);
    if l == 1 && a != i {
      ChildIsEntry(v, a, i);
    }
  }

  /** A directory whose ".." is i has an entry in i. */
  lemma ChildIsEntry(v: seq<Node>, a: nat, i: nat)
    requires Inv(v) && NamesAt(v, a, 1, i) && a != i && a > 0 && i < |v| && v[i].Dir?
    ensures !Empty(v[i].entries)
  {
    hide Total, Lookup, DirOk;
    assert a != ROOT;
    assert HasName(v, a);
    var b: nat, m: nat :| NamesAt(v, b, m, a) && m >= 2;
    assert NamesAt(v, a, 1, b);
    assert v[i].entries[m].nr == a;
  }

  lemma {:induction false} CountOfEmpty(es: seq<Entry>, i: nat, d: nat)
    requires |es| >= 2 && es[0].nr == i && es[1].nr == d && Empty(es) && i != d
    ensures forall j: nat | j > 0 :: CountIn(es, j) == if j == i || j == d then 1 else 0
  {
    var n := |es| - 1;
    if n == 1 {
      assert es == [es[0], es[1]];
      forall j: nat | j > 0 ensures CountIn(es, j) == if j == i || j == d then 1 else 0 {
        CountTwo(es[0], es[1], j);
      }
    } else {
      CountOfEmpty(es[..n], i, d);
    }
  }

  lemma RmdirTotals(v: seq<Node>, d: nat, k: nat, i: nat)
    requires Inv(v) && NamesAt(v, d, k, i) && 0 < i < |v| && v[i].Dir? && i != d && Empty(v[i].entries) && d > 0
    requires forall a: nat, l: nat {:trigger NamesAt(v, a, l, i)} | NamesAt(v, a, l, i) :: a == i || (a == d && l == k)
    requires forall j: nat | j > 0 :: CountIn(v[i].entries, j) == if j == i || j == d then 1 else 0
    ensures v[d].nlinks > 0 && v[i].nlinks == 2
    ensures var v2 := Cleared(v, d, k, v[d].nlinks - 1)[i := Free];
      forall j: nat {:trigger Total(v2, j, |v|)} | j > 0 ::
        Total(v2, j, |v|) + (if j == i then 2 else if j == d then 1 else 0) == Total(v, j, |v|) && (j == i ==> Total(v2, j, |v|) == 0)
  {
    hide Total, Lookup, DirOk;
    var v1 := Cleared(v, d, k, 0);
    var v2 := v1[i := Free];
    forall j: nat | j > 0
      ensures Total(v2, j, |v|) + (if j == i then 2 else if j == d then 1 else 0) == Total(v, j, |v|)
    {
      TotalCleared(v, d, k, 0, j);
      TotalOne(v1, v2, j, |v|, i);
    }
    forall a: nat | a < |v| ensures Count(v2[a], i) == 0 {
      if v2[a].Dir? {
        forall l | 0 <= l < |v2[a].entries| ensures v2[a].entries[l].nr != i {
          assert (a == d && l == k) || v2[a].entries[l] == v[a].entries[l];
          assert v[a].entries[l].nr == i ==> NamesAt(v, a, l, i);
        }
        CountNone(v2[a].entries, i);
      }
    }
    TotalZero(v2, i, |v|);
    assert Total(v, i, |v|) == 2 && v[i].nlinks == 2;
    assert Total(v, d, |v|) >= 1;
    var v3 := Cleared(v, d, k, v[d].nlinks - 1)[i := Free];
    forall j: nat ensures Total(v3, j, |v|) == Total(v2, j, |v|) {
      TotalOne(v2, v3, j, |v|, d);
    }
  }

  lemma EmptyNamesNone(v: seq<Node>, i: nat)
    requires i < |v| && v[i].Dir? && Empty(v[i].entries)
    ensures forall l: nat, j: nat {:trigger NamesAt(v, i, l, j)} | l >= 2 && j > 0 :: !NamesAt(v, i, l, j)
  {
  }

  lemma RmdirTree(v: seq<Node>, v2: seq<Node>, d: nat, k: nat, i: nat)
    requires Inv(v) && NamesAt(v, d, k, i) && 0 < i < |v| && v[i].Dir? && i != d && Empty(v[i].entries) && d > 0 && k >= 2
    requires v[d].nlinks > 0 && v2 == Cleared(v, d, k, v[d].nlinks - 1)[i := Free] && i != ROOT
    ensures Tree(v2)
  {
    hide Total, Lookup, DirOk, Counted;
    EmptyNamesNone(v, i);
    forall a: nat, l: nat, j: nat | l >= 2 && j > 0
      ensures NamesAt(v2, a, l, j) <==> NamesAt(v, a, l, j) && a != i && !(a == d && l == k)
    {
    }
    forall j: nat, p: nat | j < |v| && v[j].Dir? && j != i && NamesAt(v, j, 1, p) ensures NamesAt(v2, j, 1, p) {
    }
    forall j: nat | j < |v2| && v2[j].Dir? && j != ROOT ensures HasName(v2, j) {
      assert HasName(v, j);
      var a: nat, l: nat :| NamesAt(v, a, l, j) && l >= 2;
      assert NamesAt(v2, a, l, j);
    }
    forall a: nat, l: nat, j: nat | NamesAt(v2, a, l, j) && l >= 2 && 0 < j < |v2| && v2[j].Dir? ensures j != ROOT && NamesAt(v2, j, 1, a) {
      assert NamesAt(v, a, l, j);
      assert NamesAt(v, j, 1, a);
    }
    assert NamesAt(v2, ROOT, 1, ROOT);
  }
}
