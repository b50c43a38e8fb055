/**
 * The ramfs inode graph as one tree that hangs from the root (src/kernel/fs/ramfs.c:82-109, 211-266,
 * src/kernel/fs/ramfs_ops.c:108-184): which operations keep it, and exactly when a rename cuts a part off.
 */
module RamfsRoot {
  import opened Words
  import opened NumberLists
  import opened Ramfs
  import opened RamfsTree
  import opened RamfsNames
  import opened RamfsRelease
  import opened RamfsLinks

  /** The parent of an inode; the root is above itself. */
  function Above(t: Table, c: nat): nat {
    if c == ROOT || c >= |t.nodes| then c else t.nodes[c].parent
  }

  /** n steps up the parent chain. */
  function Up(t: Table, c: nat, n: nat): nat
    decreases n
  {
    if n == 0 then c else Up(t, Above(t, c), n - 1)
  }

  ghost predicate Reaches(t: Table, c: nat) {
    exists n: nat :: Up(t, c, n) == ROOT
  }

  /** The parent chain of q meets i. */
  ghost predicate Below(t: Table, q: nat, i: nat) {
    exists n: nat :: Up(t, q, n) == i
  }

  /** Every directory but the root is listed, and the parent chain of everything listed leads to the root. */
  ghost predicate Rooted(t: Table) {
    && (forall d :: 0 <= d < |t.nodes| && t.nodes[d].kind == Dir && d != ROOT ==> !Unlisted(t, d))
    && (forall c: nat :: !Unlisted(t, c) ==> Reaches(t, c))
  }

  // ----- Parent chains -----

  lemma {:induction false} UpRoot(t: Table, n: nat)
    ensures Up(t, ROOT, n) == ROOT
    decreases n
  {
    if n > 0 {
      UpRoot(t, n - 1);
    }
  }

  lemma {:induction false} UpSum(t: Table, c: nat, m: nat, n: nat)
    ensures Up(t, c, m + n) == Up(t, Up(t, c, m), n)
    decreases m
  {
    if m > 0 {
      UpSum(t, Above(t, c), m - 1, n);
    }
  }

  lemma ReachesAbove(t: Table, c: nat)
    ensures Reaches(t, Above(t, c)) ==> Reaches(t, c)
  {
    if Reaches(t, Above(t, c)) {
      var n: nat :| Up(t, Above(t, c), n) == ROOT;
      assert Up(t, c, n + 1) == ROOT;
    }
  }

  lemma ReachesRoot(t: Table)
    ensures Reaches(t, ROOT)
  {
    assert Up(t, ROOT, 0) == ROOT;
  }

  /** A directory of a rooted table reaches the root. */
  lemma DirReaches(t: Table, d: nat)
    requires Rooted(t) && d < |t.nodes| && t.nodes[d].kind == Dir
    ensures Reaches(t, d)
  {
    hide Reaches, Unlisted;
    ReachesRoot(t);
  }

  lemma ListedIn(t: Table, c: nat) returns (d: nat)
    requires TreeOk(t) && !Unlisted(t, c)
    ensures d < |t.nodes| && t.nodes[d].kind == Dir && c in t.nodes[d].children && ChildOk(t, d, c)
  {
    hide NoDup;
    d :| 0 <= d < |t.nodes| && c in t.nodes[d].children;
    assert NodeOk(t, d);
  }

  // ----- An inode without children -----

  /** No parent chain goes through an inode without children. */
  lemma {:induction false} ChainAvoids(t: Table, u: Table, i: nat, c: nat, n: nat)
    requires TreeOk(t) && Rooted(t) && OnlyAt(t, u, i) && i < |t.nodes| && t.nodes[i].children == [] && i != ROOT
    requires !Unlisted(t, c) && c != i && Up(t, c, n) == ROOT
    ensures Up(u, c, n) == ROOT
    decreases n
  {
    hide TreeOk, Unlisted;
    var d := ListedIn(t, c);
    if n > 0 {
      if d == ROOT {
        UpRoot(u, n - 1);
      } else {
        ChainAvoids(t, u, i, d, n - 1);
      }
    }
  }

  /** Taking away an inode without children, or leaving it as it is. */
  lemma LeafGone(t: Table, u: Table, i: nat)
    requires TreeOk(t) && Rooted(t) && OnlyAt(t, u, i) && 2 <= i < |t.nodes| && t.nodes[i].children == []
    requires forall x: nat :: !Unlisted(u, x) ==> !Unlisted(t, x) && x != i
    requires forall x: nat :: !Unlisted(t, x) && x != i ==> !Unlisted(u, x)
    requires u.nodes[i].kind != Dir
    ensures Rooted(u)
  {
    hide TreeOk, Unlisted;
    forall c: nat | !Unlisted(u, c)
      ensures Reaches(u, c)
    {
      var n: nat :| Up(t, c, n) == ROOT;
      ChainAvoids(t, u, i, c, n);
    }
  }

  /** A new inode without children under directory p. */
  lemma LeafAdded(t: Table, u: Table, i: nat, p: nat)
    requires TreeOk(t) && Rooted(t) && OnlyAt(t, u, i) && 2 <= i < |t.nodes| && t.nodes[i].children == [] && Unlisted(t, i)
    requires p < |t.nodes| && t.nodes[p].kind == Dir && p != i && u.nodes[i].parent == p
    requires forall x: nat :: !Unlisted(u, x) <==> !Unlisted(t, x) || x == i
    ensures Rooted(u)
  {
    hide TreeOk, Unlisted;
    forall c: nat | !Unlisted(t, c)
      ensures Reaches(u, c)
    {
      var n: nat :| Up(t, c, n) == ROOT;
      ChainAvoids(t, u, i, c, n);
    }
    ReachesRoot(u);
    assert Reaches(u, p);
    ReachesAbove(u, i);
  }

  // ----- Moving an inode -----

  /** i hangs under q now, and no other parent changed. */
  ghost predicate Hung(t: Table, u: Table, i: nat, q: nat) {
    && |u.nodes| == |t.nodes| && ROOT != i < |t.nodes| && u.nodes[i].parent == q
    && forall x :: 0 <= x < |t.nodes| && x != i ==> u.nodes[x].parent == t.nodes[x].parent
  }

  /** Up to where it first meets i, a chain is as it was. */
  lemma {:induction false} SameUntil(t: Table, u: Table, i: nat, q: nat, c: nat, n: nat)
    requires Hung(t, u, i, q) && forall k: nat :: k < n ==> Up(t, c, k) != i
    ensures Up(u, c, n) == Up(t, c, n)
    decreases n
  {
    if n > 0 {
      assert Up(t, c, 0) == c;
      forall k: nat | k < n - 1
        ensures Up(t, Above(t, c), k) != i
      {
        assert Up(t, c, k + 1) != i;
      }
      SameUntil(t, u, i, q, Above(t, c), n - 1);
    }
  }

  /** If q does not hang from i, everything still reaches the root. */
  lemma {:induction false} StillReaches(t: Table, u: Table, i: nat, q: nat, c: nat, n: nat)
    requires Hung(t, u, i, q) && Reaches(t, q) && !Below(t, q, i) && Up(t, c, n) == ROOT
    ensures Reaches(u, c)
    decreases n
  {
    if c == i {
      var m: nat :| Up(t, q, m) == ROOT;
      SameUntil(t, u, i, q, q, m);
      assert Reaches(u, q);
      ReachesAbove(u, i);
    } else if n == 0 {
      ReachesRoot(u);
    } else {
      StillReaches(t, u, i, q, Above(t, c), n - 1);
      ReachesAbove(u, c);
    }
  }

  lemma FirstMeeting(t: Table, q: nat, i: nat) returns (n: nat)
    requires Below(t, q, i)
    ensures Up(t, q, n) == i && forall k: nat :: k < n ==> Up(t, q, k) != i
  {
    n :| Up(t, q, n) == i;
    while exists k: nat :: k < n && Up(t, q, k) == i
      invariant Up(t, q, n) == i
      decreases n
    {
      var k: nat :| k < n && Up(t, q, k) == i;
      n := k;
    }
  }

  /** If q hangs from i, the chain of i goes round for ever. */
  lemma NeverReaches(t: Table, u: Table, i: nat, q: nat)
    requires Hung(t, u, i, q) && Below(t, q, i)
    ensures !Reaches(u, i)
  {
    var n := FirstMeeting(t, q, i);
    SameUntil(t, u, i, q, q, n);
    assert Up(u, i, n + 1) == i;
    if Reaches(u, i) {
      var m: nat :| Up(u, i, m) == ROOT;
      Round(u, i, n + 1, m);
    }
  }

  /** A chain that comes back to i after k steps never gets to the root. */
  lemma {:induction false} Round(u: Table, i: nat, k: nat, m: nat)
    requires k > 0 && Up(u, i, k) == i && i != ROOT
    ensures Up(u, i, m) != ROOT
    decreases m
  {
    if m < k {
      if Up(u, i, m) == ROOT {
        UpSum(u, i, m, k - m);
        UpRoot(u, k - m);
      }
    } else {
      UpSum(u, i, k, m - k);
      Round(u, i, k, m - k);
    }
  }

  lemma RootedSame(t: Table, u: Table)
    requires Rooted(t) && u.nodes == t.nodes
    ensures Rooted(u)
  {
    SameLists(t, u);
    hide Unlisted;
    forall c: nat | !Unlisted(u, c)
      ensures Reaches(u, c)
    {
      var n: nat :| Up(t, c, n) == ROOT;
      UpSame(t, u, c, n);
    }
  }

  lemma {:induction false} UpSame(t: Table, u: Table, c: nat, n: nat)
    requires |u.nodes| == |t.nodes| && forall x :: 0 <= x < |t.nodes| ==> u.nodes[x].parent == t.nodes[x].parent
    ensures Up(u, c, n) == Up(t, c, n)
    decreases n
  {
    if n > 0 {
      UpSame(t, u, Above(t, c), n - 1);
    }
  }

  // ----- The operations -----

  lemma InitRooted()
    ensures Rooted(Init())
  {
  }

  lemma MakeRooted(t: Table, p: nat, name: seq<byte>, mode: nat, dir: bool)
    requires TreeOk(t) && Rooted(t) && p < |t.nodes|
    ensures Rooted(Make(t, p, name, mode, dir).1)
  {
    hide TreeOk, Rooted, Unlisted, Lookup, FreeFrom, AddChild;
    TreeShape(t);
    FreeFromFinds(t.nodes, 2);
    var i := FreeFrom(t.nodes, 2);
    if t.nodes[p].kind == Dir && !(dir && Lookup(t, p, name) != 0) && i != 0 {
      FreeUnlisted(t, i);
      var n := Node(if dir then Dir else File, Stored(name), mode % 512, if dir then 2 else 1, 0, []);
      var u := SetNode(t, i, n);
      SameLists(t, u);
      var (rc, v) := AddChild(u, p, i);
      var r := Make(t, p, name, mode, dir).1;
      if rc < 0 {
        SameLists(t, r);
        LeafGone(t, r, i);
      } else {
        AddZero(u, p, i);
        AddLists(u, p, i);
        SameLists(v, r);
        LeafAdded(t, r, i, p);
      }
    }
  }

  lemma UnlinkRooted(t: Table, p: nat, name: seq<byte>)
    requires TreeOk(t) && Rooted(t) && p < |t.nodes|
    ensures Rooted(Unlink(t, p, name).1)
  {
    hide TreeOk, Rooted, Unlisted, Lookup, RemoveChild;
    TreeShape(t);
    LookupOk(t, p, name);
    var i := Lookup(t, p, name);
    if i != 0 && t.nodes[i].kind != Dir {
      RemoveLists(t, p, i);
      RemoveShape(t, p, i);
      var u, r := RemoveChild(t, p, i).1, Unlink(t, p, name).1;
      RemovedLeaf(t, p, i);
      SameLists(u, r);
      LeafGone(t, r, i);
    }
  }

  lemma RemovedLeaf(t: Table, p: nat, i: nat)
    requires p < |t.nodes| && i < |t.nodes| && i != p
    ensures RemoveChild(t, p, i).1.nodes[i] == t.nodes[i]
  {
  }

  lemma RmDirRooted(t: Table, p: nat, name: seq<byte>)
    requires TreeOk(t) && Rooted(t) && p < |t.nodes|
    ensures Rooted(RmDir(t, p, name).1)
  {
    hide TreeOk, Rooted, Unlisted, Lookup, RemoveChild;
    TreeShape(t);
    LookupOk(t, p, name);
    var i := Lookup(t, p, name);
    if i != 0 && t.nodes[i].kind == Dir && t.nodes[i].children == [] {
      assert i != p;
      RemoveLists(t, p, i);
      RemoveShape(t, p, i);
      RemovedLeaf(t, p, i);
      var u, r := RemoveChild(t, p, i).1, RmDir(t, p, name).1;
      SameLists(u, r);
      LeafGone(t, r, i);
    }
  }

  /** What a rename that finds its inode does to the parents and the lists. */
  lemma RenameHangs(t: Table, p: nat, name: seq<byte>, q: nat, newName: seq<byte>)
    requires TreeOk(t) && p < |t.nodes| && q < |t.nodes| && Lookup(t, p, name) != 0
    ensures var i := Lookup(t, p, name);
            var u := Rename(t, p, name, q, newName).1;
            var to := if q == p || HasRoom(t, q) then q else p;
            && ChildOk(t, p, i) && Hung(t, u, i, to) && t.nodes[to].kind == Dir
            && (forall x :: 0 <= x < |t.nodes| ==> u.nodes[x].kind == t.nodes[x].kind)
            && (forall x: nat :: Unlisted(u, x) <==> Unlisted(t, x)) && !Unlisted(t, i)
  {
    hide TreeOk, Unlisted, Lookup, RemoveChild, AddChild;
    TreeShape(t);
    LookupOk(t, p, name);
    var i := Lookup(t, p, name);
    RemoveLists(t, p, i);
    RemoveKeeps(t, p, i);
    RemoveRoom(t, p, i, q);
    ListedBy(t, p, i);
    var r := RemoveChild(t, p, i).1;
    var v := SetNode(r, i, r.nodes[i].(name := Stored(newName)));
    SameLists(r, v);
    AddNames(v, q, i);
    AddNames(v, p, i);
    if q == p || HasRoom(t, q) {
      AddLists(v, q, i);
    } else {
      AddLists(v, p, i);
    }
  }

  lemma ListedBy(t: Table, p: nat, i: nat)
    requires p < |t.nodes| && i in t.nodes[p].children
    ensures !Unlisted(t, i)
  {
  }

  /** An inode never hangs from itself in a rooted table. */
  lemma ParentNotBelow(t: Table, p: nat, i: nat)
    requires Rooted(t) && ChildOk(t, p, i) && !Unlisted(t, i)
    ensures !Below(t, p, i)
  {
    if Below(t, p, i) {
      var n: nat :| Up(t, p, n) == i;
      assert Up(t, i, n + 1) == i;
      var m: nat :| Up(t, i, m) == ROOT;
      Round(t, i, n + 1, m);
    }
  }

  /** The inode is moved to a directory that hangs from it. */
  ghost predicate Sinks(t: Table, p: nat, name: seq<byte>, q: nat) {
    Lookup(t, p, name) != 0 && HasRoom(t, q) && Below(t, q, Lookup(t, p, name))
  }

  /**
   * A rename keeps the tree in one piece if and only if it does not move an inode to a directory that hangs from it;
   * neither ramfs_op_rename nor vfs_rename looks.
   */
  lemma RenameRooted(t: Table, p: nat, name: seq<byte>, q: nat, newName: seq<byte>)
    requires TreeOk(t) && Rooted(t) && p < |t.nodes| && q < |t.nodes|
    ensures Rooted(Rename(t, p, name, q, newName).1) <==> !Sinks(t, p, name, q)
  {
    hide TreeOk, Lookup, RemoveChild, AddChild, Unlisted, Below, Reaches, Rename;
    TreeShape(t);
    var i := Lookup(t, p, name);
    var u := Rename(t, p, name, q, newName).1;
    if i == 0 {
      RenameMisses(t, p, name, q, newName);
    } else {
      RenameHangs(t, p, name, q, newName);
      ParentNotBelow(t, p, i);
      var to := if q == p || HasRoom(t, q) then q else p;
      if Below(t, to, i) {
        NeverReaches(t, u, i, to);
      } else {
        DirReaches(t, to);
        forall c: nat | !Unlisted(u, c)
          ensures Reaches(u, c)
        {
          ReachesStill(t, u, i, to, c);
        }
      }
    }
  }

  lemma ReachesStill(t: Table, u: Table, i: nat, q: nat, c: nat)
    requires Hung(t, u, i, q) && Reaches(t, q) && !Below(t, q, i) && Reaches(t, c)
    ensures Reaches(u, c)
  {
    var n: nat :| Up(t, c, n) == ROOT;
    StillReaches(t, u, i, q, c, n);
  }

  lemma RenameMisses(t: Table, p: nat, name: seq<byte>, q: nat, newName: seq<byte>)
    requires p < |t.nodes| == |t.open| && q < |t.nodes| && Lookup(t, p, name) == 0
    ensures Rename(t, p, name, q, newName).1 == t
  {
  }

  // ----- Every run -----

  /** The operation moves no inode to a directory that hangs from it. */
  ghost predicate Floats(t: Table, op: Op) {
    op.OpRename? && op.p < |t.nodes| && op.q < |t.nodes| ==> !Sinks(t, op.p, op.name, op.q)
  }

  /** A close that releases a file on no list cuts nothing off. */
  lemma CloseRooted(t: Table, i: nat)
    requires TreeOk(t) && Rooted(t) && i < |t.nodes| == |t.open| && Clean(t, i)
    ensures Rooted(Close(t, i))
  {
    hide Rooted, Reaches;
    var r := Close(t, i);
    if Releases(t, i) && i != 0 {
      ReleasedLoose(t, i);
      TreeShape(t);
      SameLists(t, r);
      LeafGone(t, r, i);
    } else {
      RootedSame(t, r);
    }
  }

  /** In a rooted table a loose inode is a file on no list. */
  lemma ReleasedLoose(t: Table, i: nat)
    requires TreeOk(t) && Rooted(t) && i < |t.nodes| && t.nodes[i].kind != Free && Loose(t, i)
    ensures t.nodes[i].kind == File && Unlisted(t, i) && i != ROOT
  {
    if !Unlisted(t, i) {
      assert NodeOk(t, i) && ChildOk(t, i, i);
      var m: nat :| Up(t, i, m) == ROOT;
      Round(t, i, 1, m);
    }
  }

  lemma StepRooted(t: Table, op: Op)
    requires TreeOk(t) && Rooted(t) && CleanOp(t, op)
    ensures Rooted(Do(t, op)) <==> Floats(t, op)
  {
    TreeShape(t);
    hide TreeOk, Make, Unlink, RmDir, Rename, Close, Clean, Rooted, Sinks;
    match op
    case OpMake(p, name, mode, dir) => if p < |t.nodes| { MakeRooted(t, p, name, mode, dir); }
    case OpUnlink(p, name) => if p < |t.nodes| { UnlinkRooted(t, p, name); }
    case OpRmDir(p, name) => if p < |t.nodes| { RmDirRooted(t, p, name); }
    case OpRename(p, name, q, newName) => if p < |t.nodes| && q < |t.nodes| { RenameRooted(t, p, name, q, newName); }
    case OpOpen(_) => RootedSame(t, Do(t, op));
    case OpClose(i) => if i < |t.nodes| { CloseRooted(t, i); }
  }

  /**
   * Over every run that moves no inode below itself and closes none that is still in the tree without links, the table
   * is one tree, and it hangs from the root.
   */
  lemma {:induction false} RunRooted(ops: seq<Op>)
    requires AllClean(ops) && forall i :: 0 <= i < |ops| ==> Floats(Run(ops[..i]), ops[i])
    ensures Rooted(Run(ops))
    decreases |ops|
  {
    hide Rooted, Do, Floats, AllClean, TreeOk, FileLinks, CleanOp;
    if |ops| == 0 {
      InitRooted();
    } else {
      var n := |ops| - 1;
      forall i | 0 <= i < n
        ensures Floats(Run(ops[..n][..i]), ops[..n][i])
      {
        assert ops[..n][..i] == ops[..i];
      }
      PrefixRuns(ops, n);
      RunRooted(ops[..n]);
      RunKeeps(ops[..n]);
      StepRooted(Run(ops[..n]), ops[n]);
    }
  }
}
