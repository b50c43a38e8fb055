/** Link counts of ramfs directories, and whole runs (src/kernel/fs/ramfs.c:211-266, src/kernel/fs/ramfs_ops.c:108-184). */
module RamfsLinks {
  import opened Words
  import opened NumberLists
  import opened Ramfs
  import opened RamfsTree
  import opened RamfsRelease

  // ----- Counting subdirectories -----

  function IsDir(nodes: seq<Node>, c: nat): nat {
    if c < |nodes| && nodes[c].kind == Dir then 1 else 0
  }

  lemma {:induction false} DirsFrame(a: seq<Node>, b: seq<Node>, cs: seq<nat>)
    requires forall c :: c in cs ==> IsDir(a, c) == IsDir(b, c)
    ensures Dirs(a, cs) == Dirs(b, cs)
    decreases |cs|
  {
    if |cs| > 0 {
      assert cs[|cs| - 1] in cs;
      assert IsDir(a, cs[|cs| - 1]) == IsDir(b, cs[|cs| - 1]);
      DirsFrame(a, b, cs[..|cs| - 1]);
    }
  }

  lemma {:induction false} DirsConcat(nodes: seq<Node>, a: seq<nat>, b: seq<nat>)
    ensures Dirs(nodes, a + b) == Dirs(nodes, a) + Dirs(nodes, b)
    decreases |b|
  {
    if |b| == 0 {
      assert a + b == a;
    } else {
      assert (a + b)[..|a + b| - 1] == a + b[..|b| - 1];
      DirsConcat(nodes, a, b[..|b| - 1]);
    }
  }

  lemma DirsOne(nodes: seq<Node>, c: nat)
    ensures Dirs(nodes, [c]) == IsDir(nodes, c)
  {
    assert [c][..0] == [];
    assert Dirs(nodes, [c][..0]) == 0;
  }

  lemma DirsSnoc(nodes: seq<Node>, cs: seq<nat>, c: nat)
    ensures Dirs(nodes, cs + [c]) == Dirs(nodes, cs) + IsDir(nodes, c)
  {
    DirsConcat(nodes, cs, [c]);
    DirsOne(nodes, c);
  }

  lemma DirsWithout(nodes: seq<Node>, cs: seq<nat>, j: nat)
    requires j < |cs|
    ensures Dirs(nodes, cs) == Dirs(nodes, Without(cs, j)) + IsDir(nodes, cs[j])
  {
    assert cs == cs[..j] + ([cs[j]] + cs[j + 1..]);
    DirsConcat(nodes, cs[..j], [cs[j]] + cs[j + 1..]);
    DirsConcat(nodes, [cs[j]], cs[j + 1..]);
    DirsConcat(nodes, cs[..j], cs[j + 1..]);
    DirsOne(nodes, cs[j]);
  }

  // ----- One directory -----

  ghost predicate LinksAt(t: Table, d: nat) {
    d < |t.nodes| && t.nodes[d].kind == Dir ==> t.nodes[d].nlink == 2 + Dirs(t.nodes, t.nodes[d].children)
  }

  lemma LinksAll(t: Table)
    ensures NlinkOk(t) <==> forall d :: 0 <= d < |t.nodes| ==> LinksAt(t, d)
  {
    hide Dirs;
    if forall d :: 0 <= d < |t.nodes| ==> LinksAt(t, d) {
      forall d | 0 <= d < |t.nodes| && t.nodes[d].kind == Dir
        ensures t.nodes[d].nlink == 2 + Dirs(t.nodes, t.nodes[d].children)
      {
        assert LinksAt(t, d);
      }
    }
  }

  /** Changing an inode that is on no list, without touching kinds of others, keeps the counts of the others. */
  lemma UnlistedChange(t: Table, i: nat, n: Node, d: nat)
    requires i < |t.nodes| && Unlisted(t, i) && d != i && LinksAt(t, d)
    ensures LinksAt(SetNode(t, i, n), d)
  {
    hide Dirs;
    if d < |t.nodes| && t.nodes[d].kind == Dir {
      DirsFrame(t.nodes, t.nodes[i := n], t.nodes[d].children);
    }
  }

  /** A change that keeps the kind keeps every count but its own. */
  lemma SameKindChange(t: Table, i: nat, n: Node, d: nat)
    requires i < |t.nodes| && n.kind == t.nodes[i].kind
    ensures d < |t.nodes| && d != i ==> (LinksAt(SetNode(t, i, n), d) <==> LinksAt(t, d))
    ensures forall cs :: Dirs(t.nodes[i := n], cs) == Dirs(t.nodes, cs)
  {
    hide Dirs;
    forall cs
      ensures Dirs(t.nodes[i := n], cs) == Dirs(t.nodes, cs)
    {
      DirsFrame(t.nodes, t.nodes[i := n], cs);
    }
  }

  /** The links of p that are missing, or too many, by k. */
  ghost predicate OffBy(t: Table, p: nat, k: int) {
    && p < |t.nodes| && t.nodes[p].kind == Dir && t.nodes[p].nlink == 2 + Dirs(t.nodes, t.nodes[p].children) + k
    && forall d :: 0 <= d < |t.nodes| && d != p ==> LinksAt(t, d)
  }

  lemma OffByZero(t: Table, p: nat)
    requires p < |t.nodes| && t.nodes[p].kind == Dir
    ensures OffBy(t, p, 0) <==> NlinkOk(t)
  {
    hide Dirs;
    LinksAll(t);
    if OffBy(t, p, 0) {
      forall d | 0 <= d < |t.nodes|
        ensures LinksAt(t, d)
      {
      }
    }
  }

  lemma AddOff(t: Table, p: nat, c: nat, k: int)
    requires OffBy(t, p, k) && c < |t.nodes| && AddChild(t, p, c).0 == 0
    ensures OffBy(AddChild(t, p, c).1, p, k - IsDir(t.nodes, c))
  {
    hide Dirs;
    var u := SetNode(t, p, t.nodes[p].(children := t.nodes[p].children + [c]));
    var r := AddChild(t, p, c).1;
    SameKindChange(t, p, u.nodes[p], 0);
    SameKindChange(u, c, r.nodes[c], 0);
    DirsSnoc(t.nodes, t.nodes[p].children, c);
    forall d | 0 <= d < |t.nodes| && d != p
      ensures LinksAt(r, d)
    {
      assert LinksAt(t, d);
    }
  }

  lemma RemoveOff(t: Table, p: nat, c: nat, k: int)
    requires TreeOk(t) && OffBy(t, p, k) && c in t.nodes[p].children
    ensures OffBy(RemoveChild(t, p, c).1, p, k + IsDir(t.nodes, c))
  {
    hide Dirs, Without, TreeOk;
    RemoveKeeps(t, p, c);
    var r := RemoveChild(t, p, c).1;
    var j :| 0 <= j < |t.nodes[p].children| && t.nodes[p].children[j] == c
             && r == SetNode(t, p, t.nodes[p].(children := Without(t.nodes[p].children, j)));
    SameKindChange(t, p, r.nodes[p], 0);
    DirsWithout(t.nodes, t.nodes[p].children, j);
    forall d | 0 <= d < |t.nodes| && d != p
      ensures LinksAt(r, d)
    {
      assert LinksAt(t, d);
    }
  }

  /** A new link count for p itself. */
  lemma LinkOff(t: Table, p: nat, k: int, nlink: nat)
    requires OffBy(t, p, k)
    ensures OffBy(SetNode(t, p, t.nodes[p].(nlink := nlink)), p, k + nlink - t.nodes[p].nlink)
  {
    hide Dirs;
    var n := t.nodes[p].(nlink := nlink);
    var r := SetNode(t, p, n);
    SameKindChange(t, p, n, 0);
    forall d | 0 <= d < |t.nodes| && d != p
      ensures LinksAt(r, d)
    {
      assert LinksAt(t, d);
    }
  }

  /** An unlisted inode other than p is replaced by one that has its own count right. */
  lemma UnlistedOff(t: Table, p: nat, k: int, i: nat, n: Node)
    requires OffBy(t, p, k) && i < |t.nodes| && i != p && Unlisted(t, i)
    requires n.kind == Dir ==> n.children == [] && n.nlink == 2
    ensures OffBy(SetNode(t, i, n), p, k)
  {
    hide Dirs, Unlisted;
    var r := SetNode(t, i, n);
    UnlistedDirs(t, i, n, p);
    assert Dirs(r.nodes, []) == 0 by { EmptyDirs(r.nodes); }
    forall d | 0 <= d < |t.nodes| && d != p
      ensures LinksAt(r, d)
    {
      assert LinksAt(t, d);
      if d != i {
        UnlistedChange(t, i, n, d);
      }
    }
  }

  lemma EmptyDirs(nodes: seq<Node>)
    ensures Dirs(nodes, []) == 0
  {
  }

  lemma UnlistedDirs(t: Table, i: nat, n: Node, p: nat)
    requires i < |t.nodes| && p < |t.nodes| && Unlisted(t, i)
    ensures Dirs(t.nodes[i := n], t.nodes[p].children) == Dirs(t.nodes, t.nodes[p].children)
  {
    hide Dirs;
    DirsFrame(t.nodes, t.nodes[i := n], t.nodes[p].children);
  }

  lemma OpenOff(t: Table, r: Table, p: nat, k: int)
    requires OffBy(t, p, k) && r.nodes == t.nodes
    ensures OffBy(r, p, k)
  {
    hide Dirs;
    forall d | 0 <= d < |r.nodes| && d != p
      ensures LinksAt(r, d)
    {
      assert LinksAt(t, d);
    }
  }

  // ----- The operations -----

  lemma MakeLinks(t: Table, p: nat, name: seq<byte>, mode: nat, dir: bool)
    requires TreeOk(t) && NlinkOk(t) && p < |t.nodes|
    ensures NlinkOk(Make(t, p, name, mode, dir).1)
  {
    hide TreeOk, Unlisted, Lookup, FreeFrom, AddChild, NlinkOk, OffBy, Dirs;
    TreeShape(t);
    var i := FreeFrom(t.nodes, 2);
    FreeFromFinds(t.nodes, 2);
    if t.nodes[p].kind == Dir && !(dir && Lookup(t, p, name) != 0) && i != 0 {
      FreeUnlisted(t, i);
      OffByZero(t, p);
      var n := Node(if dir then Dir else File, Stored(name), mode % 512, if dir then 2 else 1, 0, []);
      var u := SetNode(t, i, n);
      UnlistedOff(t, p, 0, i, n);
      RelabelKeeps(t, i, n);
      var (rc, v) := AddChild(u, p, i);
      AddShape(u, p, i);
      AddKeeps(u, p, i);
      if rc < 0 {
        UnlistedOff(u, p, 0, i, EMPTY);
        OpenOff(SetNode(u, i, EMPTY), FreeInode(u, i), p, 0);
        OffByZero(FreeInode(u, i), p);
      } else {
        AddOff(u, p, i, 0);
        if dir {
          LinkOff(v, p, -1, v.nodes[p].nlink + 1);
          OffByZero(SetNode(v, p, v.nodes[p].(nlink := v.nodes[p].nlink + 1)), p);
        } else {
          OffByZero(v, p);
        }
      }
    }
  }

  lemma UnlinkLinks(t: Table, p: nat, name: seq<byte>)
    requires TreeOk(t) && NlinkOk(t) && p < |t.nodes|
    ensures NlinkOk(Unlink(t, p, name).1)
  {
    hide TreeOk, Unlisted, Lookup, RemoveChild, NlinkOk, OffBy, Dirs;
    TreeShape(t);
    LookupOk(t, p, name);
    var i := Lookup(t, p, name);
    if i != 0 && t.nodes[i].kind != Dir {
      OffByZero(t, p);
      RemoveKeeps(t, p, i);
      RemoveShape(t, p, i);
      RemoveOff(t, p, i, 0);
      var u := RemoveChild(t, p, i).1;
      var n := u.nodes[i].(nlink := if u.nodes[i].nlink > 0 then u.nodes[i].nlink - 1 else 0);
      TreeShape(u);
      UnlistedOff(u, p, 0, i, n);
      RelabelKeeps(u, i, n);
      var v := SetNode(u, i, n);
      OffByZero(v, p);
      if n.nlink == 0 && v.open[i] == 0 {
        UnlistedOff(v, p, 0, i, EMPTY);
        OpenOff(SetNode(v, i, EMPTY), FreeInode(v, i), p, 0);
        OffByZero(FreeInode(v, i), p);
      }
    }
  }

  lemma RmDirLinks(t: Table, p: nat, name: seq<byte>)
    requires TreeOk(t) && NlinkOk(t) && p < |t.nodes|
    ensures NlinkOk(RmDir(t, p, name).1)
  {
    hide TreeOk, Unlisted, Lookup, RemoveChild, NlinkOk, OffBy, Dirs;
    TreeShape(t);
    LookupOk(t, p, name);
    var i := Lookup(t, p, name);
    if i != 0 && t.nodes[i].kind == Dir && t.nodes[i].children == [] {
      OffByZero(t, p);
      RemoveKeeps(t, p, i);
      RemoveShape(t, p, i);
      RemoveOff(t, p, i, 0);
      var u := RemoveChild(t, p, i).1;
      TreeShape(u);
      OffMeans(u, p, 1);
      LinkOff(u, p, 1, u.nodes[p].nlink - 1);
      var n := u.nodes[p].(nlink := u.nodes[p].nlink - 1);
      var v := SetNode(u, p, n);
      RelabelKeeps(u, p, n);
      UnlistedOff(v, p, 0, i, EMPTY);
      OpenOff(SetNode(v, i, EMPTY), FreeInode(v, i), p, 0);
      OffByZero(FreeInode(v, i), p);
    }
  }

  lemma OffMeans(t: Table, p: nat, k: nat)
    requires OffBy(t, p, k)
    ensures t.nodes[p].nlink >= 2 + k
  {
  }

  /** A directory moves to another directory that can take it. */
  predicate Moves(t: Table, p: nat, name: seq<byte>, q: nat)
    requires p < |t.nodes| && q < |t.nodes|
  {
    var i := Lookup(t, p, name);
    && 0 < i < |t.nodes| && t.nodes[i].kind == Dir && p != q
    && t.nodes[q].kind == Dir && |t.nodes[q].children| < MAX_CHILDREN
  }

  lemma Renamed(t: Table, p: nat, k: int, i: nat, name: seq<byte>)
    requires OffBy(t, p, k) && i < |t.nodes|
    ensures OffBy(SetNode(t, i, t.nodes[i].(name := name)), p, k)
  {
    hide Dirs;
    var n := t.nodes[i].(name := name);
    var r := SetNode(t, i, n);
    SameKindChange(t, i, n, 0);
    forall d | 0 <= d < |t.nodes| && d != p
      ensures LinksAt(r, d)
    {
      assert LinksAt(t, d);
    }
  }

  /** Adding to another list leaves p's count off as it was. */
  lemma AddElsewhere(t: Table, p: nat, q: nat, c: nat)
    requires p < |t.nodes| && q < |t.nodes| && c < |t.nodes| && p != q && AddChild(t, q, c).0 == 0
    ensures var r := AddChild(t, q, c).1;
            t.nodes[p].kind == Dir ==>
              r.nodes[p].kind == Dir && r.nodes[p].nlink == t.nodes[p].nlink && Dirs(r.nodes, r.nodes[p].children) == Dirs(t.nodes, t.nodes[p].children)
  {
    hide Dirs;
    var u := SetNode(t, q, t.nodes[q].(children := t.nodes[q].children + [c]));
    SameKindChange(t, q, u.nodes[q], 0);
    SameKindChange(u, c, AddChild(t, q, c).1.nodes[c], 0);
  }

  /** What rename does once the child is off its old list: t is the table then, off by k at p. */
  lemma PutBack(t: Table, p: nat, q: nat, i: nat, k: int)
    requires OffBy(t, p, k) && k == IsDir(t.nodes, i) && q < |t.nodes| && i < |t.nodes|
             && |t.nodes[p].children| < MAX_CHILDREN
    ensures var (rc, w) := AddChild(t, q, i);
            var r := if rc < 0 then AddChild(t, p, i).1 else w;
            NlinkOk(r) <==> !(rc == 0 && p != q && k == 1)
  {
    hide Dirs;
    var (rc, w) := AddChild(t, q, i);
    if rc < 0 || p == q {
      AddOff(t, p, i, k);
      OffByZero(AddChild(t, p, i).1, p);
    } else if k == 1 {
      AddElsewhere(t, p, q, i);
    } else {
      OffByZero(t, p);
      LinksAll(t);
      if t.nodes[q].kind == Dir {
        OffByZero(t, q);
        AddOff(t, q, i, 0);
        OffByZero(w, q);
      }
    }
  }

  /** A rename keeps the counts if and only if it does not move a directory to another directory. */
  lemma RenameLinks(t: Table, p: nat, name: seq<byte>, q: nat, newName: seq<byte>)
    requires TreeOk(t) && NlinkOk(t) && p < |t.nodes| && q < |t.nodes|
    ensures NlinkOk(Rename(t, p, name, q, newName).1) <==> !Moves(t, p, name, q)
  {
    hide TreeOk, Unlisted, Lookup, RemoveChild, NlinkOk, OffBy, Dirs;
    TreeShape(t);
    LookupOk(t, p, name);
    var i := Lookup(t, p, name);
    if i != 0 {
      OffByZero(t, p);
      RemoveKeeps(t, p, i);
      RemoveShape(t, p, i);
      RemoveOff(t, p, i, 0);
      var u := RemoveChild(t, p, i).1;
      TreeShape(u);
      RemovedRoom(t, p, i);
      var n := u.nodes[i].(name := Stored(newName));
      var v := SetNode(u, i, n);
      Renamed(u, p, IsDir(t.nodes, i), i, Stored(newName));
      PutBack(v, p, q, i, IsDir(t.nodes, i));
    }
  }

  lemma RemovedRoom(t: Table, p: nat, c: nat)
    requires TreeOk(t) && p < |t.nodes| && c in t.nodes[p].children
    ensures |RemoveChild(t, p, c).1.nodes[p].children| == |t.nodes[p].children| - 1 < MAX_CHILDREN
  {
    assert NodeOk(t, p);
    hide NoDup;
  }

  // ----- Every run -----

  datatype Op =
    | OpMake(p: nat, name: seq<byte>, mode: nat, dir: bool)
    | OpUnlink(p: nat, name: seq<byte>)
    | OpRmDir(p: nat, name: seq<byte>)
    | OpRename(p: nat, name: seq<byte>, q: nat, newName: seq<byte>)
    | OpOpen(i: nat)                  // ramfs_inc_open_count
    | OpClose(i: nat)                 // ramfs_dec_open_count, and ramfs_op_release if need be

  function Do(t: Table, op: Op): (r: Table)
    requires |t.nodes| == |t.open|
    ensures |r.nodes| == |r.open|
  {
    match op
    case OpMake(p, name, mode, dir) => if p < |t.nodes| then Make(t, p, name, mode, dir).1 else t
    case OpUnlink(p, name) => if p < |t.nodes| then Unlink(t, p, name).1 else t
    case OpRmDir(p, name) => if p < |t.nodes| then RmDir(t, p, name).1 else t
    case OpRename(p, name, q, newName) => if p < |t.nodes| && q < |t.nodes| then Rename(t, p, name, q, newName).1 else t
    case OpOpen(i) => if i < |t.open| then Open(t, i) else t
    case OpClose(i) => if i < |t.open| then Close(t, i) else t
  }

  function Run(ops: seq<Op>): (t: Table)
    ensures |t.nodes| == |t.open|
    decreases |ops|
  {
    if |ops| == 0 then Init() else Do(Run(ops[..|ops| - 1]), ops[|ops| - 1])
  }

  lemma OpenKeeps(t: Table, r: Table)
    requires TreeOk(t) && r.nodes == t.nodes && |r.open| == |t.open|
    ensures TreeOk(r) && (NlinkOk(t) ==> NlinkOk(r))
  {
    forall d | 0 <= d < |r.nodes|
      ensures NodeOk(r, d)
    {
      assert NodeOk(t, d);
      OpenIrrelevant(t, r, d);
    }
    hide NodeOk, Dirs;
  }

  /** The operation is no close that releases an inode which is still in the tree. */
  ghost predicate CleanOp(t: Table, op: Op)
    requires |t.nodes| == |t.open|
  {
    op.OpClose? && op.i < |t.nodes| ==> Clean(t, op.i)
  }

  lemma StepKeeps(t: Table, op: Op)
    requires TreeOk(t)
    ensures TreeOk(Do(t, op)) <==> CleanOp(t, op)
  {
    TreeShape(t);
    hide TreeOk, Make, Unlink, RmDir, Rename, Close, Clean;
    match op
    case OpMake(p, name, mode, dir) => if p < |t.nodes| { MakeKeeps(t, p, name, mode, dir); }
    case OpUnlink(p, name) => if p < |t.nodes| { UnlinkKeeps(t, p, name); }
    case OpRmDir(p, name) => if p < |t.nodes| { RmDirKeeps(t, p, name); }
    case OpRename(p, name, q, newName) => if p < |t.nodes| && q < |t.nodes| { RenameKeeps(t, p, name, q, newName); }
    case OpOpen(_) => OpenKeeps(t, Do(t, op));
    case OpClose(i) => if i < |t.nodes| { CloseKeeps(t, i); }
  }

  lemma StepFiles(t: Table, op: Op)
    requires TreeOk(t) && FileLinks(t)
    ensures FileLinks(Do(t, op))
  {
    TreeShape(t);
    hide TreeOk, FileLinks, Make, Unlink, RmDir, Rename, Close;
    match op
    case OpMake(p, name, mode, dir) => if p < |t.nodes| { MakeFiles(t, p, name, mode, dir); }
    case OpUnlink(p, name) => if p < |t.nodes| { UnlinkFiles(t, p, name); }
    case OpRmDir(p, name) => if p < |t.nodes| { RmDirFiles(t, p, name); }
    case OpRename(p, name, q, newName) => if p < |t.nodes| && q < |t.nodes| { RenameFiles(t, p, name, q, newName); }
    case OpOpen(_) => OpenFiles(t, Do(t, op));
    case OpClose(i) => if i < |t.nodes| { CloseFiles(t, i); }
  }

  lemma OpenFiles(t: Table, r: Table)
    requires FileLinks(t) && r.nodes == t.nodes
    ensures FileLinks(r)
  {
    SameLists(t, r);
  }

  /** The operation moves no directory to another directory. */
  predicate Stays(t: Table, op: Op) {
    op.OpRename? && op.p < |t.nodes| && op.q < |t.nodes| ==> !Moves(t, op.p, op.name, op.q)
  }

  lemma StepLinks(t: Table, op: Op)
    requires TreeOk(t) && FileLinks(t) && NlinkOk(t)
    ensures NlinkOk(Do(t, op)) <==> Stays(t, op)
  {
    TreeShape(t);
    hide TreeOk, FileLinks, Make, Unlink, RmDir, Rename, Close, NlinkOk, Moves;
    match op
    case OpMake(p, name, mode, dir) => if p < |t.nodes| { MakeLinks(t, p, name, mode, dir); }
    case OpUnlink(p, name) => if p < |t.nodes| { UnlinkLinks(t, p, name); }
    case OpRmDir(p, name) => if p < |t.nodes| { RmDirLinks(t, p, name); }
    case OpRename(p, name, q, newName) => if p < |t.nodes| && q < |t.nodes| { RenameLinks(t, p, name, q, newName); }
    case OpOpen(_) => OpenKeeps(t, Do(t, op));
    case OpClose(i) => if i < |t.nodes| { CloseLinks(t, i); }
  }

  lemma CloseLinks(t: Table, i: nat)
    requires TreeOk(t) && FileLinks(t) && NlinkOk(t) && i < |t.nodes| == |t.open|
    ensures NlinkOk(Close(t, i))
  {
    hide TreeOk, FileLinks, Dirs;
    var r := Close(t, i);
    if Releases(t, i) && i != 0 {
      ReleasedFile(t, i);
      forall d | 0 <= d < |r.nodes| && r.nodes[d].kind == Dir
        ensures r.nodes[d].nlink == 2 + Dirs(r.nodes, r.nodes[d].children)
      {
        assert i !in t.nodes[d].children;
        DirsFrame(t.nodes, r.nodes, t.nodes[d].children);
      }
    }
  }

  /** With the counts right, what a close releases is a file on no list. */
  lemma ReleasedFile(t: Table, i: nat)
    requires FileLinks(t) && NlinkOk(t) && i < |t.nodes| == |t.open| && Releases(t, i)
    ensures t.nodes[i].kind == File && Unlisted(t, i)
  {
    hide Dirs;
  }

  /** Every operation of the run has this property where it happens. */
  ghost predicate AllClean(ops: seq<Op>) {
    forall i :: 0 <= i < |ops| ==> CleanOp(Run(ops[..i]), ops[i])
  }

  ghost predicate AllStay(ops: seq<Op>) {
    forall i :: 0 <= i < |ops| ==> Stays(Run(ops[..i]), ops[i])
  }

  lemma PrefixRuns(ops: seq<Op>, n: nat)
    requires n < |ops|
    ensures AllClean(ops) ==> AllClean(ops[..n]) && CleanOp(Run(ops[..n]), ops[n])
    ensures AllStay(ops) ==> AllStay(ops[..n]) && Stays(Run(ops[..n]), ops[n])
  {
    hide Run, CleanOp, Stays;
    forall i | 0 <= i < n
      ensures AllClean(ops) ==> CleanOp(Run(ops[..n][..i]), ops[..n][i])
      ensures AllStay(ops) ==> Stays(Run(ops[..n][..i]), ops[..n][i])
    {
      assert ops[..n][..i] == ops[..i];
    }
  }

  /** Over every run without an unclean close the child lists stay intact, and every listed file has a link. */
  lemma {:induction false} RunKeeps(ops: seq<Op>)
    requires AllClean(ops)
    ensures TreeOk(Run(ops)) && FileLinks(Run(ops))
    decreases |ops|
  {
    hide TreeOk, FileLinks, Do, CleanOp, AllClean, AllStay;
    if |ops| == 0 {
      InitOk();
      InitFiles();
    } else {
      var n := |ops| - 1;
      PrefixRuns(ops, n);
      RunKeeps(ops[..n]);
      StepKeeps(Run(ops[..n]), ops[n]);
      StepFiles(Run(ops[..n]), ops[n]);
    }
  }

  lemma InitFiles()
    ensures FileLinks(Init())
  {
  }

  /**
   * As long as no directory has moved to another one, no close is unclean, and every directory has two links and one
   * more for each subdirectory.
   */
  lemma {:induction false} RunLinks(ops: seq<Op>)
    requires AllStay(ops)
    ensures AllClean(ops) && NlinkOk(Run(ops))
    decreases |ops|
  {
    hide TreeOk, FileLinks, NlinkOk, Do, CleanOp, Stays, AllStay, Clean;
    if |ops| == 0 {
      InitOk();
    } else {
      var n := |ops| - 1;
      PrefixRuns(ops, n);
      RunLinks(ops[..n]);
      RunKeeps(ops[..n]);
      var t := Run(ops[..n]);
      StepLinks(t, ops[n]);
      CleanStep(t, ops[n]);
      forall i | 0 <= i < |ops|
        ensures CleanOp(Run(ops[..i]), ops[i])
      {
        if i < n {
          assert CleanOp(Run(ops[..n][..i]), ops[..n][i]);
          assert ops[..n][..i] == ops[..i];
        }
      }
    }
  }

  lemma CleanStep(t: Table, op: Op)
    requires TreeOk(t) && FileLinks(t) && NlinkOk(t)
    ensures CleanOp(t, op)
  {
    TreeShape(t);
    hide TreeOk, FileLinks, NlinkOk, Clean;
    if op.OpClose? && op.i < |t.nodes| {
      CleanWhile(t, op.i);
    }
  }
}
