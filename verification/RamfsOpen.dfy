/**
 * The open counts of ramfs (src/kernel/fs/ramfs.c:11-12, 35-63): an inode is to be freed only when it has no links and
 * nobody has it open. ramfs_op_rmdir does not look at the count (src/kernel/fs/ramfs_ops.c:128-148).
 */
module RamfsOpen {
  import opened Words
  import opened Ramfs
  import opened RamfsTree
  import opened RamfsRelease
  import opened RamfsLinks

  /** Each inode has the count of the open files that refer to it, and all of these are in use. */
  ghost predicate Counted(t: Table, files: multiset<nat>) {
    |t.nodes| == |t.open| && forall i: nat :: CountedAt(t, files, i)
  }

  predicate CountedAt(t: Table, files: multiset<nat>, i: nat)
    requires |t.nodes| == |t.open|
  {
    files[i] < TWO32 && if i < |t.open| then t.open[i] == files[i] && (files[i] > 0 ==> t.nodes[i].kind != Free) else files[i] == 0
  }

  /** The open files after an operation. */
  function Files(files: multiset<nat>, op: Op): multiset<nat> {
    match op
    case OpOpen(i) => files[i := files[i] + 1]
    case OpClose(i) => if files[i] > 0 then files[i := files[i] - 1] else files
    case _ => files
  }

  /** Only an inode in use is opened, and only an open file is closed. */
  predicate Proper(t: Table, files: multiset<nat>, op: Op) {
    && (op.OpOpen? ==> op.i < |t.nodes| && t.nodes[op.i].kind != Free && files[op.i] + 1 < TWO32)
    && (op.OpClose? ==> files[op.i] > 0)
  }

  /** The operation removes a directory that somebody has open. */
  predicate RemovesOpen(t: Table, op: Op)
    requires |t.nodes| == |t.open|
  {
    && op.OpRmDir? && op.p < |t.nodes|
    && var i := Lookup(t, op.p, op.name);
       0 < i < |t.nodes| && t.nodes[i].kind == Dir && t.nodes[i].children == [] && t.open[i] != 0
  }

  /** Inodes in use stay in use, with their counts, except perhaps for i, which nobody has open. */
  lemma CountedBut(t: Table, u: Table, files: multiset<nat>, i: nat)
    requires Counted(t, files) && |u.nodes| == |u.open| == |t.open| && (i < |u.open| ==> files[i] == 0 == u.open[i])
    requires forall x :: 0 <= x < |t.open| && x != i ==> u.open[x] == t.open[x] && u.nodes[x].kind == t.nodes[x].kind
    ensures Counted(u, files)
  {
    forall x: nat
      ensures CountedAt(u, files, x)
    {
      assert CountedAt(t, files, x);
    }
  }

  lemma MakeCounted(t: Table, files: multiset<nat>, p: nat, name: seq<byte>, mode: nat, dir: bool)
    requires TreeOk(t) && Counted(t, files) && p < |t.nodes|
    ensures Counted(Make(t, p, name, mode, dir).1, files)
  {
    hide TreeOk, Counted, Lookup, FreeFrom, AddChild;
    TreeShape(t);
    FreeFromFinds(t.nodes, 2);
    var i := FreeFrom(t.nodes, 2);
    if t.nodes[p].kind == Dir && !(dir && Lookup(t, p, name) != 0) && i != 0 {
      var u := SetNode(t, i, Node(if dir then Dir else File, Stored(name), mode % 512, if dir then 2 else 1, 0, []));
      AddShape(u, p, i);
      AddZero(u, p, i);
      FreeIsClosed(t, files, i);
      CountedBut(t, Make(t, p, name, mode, dir).1, files, i);
    }
  }

  lemma FreeIsClosed(t: Table, files: multiset<nat>, i: nat)
    requires Counted(t, files) && i < |t.nodes|
    ensures files[i] == t.open[i] && (t.nodes[i].kind == Free ==> files[i] == 0)
  {
    assert CountedAt(t, files, i);
  }

  lemma UnlinkCounted(t: Table, files: multiset<nat>, p: nat, name: seq<byte>)
    requires TreeOk(t) && Counted(t, files) && p < |t.nodes|
    ensures Counted(Unlink(t, p, name).1, files)
  {
    hide TreeOk, Counted, Lookup, RemoveChild;
    TreeShape(t);
    LookupOk(t, p, name);
    var i := Lookup(t, p, name);
    if i != 0 && t.nodes[i].kind != Dir {
      RemoveShape(t, p, i);
      FreeIsClosed(t, files, i);
      CountedBut(t, Unlink(t, p, name).1, files, if t.open[i] == 0 then i else |t.nodes|);
    }
  }

  /** Removing a directory keeps the counts right if and only if nobody has it open. */
  lemma RmDirCounted(t: Table, files: multiset<nat>, p: nat, name: seq<byte>)
    requires TreeOk(t) && Counted(t, files) && p < |t.nodes| == |t.open|
    ensures Counted(RmDir(t, p, name).1, files) <==> !RemovesOpen(t, OpRmDir(p, name))
  {
    hide TreeOk, Counted, Lookup, RemoveChild;
    TreeShape(t);
    LookupOk(t, p, name);
    var i := Lookup(t, p, name);
    if i != 0 && t.nodes[i].kind == Dir && t.nodes[i].children == [] {
      RemoveShape(t, p, i);
      FreeIsClosed(t, files, i);
      var u := RmDir(t, p, name).1;
      if t.open[i] == 0 {
        CountedBut(t, u, files, i);
      } else if Counted(u, files) {
        FreeIsClosed(u, files, i);
      }
    }
  }

  lemma RenameCounted(t: Table, files: multiset<nat>, p: nat, name: seq<byte>, q: nat, newName: seq<byte>)
    requires TreeOk(t) && Counted(t, files) && p < |t.nodes| && q < |t.nodes|
    ensures Counted(Rename(t, p, name, q, newName).1, files)
  {
    hide TreeOk, Counted, Lookup, RemoveChild, AddChild;
    TreeShape(t);
    LookupOk(t, p, name);
    var i := Lookup(t, p, name);
    if i != 0 {
      RemoveShape(t, p, i);
      var u := RemoveChild(t, p, i).1;
      var v := SetNode(u, i, u.nodes[i].(name := Stored(newName)));
      AddShape(v, q, i);
      AddShape(v, p, i);
      CountedBut(t, Rename(t, p, name, q, newName).1, files, |t.nodes|);
    }
  }

  lemma OpenCounted(t: Table, files: multiset<nat>, op: Op)
    requires Counted(t, files) && Proper(t, files, op) && (op.OpOpen? || op.OpClose?)
    ensures Counted(Do(t, op), Files(files, op))
  {
    var u, more := Do(t, op), Files(files, op);
    FreeAt(t, files, op.i);
    forall x: nat
      ensures CountedAt(u, more, x)
    {
      assert CountedAt(t, files, x);
    }
  }

  lemma FreeAt(t: Table, files: multiset<nat>, i: nat)
    requires Counted(t, files)
    ensures CountedAt(t, files, i)
  {
  }

  /** An operation keeps the counts right if and only if it does not remove a directory that somebody has open. */
  lemma StepCounted(t: Table, files: multiset<nat>, op: Op)
    requires TreeOk(t) && Counted(t, files) && |t.nodes| == |t.open| && Proper(t, files, op)
    ensures Counted(Do(t, op), Files(files, op)) <==> !RemovesOpen(t, op)
  {
    hide TreeOk, Counted, Make, Unlink, RmDir, Rename, Open, Close;
    match op
    case OpMake(p, name, mode, dir) => if p < |t.nodes| { MakeCounted(t, files, p, name, mode, dir); }
    case OpUnlink(p, name) => if p < |t.nodes| { UnlinkCounted(t, files, p, name); }
    case OpRmDir(p, name) => if p < |t.nodes| { RmDirCounted(t, files, p, name); }
    case OpRename(p, name, q, newName) =>
      if p < |t.nodes| && q < |t.nodes| { RenameCounted(t, files, p, name, q, newName); }
    case OpOpen(_) => OpenCounted(t, files, op);
    case OpClose(_) => OpenCounted(t, files, op);
  }

  /** The open files after a run. */
  function RunFiles(ops: seq<Op>): multiset<nat>
    decreases |ops|
  {
    if |ops| == 0 then multiset{} else Files(RunFiles(ops[..|ops| - 1]), ops[|ops| - 1])
  }

  ghost predicate Careful(ops: seq<Op>) {
    forall i :: 0 <= i < |ops| ==>
      Proper(Run(ops[..i]), RunFiles(ops[..i]), ops[i]) && !RemovesOpen(Run(ops[..i]), ops[i])
  }

  /** Over every run that removes no open directory the counts are right, and no inode is freed while it is open. */
  lemma {:induction false} RunCounted(ops: seq<Op>)
    requires AllClean(ops) && Careful(ops)
    ensures Counted(Run(ops), RunFiles(ops))
    decreases |ops|
  {
    hide Counted, Do, Files, Proper, RemovesOpen, AllClean, TreeOk, FileLinks, CleanOp;
    if |ops| == 0 {
      InitCounted();
    } else {
      var n := |ops| - 1;
      forall i | 0 <= i < n
        ensures Proper(Run(ops[..n][..i]), RunFiles(ops[..n][..i]), ops[..n][i]) && !RemovesOpen(Run(ops[..n][..i]), ops[..n][i])
      {
        assert ops[..n][..i] == ops[..i];
      }
      PrefixRuns(ops, n);
      RunCounted(ops[..n]);
      RunKeeps(ops[..n]);
      StepCounted(Run(ops[..n]), RunFiles(ops[..n]), ops[n]);
    }
  }

  lemma InitCounted()
    ensures Counted(Init(), multiset{})
  {
    forall i: nat
      ensures CountedAt(Init(), multiset{}, i)
    {
    }
  }
}
