/**
 * When no directory of ramfs has two entries of one name: creating a file does not look for the name, creating a
 * directory looks for it before it is cut to the stored length, and renaming does not look
 * (src/kernel/fs/ramfs.c:211-266, src/kernel/fs/ramfs_ops.c:165-184).
 */
module RamfsDistinct {
  import opened Words
  import opened Ramfs
  import opened RamfsTree
  import opened RamfsNames
  import opened RamfsRelease
  import opened RamfsLinks

  predicate Taken(es: seq<Named>, name: seq<byte>) {
    exists k :: 0 <= k < |es| && es[k].name == name
  }

  predicate Unique(es: seq<Named>) {
    forall i, j :: 0 <= i < j < |es| ==> es[i].name != es[j].name
  }

  ghost predicate Distinct(t: Table) {
    forall d: nat :: Unique(Entries(t, d))
  }

  // ----- Lists of entries -----

  lemma UniqueSnoc(es: seq<Named>, e: Named)
    ensures Unique(es + [e]) <==> Unique(es) && !Taken(es, e.name)
  {
    var more := es + [e];
    assert more[|es|] == e;
    if Unique(more) {
      assert forall i :: 0 <= i < |es| ==> es[i] == more[i];
    }
  }

  lemma TakenCons(e: Named, es: seq<Named>, x: seq<byte>)
    ensures Taken([e] + es, x) <==> e.name == x || Taken(es, x)
  {
    var more := [e] + es;
    assert more[0] == e;
    assert forall k :: 0 <= k < |es| ==> es[k] == more[k + 1];
  }

  lemma UniqueCons(e: Named, es: seq<Named>)
    ensures Unique([e] + es) <==> Unique(es) && !Taken(es, e.name)
  {
    var more := [e] + es;
    assert more[0] == e;
    assert forall k :: 0 <= k < |es| ==> es[k] == more[k + 1];
  }

  lemma {:induction false} DroppedTaken(es: seq<Named>, name: seq<byte>, x: seq<byte>)
    requires Taken(Dropped(es, name), x)
    ensures Taken(es, x)
    decreases |es|
  {
    hide Taken;
    if |es| > 0 {
      var rest := es[1..];
      assert es == [es[0]] + rest;
      TakenCons(es[0], rest, x);
      if es[0].name != name {
        TakenCons(es[0], Dropped(rest, name), x);
        if Taken(Dropped(rest, name), x) {
          DroppedTaken(rest, name, x);
        }
      }
    }
  }

  lemma {:induction false} UniqueDropped(es: seq<Named>, name: seq<byte>)
    requires Unique(es)
    ensures Unique(Dropped(es, name))
    decreases |es|
  {
    hide Taken, Unique;
    if |es| > 0 {
      var rest := es[1..];
      assert es == [es[0]] + rest;
      UniqueCons(es[0], rest);
      if es[0].name != name {
        UniqueDropped(rest, name);
        UniqueCons(es[0], Dropped(rest, name));
        if Taken(Dropped(rest, name), es[0].name) {
          DroppedTaken(rest, name, es[0].name);
        }
      }
    }
  }

  // ----- The operations -----

  lemma SameDistinct(t: Table, u: Table)
    requires Distinct(t) && forall d: nat :: Entries(u, d) == Entries(t, d) || Entries(u, d) == []
    ensures Distinct(u)
  {
    hide Entries;
  }

  lemma EditedDistinct(t: Table, u: Table, p: nat, es: seq<Named>)
    requires Distinct(t) && Edited(t, u, p, es)
    ensures Distinct(u) <==> Unique(es)
  {
    hide Entries, Unique;
  }

  /** The file or directory is made. */
  predicate Makes(t: Table, p: nat, name: seq<byte>, dir: bool) {
    HasRoom(t, p) && HasFree(t) && !(dir && Resolve(Entries(t, p), name) != 0)
  }

  /** Creating keeps the names distinct exactly when it fails or the name it stores is new. */
  lemma MakeDistinct(t: Table, p: nat, name: seq<byte>, mode: nat, dir: bool)
    requires TreeOk(t) && Distinct(t) && p < |t.nodes|
    ensures Distinct(Make(t, p, name, mode, dir).1) <==> (Makes(t, p, name, dir) ==> !Taken(Entries(t, p), Stored(name)))
  {
    hide TreeOk, Entries, Resolve, Make, Unique, Taken, Edited, HasFree, Distinct;
    TreeShape(t);
    MakeNames(t, p, name, mode, dir);
    var u := Make(t, p, name, mode, dir).1;
    if Makes(t, p, name, dir) {
      var i :| MadeAs(t, u, p, name, dir, i);
      var e := Named(Stored(name), i);
      EditedDistinct(t, u, p, Entries(t, p) + [e]);
      UniqueSnoc(Entries(t, p), e);
      OneUnique(t, p);
    } else {
      SameDistinct(t, u);
    }
  }

  lemma OneUnique(t: Table, d: nat)
    requires Distinct(t)
    ensures Unique(Entries(t, d))
  {
  }

  lemma UnlinkDistinct(t: Table, p: nat, name: seq<byte>)
    requires TreeOk(t) && Distinct(t) && p < |t.nodes|
    ensures Distinct(Unlink(t, p, name).1)
  {
    hide TreeOk, Entries, Resolve, Unlink, Edited, Distinct, Unique, Dropped;
    TreeShape(t);
    UnlinkNames(t, p, name);
    DropDistinct(t, Unlink(t, p, name).1, p, name);
  }

  lemma RmDirDistinct(t: Table, p: nat, name: seq<byte>)
    requires TreeOk(t) && Distinct(t) && p < |t.nodes|
    ensures Distinct(RmDir(t, p, name).1)
  {
    hide TreeOk, Entries, Resolve, RmDir, Edited, Distinct, Unique, Dropped;
    TreeShape(t);
    RmDirNames(t, p, name);
    DropDistinct(t, RmDir(t, p, name).1, p, name);
  }

  lemma DropDistinct(t: Table, u: Table, p: nat, name: seq<byte>)
    requires Distinct(t) && (u == t || Edited(t, u, p, Dropped(Entries(t, p), name)))
    ensures Distinct(u)
  {
    hide Entries, Edited, Distinct, Unique, Dropped;
    if u != t {
      OneUnique(t, p);
      UniqueDropped(Entries(t, p), name);
      EditedDistinct(t, u, p, Dropped(Entries(t, p), name));
    }
  }

  /** Where the entry ends up: a directory without room sends it back. */
  function Lands(t: Table, p: nat, q: nat): nat {
    if q == p || HasRoom(t, q) then q else p
  }

  /** Renaming keeps the names distinct exactly when nothing is renamed or no other entry has the name it stores. */
  lemma RenameDistinct(t: Table, p: nat, name: seq<byte>, q: nat, newName: seq<byte>)
    requires TreeOk(t) && Distinct(t) && p < |t.nodes| && q < |t.nodes|
    ensures Distinct(Rename(t, p, name, q, newName).1) <==>
            (Resolve(Entries(t, p), name) != 0 ==> !Taken(Others(t, p, name, Lands(t, p, q)), Stored(newName)))
  {
    hide TreeOk, Entries, Resolve, Rename, Distinct, Unique, Dropped, Taken, Moved;
    TreeShape(t);
    RenameNames(t, p, name, q, newName);
    var i := Resolve(Entries(t, p), name);
    if i != 0 {
      MovedDistinct(t, Rename(t, p, name, q, newName).1, p, name, Lands(t, p, q), newName, i);
    }
  }

  lemma MovedDistinct(t: Table, u: Table, p: nat, name: seq<byte>, q: nat, newName: seq<byte>, i: nat)
    requires Distinct(t) && Moved(t, u, p, name, q, newName, i)
    ensures Distinct(u) <==> !Taken(Others(t, p, name, q), Stored(newName))
  {
    hide Entries, Unique, Dropped, Taken;
    var e := Named(Stored(newName), i);
    forall d: nat
      ensures Unique(Others(t, p, name, d))
      ensures d != q ==> Entries(u, d) == Others(t, p, name, d)
    {
      OneUnique(t, d);
      if d == p {
        UniqueDropped(Entries(t, p), name);
      }
      assert Others(t, p, name, d) + [] == Others(t, p, name, d);
    }
    assert Entries(u, q) == Others(t, p, name, q) + [e];
    UniqueSnoc(Others(t, p, name, q), e);
    if !Taken(Others(t, p, name, q), e.name) {
      forall d: nat
        ensures Unique(Entries(u, d))
      {
        assert Unique(Others(t, p, name, d));
      }
    }
  }

  lemma CloseDistinct(t: Table, i: nat)
    requires TreeOk(t) && Distinct(t) && i < |t.nodes| == |t.open| && Clean(t, i)
    ensures Distinct(Close(t, i))
  {
    hide TreeOk, Distinct, Listing;
    var u := Close(t, i);
    forall d: nat
      ensures Entries(u, d) == Entries(t, d) || Entries(u, d) == []
    {
      if d < |t.nodes| && u.nodes[d] == t.nodes[d] {
        ListingSame(t.nodes, u.nodes, t.nodes[d].children);
      }
    }
    SameDistinct(t, u);
  }

  // ----- Every run -----

  /** The operation stores no name that another entry of the directory has. */
  ghost predicate NewName(t: Table, op: Op) {
    && (op.OpMake? && op.p < |t.nodes| && Makes(t, op.p, op.name, op.dir) ==>
          !Taken(Entries(t, op.p), Stored(op.name)))
    && (op.OpRename? && op.p < |t.nodes| && op.q < |t.nodes| && Resolve(Entries(t, op.p), op.name) != 0 ==>
          !Taken(Others(t, op.p, op.name, Lands(t, op.p, op.q)), Stored(op.newName)))
  }

  lemma StepDistinct(t: Table, op: Op)
    requires TreeOk(t) && Distinct(t) && CleanOp(t, op)
    ensures Distinct(Do(t, op)) <==> NewName(t, op)
  {
    TreeShape(t);
    hide TreeOk, Make, Unlink, RmDir, Rename, Close, Clean, Distinct, Makes, Taken, Others, Entries, Resolve, Lands;
    match op
    case OpMake(p, name, mode, dir) => if p < |t.nodes| { MakeDistinct(t, p, name, mode, dir); }
    case OpUnlink(p, name) => if p < |t.nodes| { UnlinkDistinct(t, p, name); }
    case OpRmDir(p, name) => if p < |t.nodes| { RmDirDistinct(t, p, name); }
    case OpRename(p, name, q, newName) => if p < |t.nodes| && q < |t.nodes| { RenameDistinct(t, p, name, q, newName); }
    case OpOpen(_) => OpenDistinct(t, Do(t, op));
    case OpClose(i) => if i < |t.nodes| { CloseDistinct(t, i); }
  }

  lemma OpenDistinct(t: Table, u: Table)
    requires Distinct(t) && u.nodes == t.nodes
    ensures Distinct(u)
  {
    forall d: nat
      ensures Entries(u, d) == Entries(t, d)
    {
    }
    SameDistinct(t, u);
  }

  /** Over every run that stores only new names, no directory has two entries of one name. */
  lemma {:induction false} RunDistinct(ops: seq<Op>)
    requires AllClean(ops) && forall i :: 0 <= i < |ops| ==> NewName(Run(ops[..i]), ops[i])
    ensures Distinct(Run(ops))
    decreases |ops|
  {
    hide Distinct, Do, NewName, AllClean, TreeOk, FileLinks, CleanOp;
    if |ops| == 0 {
      InitDistinct();
    } else {
      var n := |ops| - 1;
      forall i | 0 <= i < n
        ensures NewName(Run(ops[..n][..i]), ops[..n][i])
      {
        assert ops[..n][..i] == ops[..i];
      }
      PrefixRuns(ops, n);
      RunDistinct(ops[..n]);
      RunKeeps(ops[..n]);
      StepDistinct(Run(ops[..n]), ops[n]);
    }
  }

  lemma InitDistinct()
    ensures Distinct(Init())
  {
    forall d: nat
      ensures Unique(Entries(Init(), d))
    {
      assert Entries(Init(), d) == [];
    }
  }
}
