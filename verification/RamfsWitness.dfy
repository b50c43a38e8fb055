/** Runs that show what ramfs does not guard against; each is one of the cases that the conditions of the theorems leave out. */
module RamfsWitness {
  import opened Words
  import opened NumberLists
  import opened Ramfs
  import opened RamfsTree
  import opened RamfsNames
  import opened RamfsLinks
  import opened RamfsRoot
  import opened RamfsDistinct
  import opened RamfsOpen

  lemma OneOp(op: Op)
    ensures Run([op]) == Do(Init(), op)
  {
    assert [op][..0] == [];
  }

  lemma TwoOps(a: Op, b: Op)
    ensures Run([a, b]) == Do(Do(Init(), a), b)
  {
    hide Do;
    assert [a, b][..1] == [a];
    OneOp(a);
  }

  lemma FirstFree()
    ensures FreeFrom(Init().nodes, 2) == 2
  {
    assert Init().nodes[2] == EMPTY;
  }

  /** A directory made in the root and then renamed into itself is cut off. */
  lemma MoveIntoItself()
    ensures var a: seq<byte> := [97];
            !Rooted(Run([OpMake(ROOT, a, 0, true), OpRename(ROOT, a, 2, a)]))
  {
    var a: seq<byte> := [97];
    TwoOps(OpMake(ROOT, a, 0, true), OpRename(ROOT, a, 2, a));
    var t := Make(Init(), ROOT, a, 0, true).1;
    InitOk();
    InitRooted();
    FirstFree();
    MakeKeeps(Init(), ROOT, a, 0, true);
    MakeRooted(Init(), ROOT, a, 0, true);
    assert Lookup(t, ROOT, a) == 2 && HasRoom(t, 2);
    assert Up(t, 2, 0) == 2;
    RenameRooted(t, ROOT, a, 2, a);
  }

  // ----- The same name twice -----

  /** The second of two creations stores the name again, unless it is a directory of a name that was stored whole. */
  lemma MadeTwice(name: seq<byte>, dir: bool)
    requires dir ==> |name| >= MAX_NAME
    ensures !Distinct(Run([OpMake(ROOT, name, 0, dir), OpMake(ROOT, name, 0, dir)]))
  {
    var op := OpMake(ROOT, name, 0, dir);
    TwoOps(op, op);
    var t := Make(Init(), ROOT, name, 0, dir).1;
    AfterOne(name, dir);
    MakeDistinct(t, ROOT, name, 0, dir);
  }

  lemma NoneTaken(name: seq<byte>)
    ensures !Taken([], name)
  {
  }

  lemma FirstMake(name: seq<byte>, dir: bool)
    requires dir ==> |name| >= MAX_NAME
    ensures Entries(Init(), ROOT) == []
    ensures var t := Make(Init(), ROOT, name, 0, dir).1;
            Makes(t, ROOT, name, dir) && Taken(Entries(t, ROOT), Stored(name))
  {
    var t := Make(Init(), ROOT, name, 0, dir).1;
    FirstFree();
    assert t.nodes[3] == EMPTY && t.nodes[ROOT].children == [2] && t.nodes[2].name == Stored(name);
    assert Entries(t, ROOT) == [Named(Stored(name), 2)];
    assert Entries(t, ROOT)[0].name == Stored(name);
    if dir {
      assert Stored(name) != name;
      assert Resolve(Entries(t, ROOT)[1..], name) == 0;
    }
  }

  lemma AfterOne(name: seq<byte>, dir: bool)
    requires dir ==> |name| >= MAX_NAME
    ensures var t := Make(Init(), ROOT, name, 0, dir).1;
            TreeOk(t) && Distinct(t) && Makes(t, ROOT, name, dir) && Taken(Entries(t, ROOT), Stored(name))
  {
    hide TreeOk, Distinct, Makes, Taken, Make, Init;
    InitOk();
    InitDistinct();
    var init := Init();
    TreeShape(init);
    MakeKeeps(init, ROOT, name, 0, dir);
    FirstMake(name, dir);
    NoneTaken(Stored(name));
    MakeDistinct(init, ROOT, name, 0, dir);
  }

  // ----- A directory released while the root lists it -----

  const A: seq<byte> := [97]
  const B: seq<byte> := [98]

  /** The root lists directory A, which is inode 2, empty, closed, and has k links. */
  predicate Alone(t: Table, k: nat) {
    && |t.nodes| == MAX_INODES == |t.open| && t.nodes[ROOT].kind == Dir && t.nodes[ROOT].children == [2]
    && t.nodes[2].kind == Dir && t.nodes[2].name == A && t.nodes[2].nlink == k && t.nodes[2].children == []
    && t.nodes[3].kind == Free && t.open[2] == 0
  }

  /** The same, with the empty directory B, which is inode 3, in directory d. */
  predicate WithB(t: Table, k: nat, d: nat) {
    && |t.nodes| == MAX_INODES == |t.open| && t.nodes[ROOT].kind == Dir
    && t.nodes[ROOT].children == (if d == ROOT then [2, 3] else [2])
    && t.nodes[2].kind == Dir && t.nodes[2].name == A && t.nodes[2].nlink == k
    && t.nodes[2].children == (if d == 2 then [3] else [])
    && t.nodes[3].kind == Dir && t.nodes[3].name == B && t.nodes[3].children == [] && t.open[2] == 0
  }

  lemma MakeB(t: Table, k: nat)
    requires Alone(t, k)
    ensures WithB(Do(t, OpMake(ROOT, B, 0, true)), k, ROOT)
  {
    assert A[0] != B[0];
    assert FindName(t.nodes, [2], B, 1) == 0;
    assert FreeFrom(t.nodes, 2) == FreeFrom(t.nodes, 3) == 3;
  }

  lemma MoveB(t: Table, k: nat)
    requires WithB(t, k, ROOT)
    ensures WithB(Do(t, OpRename(ROOT, B, 2, B)), k, 2)
  {
    assert A[0] != B[0];
    assert Lookup(t, ROOT, B) == FindName(t.nodes, [2, 3], B, 1) == 3;
    assert IndexIn([2, 3], 3, 0) == IndexIn([2, 3], 3, 1) == 1;
    assert Without([2, 3], 1) == [2];
  }

  lemma DropB(t: Table, k: nat)
    requires WithB(t, k, 2) && k > 0
    ensures Alone(Do(t, OpRmDir(2, B)), k - 1)
  {
    assert Lookup(t, 2, B) == 3;
    assert Without([3], 0) == [];
  }

  function LinkLess(ops: seq<Op>): seq<Op> {
    ops + [OpMake(ROOT, B, 0, true)] + [OpRename(ROOT, B, 2, B)] + [OpRmDir(2, B)]
  }

  /** Making B in the root, moving it to A and removing it there takes a link from A. */
  lemma LinkLost(ops: seq<Op>, k: nat)
    requires Alone(Run(ops), k) && k > 0
    ensures Alone(Run(LinkLess(ops)), k - 1)
  {
    hide Do, Alone, WithB;
    var a := ops + [OpMake(ROOT, B, 0, true)];
    var b := a + [OpRename(ROOT, B, 2, B)];
    RunSnoc(ops, OpMake(ROOT, B, 0, true));
    MakeB(Run(ops), k);
    RunSnoc(a, OpRename(ROOT, B, 2, B));
    MoveB(Run(a), k);
    RunSnoc(b, OpRmDir(2, B));
    DropB(Run(b), k);
  }

  lemma RunSnoc(ops: seq<Op>, op: Op)
    ensures Run(ops + [op]) == Do(Run(ops), op)
  {
    hide Do;
    assert (ops + [op])[..|ops|] == ops;
  }

  lemma MakeA()
    ensures Alone(Run([OpMake(ROOT, A, 0, true)]), 2)
  {
    OneOp(OpMake(ROOT, A, 0, true));
    FirstFree();
  }

  /** Two such rounds leave A without links, and the next open and close release it: the root lists a free inode. */
  lemma ReleasedListed()
    ensures var ops := LinkLess(LinkLess([OpMake(ROOT, A, 0, true)])) + [OpOpen(2)] + [OpClose(2)];
            var t := Run(ops);
            |t.nodes| == MAX_INODES && t.nodes[ROOT].children == [2] && t.nodes[2].kind == Free && !TreeOk(t)
  {
    var a := [OpMake(ROOT, A, 0, true)];
    var c := LinkLess(LinkLess(a));
    assert Alone(Run(c), 0) by {
      hide Do, Alone;
      MakeA();
      LinkLost(a, 2);
      LinkLost(LinkLess(a), 1);
    }
    RunSnoc(c, OpOpen(2));
    RunSnoc(c + [OpOpen(2)], OpClose(2));
    OpenClose(Run(c));
  }

  lemma OpenClose(t: Table)
    requires Alone(t, 0)
    ensures var u := Do(Do(t, OpOpen(2)), OpClose(2));
            !TreeOk(u) && |u.nodes| == MAX_INODES && u.nodes[ROOT].children == [2] && u.nodes[2].kind == Free
  {
    var u := Do(Do(t, OpOpen(2)), OpClose(2));
    assert 2 in u.nodes[ROOT].children && !ChildOk(u, ROOT, 2);
    assert !NodeOk(u, ROOT);
  }

  // ----- An open directory removed -----

  /** The inode that somebody has open is free, and then it is the file B. */
  predicate Reused(t: Table, count: nat) {
    && |t.nodes| == MAX_INODES == |t.open| && t.nodes[ROOT].kind == Dir && |t.nodes[ROOT].children| <= 1
    && t.open[2] == count
  }

  lemma OpenAndRemove(t: Table)
    requires Alone(t, 2)
    ensures var u := Do(Do(t, OpOpen(2)), OpRmDir(ROOT, A));
            Reused(u, 0) && u.nodes[2].kind == Free && u.nodes[ROOT].children == []
  {
    var u := Do(t, OpOpen(2));
    assert Lookup(u, ROOT, A) == 2;
    assert Without([2], 0) == [];
  }

  lemma MakeAndClose(t: Table)
    requires Reused(t, 0) && t.nodes[2].kind == Free && t.nodes[ROOT].children == []
    ensures var u := Do(Do(t, OpMake(ROOT, B, 0, false)), OpClose(2));
            Reused(u, TWO32 - 1) && u.nodes[2].kind == File && u.nodes[2].name == B
  {
    assert FreeFrom(t.nodes, 2) == 2;
  }

  /**
   * A directory is made, opened and removed, and its inode becomes a file; the close then counts for the file, which
   * nobody has open: its count wraps around.
   */
  lemma RemovedOpen()
    ensures var ops := [OpMake(ROOT, A, 0, true)] + [OpOpen(2)] + [OpRmDir(ROOT, A)];
            !Counted(Run(ops), RunFiles(ops))
    ensures var ops := [OpMake(ROOT, A, 0, true)] + [OpOpen(2)] + [OpRmDir(ROOT, A)] + [OpMake(ROOT, B, 0, false)] + [OpClose(2)];
            Reused(Run(ops), TWO32 - 1) && Run(ops).nodes[2].kind == File && RunFiles(ops)[2] == 0
  {
    hide Do, Alone;
    var a := [OpMake(ROOT, A, 0, true)];
    var b := a + [OpOpen(2)];
    var c := b + [OpRmDir(ROOT, A)];
    var d := c + [OpMake(ROOT, B, 0, false)];
    MakeA();
    RunSnoc(a, OpOpen(2));
    RunSnoc(b, OpRmDir(ROOT, A));
    OpenAndRemove(Run(a));
    FilesSnoc([], OpMake(ROOT, A, 0, true));
    assert [] + [OpMake(ROOT, A, 0, true)] == a;
    FilesSnoc(a, OpOpen(2));
    FilesSnoc(b, OpRmDir(ROOT, A));
    if Counted(Run(c), RunFiles(c)) {
      FreeAt(Run(c), RunFiles(c), 2);
    }
    RunSnoc(c, OpMake(ROOT, B, 0, false));
    RunSnoc(d, OpClose(2));
    MakeAndClose(Run(c));
    FilesSnoc(c, OpMake(ROOT, B, 0, false));
    FilesSnoc(d, OpClose(2));
  }

  lemma FilesSnoc(ops: seq<Op>, op: Op)
    ensures RunFiles(ops + [op]) == Files(RunFiles(ops), op)
  {
    assert (ops + [op])[..|ops|] == ops;
  }
}
