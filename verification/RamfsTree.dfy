/** What every ramfs operation keeps (src/kernel/fs/ramfs.c:82-109, 211-266, src/kernel/fs/ramfs_ops.c:108-184). */
module RamfsTree {
  import opened Words
  import opened NumberLists
  import opened Ramfs

  // ----- Child lists -----

  lemma {:induction false} FindNameFinds(nodes: seq<Node>, children: seq<nat>, name: seq<byte>, i: nat)
    ensures var c := FindName(nodes, children, name, i); c == 0 || c in children
    decreases |children| - i
  {
    if i < |children| {
      FindNameFinds(nodes, children, name, i + 1);
    }
  }

  lemma LookupOk(t: Table, p: nat, name: seq<byte>)
    requires TreeOk(t) && p < |t.nodes|
    ensures var i := Lookup(t, p, name);
            i != 0 ==> t.nodes[p].kind == Dir && i in t.nodes[p].children && ChildOk(t, p, i)
  {
    hide NoDup, FindName;
    FindNameFinds(t.nodes, t.nodes[p].children, name, 0);
    assert NodeOk(t, p);
  }

  lemma {:induction false} FreeFromFinds(nodes: seq<Node>, i: nat)
    ensures var f := FreeFrom(nodes, i); f == 0 || (i <= f < |nodes| && nodes[f].kind == Free)
    decreases |nodes| - i
  {
    if i < |nodes| {
      FreeFromFinds(nodes, i + 1);
    }
  }

  /** A free inode is on no list and has no children. */
  lemma FreeUnlisted(t: Table, i: nat)
    requires TreeOk(t) && i < |t.nodes| && t.nodes[i].kind == Free
    ensures Unlisted(t, i) && t.nodes[i].children == [] && i != ROOT
  {
    hide NoDup;
    forall d | 0 <= d < |t.nodes|
      ensures i !in t.nodes[d].children
    {
      assert NodeOk(t, d);
      assert i in t.nodes[d].children ==> ChildOk(t, d, i);
    }
    assert NodeOk(t, i);
  }

  /** New contents for one inode that keep its children, and keep it a fit child of the same parent. */
  lemma RelabelKeeps(t: Table, i: nat, n: Node)
    requires TreeOk(t) && i < |t.nodes| && n.children == t.nodes[i].children
    requires (n.children != [] ==> n.kind == Dir) && (i == ROOT ==> n.kind == Dir)
    requires Unlisted(t, i) || (n.kind != Free && n.parent == t.nodes[i].parent)
    ensures TreeOk(SetNode(t, i, n)) && forall c: nat :: Unlisted(SetNode(t, i, n), c) <==> Unlisted(t, c)
  {
    hide NoDup;
    var r := SetNode(t, i, n);
    forall d | 0 <= d < |r.nodes|
      ensures NodeOk(r, d)
    {
      assert NodeOk(t, d);
      assert r.nodes[d].children == t.nodes[d].children;
      forall c | c in r.nodes[d].children
        ensures ChildOk(r, d, c)
      {
        assert ChildOk(t, d, c);
      }
    }
    forall c: nat
      ensures Unlisted(r, c) <==> Unlisted(t, c)
    {
      assert forall d :: 0 <= d < |t.nodes| ==> r.nodes[d].children == t.nodes[d].children;
    }
  }

  lemma NoDupSnoc(c: seq<nat>, x: nat)
    requires NoDup(c) && x !in c
    ensures NoDup(c + [x]) && forall y: nat :: y in c + [x] <==> y in c || y == x
  {
  }

  lemma AddKeeps(t: Table, p: nat, c: nat)
    requires TreeOk(t) && p < |t.nodes| && 2 <= c < |t.nodes| && t.nodes[c].kind != Free && Unlisted(t, c)
    ensures var (rc, r) := AddChild(t, p, c);
            && TreeOk(r) && (rc < 0 ==> r == t) && rc <= 0
            && (rc == 0 ==> c in r.nodes[p].children && t.nodes[p].kind == Dir && |t.nodes[p].children| < MAX_CHILDREN)
  {
    hide NoDup;
    var (rc, r) := AddChild(t, p, c);
    if rc == 0 {
      assert NodeOk(t, p);
      NoDupSnoc(t.nodes[p].children, c);
      forall d | 0 <= d < |r.nodes|
        ensures NodeOk(r, d)
      {
        assert NodeOk(t, d);
        assert r.nodes[d].children == if d == p then t.nodes[d].children + [c] else t.nodes[d].children;
        forall x | x in r.nodes[d].children
          ensures ChildOk(r, d, x)
        {
          assert x != c ==> ChildOk(t, d, x);
          assert x == c ==> d == p;
        }
      }
    }
  }

  lemma RemoveKeeps(t: Table, p: nat, c: nat)
    requires TreeOk(t) && p < |t.nodes| && c in t.nodes[p].children
    ensures var (rc, r) := RemoveChild(t, p, c);
            && rc == 0 && TreeOk(r) && Unlisted(r, c) && t.nodes[p].kind == Dir
            && exists j :: 0 <= j < |t.nodes[p].children| && t.nodes[p].children[j] == c
                           && r == SetNode(t, p, t.nodes[p].(children := Without(t.nodes[p].children, j)))
  {
    var (rc, r) := RemoveChild(t, p, c);
    assert NodeOk(t, p);
    var cs := t.nodes[p].children;
    var j := IndexIn(cs, c, 0);
    WithoutNoDup(cs, j);
    hide NoDup, Without;
    forall d | 0 <= d < |r.nodes|
      ensures NodeOk(r, d) && c !in r.nodes[d].children
    {
      assert NodeOk(t, d);
      forall x | x in r.nodes[d].children
        ensures ChildOk(r, d, x)
      {
        assert ChildOk(t, d, x);
      }
      if d != p && c in t.nodes[d].children {
        OneParent(t, d, p, c);
      }
    }
  }

  lemma FreeKeeps(t: Table, i: nat)
    requires TreeOk(t) && 2 <= i < |t.nodes| && Unlisted(t, i) && t.nodes[i].children == []
    ensures TreeOk(FreeInode(t, i))
  {
    RelabelKeeps(t, i, EMPTY);
    hide NodeOk;
    var r, s := FreeInode(t, i), SetNode(t, i, EMPTY);
    forall d | 0 <= d < |r.nodes|
      ensures NodeOk(r, d)
    {
      assert NodeOk(s, d);
      OpenIrrelevant(s, r, d);
    }
  }

  lemma OpenIrrelevant(s: Table, r: Table, d: nat)
    requires s.nodes == r.nodes && d < |s.nodes| && NodeOk(s, d)
    ensures NodeOk(r, d)
  {
    hide NoDup;
    forall c | c in r.nodes[d].children
      ensures ChildOk(r, d, c)
    {
      assert ChildOk(s, d, c);
    }
  }

  // ----- The operations keep the tree -----

  lemma MakeKeeps(t: Table, p: nat, name: seq<byte>, mode: nat, dir: bool)
    requires TreeOk(t) && p < |t.nodes|
    ensures TreeOk(Make(t, p, name, mode, dir).1)
  {
    hide TreeOk, Unlisted, Lookup, FreeFrom, AddChild, FreeInode;
    TreeShape(t);
    var i := FreeFrom(t.nodes, 2);
    FreeFromFinds(t.nodes, 2);
    if t.nodes[p].kind == Dir && !(dir && Lookup(t, p, name) != 0) && i != 0 {
      FreeUnlisted(t, i);
      var n := Node(if dir then Dir else File, Stored(name), mode % 512, if dir then 2 else 1, 0, []);
      var u := SetNode(t, i, n);
      RelabelKeeps(t, i, n);
      AddKeeps(u, p, i);
      var (rc, v) := AddChild(u, p, i);
      if rc < 0 {
        FreeKeeps(u, i);
      } else if dir {
        AddShape(u, p, i);
        TreeShape(v);
        RelabelKeeps(v, p, v.nodes[p].(nlink := v.nodes[p].nlink + 1));
      }
    }
  }

  lemma TreeShape(t: Table)
    requires TreeOk(t)
    ensures |t.nodes| == MAX_INODES == |t.open| && t.nodes[ROOT].kind == Dir
    ensures forall d :: 0 <= d < |t.nodes| && t.nodes[d].kind != Dir ==> t.nodes[d].children == []
  {
    hide NoDup;
    forall d | 0 <= d < |t.nodes| && t.nodes[d].kind != Dir
      ensures t.nodes[d].children == []
    {
      assert NodeOk(t, d);
    }
  }

  /** What adding a child leaves alone. */
  lemma AddShape(t: Table, p: nat, c: nat)
    requires p < |t.nodes| && c < |t.nodes|
    ensures var (rc, r) := AddChild(t, p, c);
            && (forall d :: 0 <= d < |t.nodes| ==> r.nodes[d].kind == t.nodes[d].kind && r.nodes[d].nlink == t.nodes[d].nlink)
            && (rc == 0 ==> forall d :: 0 <= d < |t.nodes| ==>
                  r.nodes[d].children == if d == p then t.nodes[d].children + [c] else t.nodes[d].children)
  {
  }

  lemma UnlinkKeeps(t: Table, p: nat, name: seq<byte>)
    requires TreeOk(t) && p < |t.nodes|
    ensures TreeOk(Unlink(t, p, name).1)
  {
    hide TreeOk, Unlisted, Lookup, RemoveChild, FreeInode;
    TreeShape(t);
    LookupOk(t, p, name);
    var i := Lookup(t, p, name);
    if i != 0 && t.nodes[i].kind != Dir {
      RemoveKeeps(t, p, i);
      RemoveShape(t, p, i);
      var u := RemoveChild(t, p, i).1;
      TreeShape(u);
      var n := u.nodes[i].(nlink := if u.nodes[i].nlink > 0 then u.nodes[i].nlink - 1 else 0);
      RelabelKeeps(u, i, n);
      var v := SetNode(u, i, n);
      if n.nlink == 0 && v.open[i] == 0 {
        FreeKeeps(v, i);
      }
    }
  }

  lemma RemoveShape(t: Table, p: nat, c: nat)
    requires p < |t.nodes|
    ensures var r := RemoveChild(t, p, c).1;
            forall d :: 0 <= d < |t.nodes| ==>
              && r.nodes[d].kind == t.nodes[d].kind && r.nodes[d].nlink == t.nodes[d].nlink && r.nodes[d].parent == t.nodes[d].parent
              && (d != p ==> r.nodes[d] == t.nodes[d])
  {
  }

  lemma RmDirKeeps(t: Table, p: nat, name: seq<byte>)
    requires TreeOk(t) && p < |t.nodes|
    ensures TreeOk(RmDir(t, p, name).1)
  {
    hide TreeOk, Unlisted, Lookup, RemoveChild, FreeInode;
    TreeShape(t);
    LookupOk(t, p, name);
    var i := Lookup(t, p, name);
    if i != 0 && t.nodes[i].kind == Dir && t.nodes[i].children == [] {
      assert i != p;
      RemoveKeeps(t, p, i);
      RemoveShape(t, p, i);
      var u := RemoveChild(t, p, i).1;
      TreeShape(u);
      var n := u.nodes[p].(nlink := if u.nodes[p].nlink > 0 then u.nodes[p].nlink - 1 else 0);
      RelabelKeeps(u, p, n);
      FreeKeeps(SetNode(u, p, n), i);
    }
  }

  lemma RenameKeeps(t: Table, p: nat, name: seq<byte>, q: nat, newName: seq<byte>)
    requires TreeOk(t) && p < |t.nodes| && q < |t.nodes|
    ensures TreeOk(Rename(t, p, name, q, newName).1)
  {
    hide TreeOk, Unlisted, Lookup, RemoveChild, AddChild;
    TreeShape(t);
    LookupOk(t, p, name);
    var i := Lookup(t, p, name);
    if i != 0 {
      RemoveKeeps(t, p, i);
      RemoveShape(t, p, i);
      var u := RemoveChild(t, p, i).1;
      TreeShape(u);
      var n := u.nodes[i].(name := Stored(newName));
      RelabelKeeps(u, i, n);
      var v := SetNode(u, i, n);
      AddKeeps(v, q, i);
      AddKeeps(v, p, i);
    }
  }
}
