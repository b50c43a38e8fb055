/**
 * Which inodes are listed and which files have links (src/kernel/fs/ramfs.c:52-109, src/kernel/fs/ramfs_ops.c:108-209), and
 * when the release on the last close (src/kernel/fs/vfs_fd.c:221-241) takes an inode that is still in use.
 */
module RamfsRelease {
  import opened Words
  import opened NumberLists
  import opened Ramfs
  import opened RamfsTree

  /** Only inode i has another parent or another kind now. */
  ghost predicate OnlyAt(t: Table, u: Table, i: nat) {
    && |u.nodes| == |t.nodes|
    && (forall x :: 0 <= x < |t.nodes| && x != i ==> u.nodes[x].parent == t.nodes[x].parent && u.nodes[x].kind == t.nodes[x].kind)
  }

  // ----- What the primitives list -----

  lemma SameLists(t: Table, u: Table)
    requires |u.nodes| == |t.nodes| && forall d :: 0 <= d < |t.nodes| ==> u.nodes[d].children == t.nodes[d].children
    ensures forall x: nat :: Unlisted(u, x) <==> Unlisted(t, x)
  {
    forall x: nat
      ensures Unlisted(u, x) <==> Unlisted(t, x)
    {
      assert forall d :: 0 <= d < |t.nodes| ==> u.nodes[d].children == t.nodes[d].children;
    }
  }

  lemma AddLists(t: Table, p: nat, c: nat)
    requires p < |t.nodes| && c < |t.nodes| && AddChild(t, p, c).0 == 0
    ensures var u := AddChild(t, p, c).1;
            && (forall x: nat :: !Unlisted(u, x) <==> !Unlisted(t, x) || x == c)
            && OnlyAt(t, u, c) && u.nodes[c].parent == p && u.nodes[c].kind == t.nodes[c].kind
  {
    var u := AddChild(t, p, c).1;
    AddShape(t, p, c);
    assert c in u.nodes[p].children;
    forall x: nat
      ensures !Unlisted(u, x) <==> !Unlisted(t, x) || x == c
    {
      if !Unlisted(t, x) {
        var d :| 0 <= d < |t.nodes| && x in t.nodes[d].children;
        assert x in u.nodes[d].children;
      }
      if !Unlisted(u, x) {
        var d :| 0 <= d < |u.nodes| && x in u.nodes[d].children;
        assert x == c || x in t.nodes[d].children;
      }
    }
  }

  lemma RemoveLists(t: Table, p: nat, c: nat)
    requires TreeOk(t) && p < |t.nodes| && c in t.nodes[p].children
    ensures var u := RemoveChild(t, p, c).1;
            && (forall x: nat :: !Unlisted(u, x) <==> !Unlisted(t, x) && x != c)
            && |u.nodes| == |t.nodes|
            && forall x :: 0 <= x < |t.nodes| ==> u.nodes[x].parent == t.nodes[x].parent && u.nodes[x].kind == t.nodes[x].kind
  {
    var u := RemoveChild(t, p, c).1;
    RemoveKeeps(t, p, c);
    RemoveShape(t, p, c);
    assert NodeOk(t, p);
    var cs := t.nodes[p].children;
    var j :| 0 <= j < |cs| && cs[j] == c && u == SetNode(t, p, t.nodes[p].(children := Without(cs, j)));
    WithoutNoDup(cs, j);
    hide Without, NoDup, TreeOk, RemoveChild;
    forall x: nat
      ensures !Unlisted(u, x) <==> !Unlisted(t, x) && x != c
    {
      if !Unlisted(t, x) && x != c {
        var d :| 0 <= d < |t.nodes| && x in t.nodes[d].children;
        assert x in u.nodes[d].children;
      }
      if !Unlisted(u, x) {
        var d :| 0 <= d < |u.nodes| && x in u.nodes[d].children;
        assert x in t.nodes[d].children;
      }
    }
  }

  // ----- Files and their links -----

  /** Every listed file has a link. */
  ghost predicate FileLinks(t: Table) {
    forall c :: 0 <= c < |t.nodes| && t.nodes[c].kind == File && t.nodes[c].nlink == 0 ==> Unlisted(t, c)
  }

  /** Files without links stay so if x is the only one that may be new on a list or lose its links. */
  lemma FilesKept(t: Table, u: Table, x: nat)
    requires FileLinks(t) && |u.nodes| == |t.nodes|
    requires forall c: nat :: !Unlisted(u, c) && c != x ==> !Unlisted(t, c)
    requires forall c :: 0 <= c < |u.nodes| && c != x && u.nodes[c].kind == File ==>
                           t.nodes[c].kind == File && t.nodes[c].nlink == u.nodes[c].nlink
    requires x < |u.nodes| && u.nodes[x].kind == File && u.nodes[x].nlink == 0 ==> Unlisted(u, x)
    ensures FileLinks(u)
  {
    hide Unlisted;
  }

  lemma MakeFiles(t: Table, p: nat, name: seq<byte>, mode: nat, dir: bool)
    requires TreeOk(t) && FileLinks(t) && p < |t.nodes|
    ensures FileLinks(Make(t, p, name, mode, dir).1)
  {
    hide TreeOk, FileLinks, Unlisted, Lookup, FreeFrom, AddChild;
    TreeShape(t);
    FreeFromFinds(t.nodes, 2);
    var i := FreeFrom(t.nodes, 2);
    if t.nodes[p].kind == Dir && !(dir && Lookup(t, p, name) != 0) && i != 0 {
      FreeUnlisted(t, i);
      var n := Node(if dir then Dir else File, Stored(name), mode % 512, if dir then 2 else 1, 0, []);
      var u := SetNode(t, i, n);
      SameLists(t, u);
      var (rc, v) := AddChild(u, p, i);
      var r := Make(t, p, name, mode, dir).1;
      AddShape(u, p, i);
      if rc < 0 {
        SameLists(t, r);
      } else {
        AddZero(u, p, i);
        AddLists(u, p, i);
        SameLists(v, r);
      }
      FilesKept(t, r, i);
    }
  }

  lemma AddZero(t: Table, p: nat, c: nat)
    requires p < |t.nodes| && c < |t.nodes|
    ensures AddChild(t, p, c).0 <= 0 && (AddChild(t, p, c).0 < 0 ==> AddChild(t, p, c).1 == t)
  {
  }

  lemma UnlinkFiles(t: Table, p: nat, name: seq<byte>)
    requires TreeOk(t) && FileLinks(t) && p < |t.nodes|
    ensures FileLinks(Unlink(t, p, name).1)
  {
    hide TreeOk, FileLinks, Unlisted, Lookup, RemoveChild;
    TreeShape(t);
    LookupOk(t, p, name);
    var i := Lookup(t, p, name);
    if i != 0 && t.nodes[i].kind != Dir {
      RemoveLists(t, p, i);
      RemoveShape(t, p, i);
      var u, r := RemoveChild(t, p, i).1, Unlink(t, p, name).1;
      TreeShape(u) by { RemoveKeeps(t, p, i); }
      SameLists(u, r);
      FilesKept(t, r, i);
    }
  }

  lemma RmDirFiles(t: Table, p: nat, name: seq<byte>)
    requires TreeOk(t) && FileLinks(t) && p < |t.nodes|
    ensures FileLinks(RmDir(t, p, name).1)
  {
    hide TreeOk, FileLinks, Unlisted, Lookup, RemoveChild;
    TreeShape(t);
    LookupOk(t, p, name);
    var i := Lookup(t, p, name);
    if i != 0 && t.nodes[i].kind == Dir && t.nodes[i].children == [] {
      assert i != p;
      RemoveLists(t, p, i);
      RemoveShape(t, p, i);
      var u, r := RemoveChild(t, p, i).1, RmDir(t, p, name).1;
      SameLists(u, r);
      FilesKept(t, r, i);
    }
  }

  lemma RenameFiles(t: Table, p: nat, name: seq<byte>, q: nat, newName: seq<byte>)
    requires TreeOk(t) && FileLinks(t) && p < |t.nodes| && q < |t.nodes|
    ensures FileLinks(Rename(t, p, name, q, newName).1)
  {
    hide TreeOk, Unlisted, Lookup, RemoveChild, AddChild;
    TreeShape(t);
    LookupOk(t, p, name);
    var i := Lookup(t, p, name);
    if i != 0 {
      var u := RemoveChild(t, p, i).1;
      RemoveKeeps(t, p, i);
      RemoveLists(t, p, i);
      RemoveShape(t, p, i);
      var v := SetNode(u, i, u.nodes[i].(name := Stored(newName)));
      SameLists(u, v);
      Listed(t, p, i);
      AddFiles(t, v, q, i);
      AddFiles(t, v, p, i);
    }
  }

  lemma Listed(t: Table, p: nat, i: nat)
    requires p < |t.nodes| && i in t.nodes[p].children
    ensures !Unlisted(t, i)
  {
  }

  lemma AddFiles(t: Table, v: Table, q: nat, i: nat)
    requires FileLinks(t) && |v.nodes| == |t.nodes| && q < |v.nodes| && i < |v.nodes|
    requires forall c: nat :: !Unlisted(v, c) ==> !Unlisted(t, c)
    requires forall c :: 0 <= c < |v.nodes| ==> v.nodes[c].kind == t.nodes[c].kind && v.nodes[c].nlink == t.nodes[c].nlink
    requires t.nodes[i].kind == File ==> t.nodes[i].nlink > 0
    ensures FileLinks(AddChild(v, q, i).1)
  {
    hide FileLinks, Unlisted, AddChild;
    var (rc, w) := AddChild(v, q, i);
    AddZero(v, q, i);
    AddShape(v, q, i);
    if rc == 0 {
      AddLists(v, q, i);
    }
    FilesKept(t, w, i);
  }

  // ----- Closing -----

  /** No other directory lists inode i, and it is not the root. */
  ghost predicate Loose(t: Table, i: nat) {
    i != ROOT && forall d :: 0 <= d < |t.nodes| && d != i ==> i !in t.nodes[d].children
  }

  /** The close releases nothing that is still in the tree. */
  ghost predicate Clean(t: Table, i: nat)
    requires i < |t.nodes| == |t.open|
  {
    Releases(t, i) && i != 0 ==> Loose(t, i)
  }

  /** Closing keeps the child lists intact exactly when it releases no inode that they still mention. */
  lemma CloseKeeps(t: Table, i: nat)
    requires TreeOk(t) && i < |t.nodes| == |t.open|
    ensures TreeOk(Close(t, i)) <==> Clean(t, i)
  {
    var r := Close(t, i);
    if Clean(t, i) {
      forall d | 0 <= d < |r.nodes|
        ensures NodeOk(r, d)
      {
        assert NodeOk(t, d);
        forall c | c in r.nodes[d].children
          ensures ChildOk(r, d, c)
        {
          assert ChildOk(t, d, c);
        }
      }
    } else if i != ROOT {
      var d :| 0 <= d < |t.nodes| && d != i && i in t.nodes[d].children;
      assert r.nodes[d] == t.nodes[d] && !ChildOk(r, d, i);
      assert !NodeOk(r, d);
    }
  }

  lemma CloseFiles(t: Table, i: nat)
    requires TreeOk(t) && FileLinks(t) && i < |t.nodes| == |t.open|
    ensures FileLinks(Close(t, i))
  {
    var r := Close(t, i);
    forall c: nat | !Unlisted(r, c)
      ensures !Unlisted(t, c)
    {
      var d :| 0 <= d < |r.nodes| && c in r.nodes[d].children;
      assert c in t.nodes[d].children;
    }
    FilesKept(t, r, i);
  }

  /** With the link counts of the directories right, every close is clean. */
  lemma CleanWhile(t: Table, i: nat)
    requires TreeOk(t) && FileLinks(t) && NlinkOk(t) && i < |t.nodes| == |t.open|
    ensures Clean(t, i)
  {
    hide NodeOk, Dirs;
  }
}
