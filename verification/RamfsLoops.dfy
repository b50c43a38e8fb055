/** The ramfs primitives and operations as they work on the inode table in place (src/kernel/fs/ramfs.c, src/kernel/fs/ramfs_ops.c). */
module RamfsLoops {
  import opened Errno
  import opened Words
  import opened NumberLists
  import opened Ramfs
  import opened RamfsTree
  import opened RamfsNames
  import opened RamfsRelease

  /** The children behind position i move up by one, and the last slot is dropped. */
  method ShiftOut(children: seq<nat>, i: nat) returns (cs: seq<nat>)
    requires i < |children|
    ensures cs == Without(children, i)
  {
    cs := children;
    var j := i;
    while j < |children| - 1
      invariant i <= j <= |children| - 1 && |cs| == |children|
      invariant forall k :: 0 <= k < i ==> cs[k] == children[k]
      invariant forall k :: i <= k < j ==> cs[k] == children[k + 1]
      invariant forall k :: j <= k < |cs| ==> cs[k] == children[k]
    {
      cs := cs[j := cs[j + 1]];
      j := j + 1;
    }
    cs := cs[..|children| - 1];
  }

  class RamFs {
    var nodes: seq<Node>
    var open: seq<nat>

    /** ramfs_init. */
    constructor ()
      ensures Valid() && Now() == Init()
    {
      nodes, open := Init().nodes, Init().open;
      new;
      InitOk();
    }

    function Now(): Table
      reads this
    {
      Table(nodes, open)
    }

    ghost predicate Valid()
      reads this
    {
      TreeOk(Now())
    }

    /** ramfs_lookup_child. */
    method LookupChild(parent: nat, name: seq<byte>) returns (child: nat)
      requires Valid() && parent < MAX_INODES
      ensures child == Lookup(Now(), parent, name)
    {
      TreeShape(Now());
      var p := nodes[parent];
      if p.kind != Dir {
        return 0;
      }
      var i := 0;
      ChildrenBound(Now(), parent);
      while i < |p.children|
        invariant i <= |p.children| && FindName(nodes, p.children, name, 0) == FindName(nodes, p.children, name, i)
      {
        if nodes[p.children[i]].name == name {
          return p.children[i];
        }
        i := i + 1;
      }
      return 0;
    }

    /** ramfs_alloc_inode: the first free entry. */
    method AllocInode() returns (idx: nat)
      requires Valid()
      ensures idx == FreeFrom(nodes, 2)
    {
      TreeShape(Now());
      var i := 2;
      while i < MAX_INODES
        invariant 2 <= i <= MAX_INODES && FreeFrom(nodes, 2) == FreeFrom(nodes, i)
      {
        if nodes[i].kind == Free {
          return i;
        }
        i := i + 1;
      }
      return 0;
    }

    /** ramfs_remove_child: the children behind it move up by one. */
    method RemoveChild(parent: nat, child: nat) returns (rc: int)
      requires Valid() && parent < MAX_INODES
      modifies this
      ensures (rc, Now()) == Ramfs.RemoveChild(old(Now()), parent, child)
    {
      TreeShape(Now());
      var p := nodes[parent];
      if p.kind != Dir {
        return -ENOTDIR;
      }
      var i := 0;
      while i < |p.children|
        invariant i <= |p.children| && IndexIn(p.children, child, 0) == IndexIn(p.children, child, i)
        invariant nodes == old(nodes) && open == old(open)
      {
        if p.children[i] == child {
          var cs := ShiftOut(p.children, i);
          nodes := nodes[parent := p.(children := cs)];
          return 0;
        }
        i := i + 1;
      }
      return -ENOENT;
    }

    /**
     * ramfs_add_child: an inode that no directory lists becomes the last entry of its parent, and no other directory
     * changes, exactly when the parent is a directory with room; otherwise nothing does.
     */
    method AddChild(parent: nat, child: nat) returns (rc: int)
      requires |nodes| == MAX_INODES && parent < MAX_INODES && child < MAX_INODES
      modifies this
      ensures (rc, Now()) == Ramfs.AddChild(old(Now()), parent, child)
      ensures Unlisted(old(Now()), child) ==> Added(old(Now()), Now(), parent, child, rc)
      ensures Unlisted(old(Now()), child) && child >= 2 && old(nodes[child].kind != Free && Valid()) ==> Valid()
    {
      ghost var t := Now();
      if Unlisted(t, child) {
        AddNames(t, parent, child);
        if child >= 2 && nodes[child].kind != Free && Valid() {
          AddKeeps(t, parent, child);
        }
      }
      if nodes[parent].kind != Dir {
        return -ENOTDIR;
      }
      if |nodes[parent].children| >= MAX_CHILDREN {
        return -ENOSPC;
      }
      nodes := nodes[parent := nodes[parent].(children := nodes[parent].children + [child])];
      nodes := nodes[child := nodes[child].(parent := parent)];
      return 0;
    }

    /** ramfs_free_inode. */
    method FreeInode(idx: nat)
      requires |nodes| == MAX_INODES == |open| && idx < MAX_INODES
      modifies this
      ensures Now() == Ramfs.FreeInode(old(Now()), idx)
    {
      if idx == 0 {
        return;
      }
      nodes, open := nodes[idx := EMPTY], open[idx := 0];
    }

    /** ramfs_create_dir and ramfs_create_file. */
    method Create(parent: nat, name: seq<byte>, mode: nat, dir: bool) returns (rc: int)
      requires Valid() && parent < MAX_INODES
      modifies this
      ensures Valid() && (rc, Now()) == Make(old(Now()), parent, name, mode, dir)
    {
      hide TreeOk, Lookup, FreeFrom, Ramfs.AddChild, Ramfs.FreeInode;
      TreeShape(Now());
      MakeKeeps(Now(), parent, name, mode, dir);
      FreeFromFinds(nodes, 2);
      if nodes[parent].kind != Dir {
        return -ENOTDIR;
      }
      if dir {
        var there := LookupChild(parent, name);
        if there != 0 {
          return -EEXIST;
        }
      }
      var idx := AllocInode();
      if idx == 0 {
        return -ENOSPC;
      }
      nodes := nodes[idx := Node(if dir then Dir else File, Stored(name), mode % 512, if dir then 2 else 1, 0, [])];
      AddZero(Now(), parent, idx);
      rc := AddChild(parent, idx);
      if rc < 0 {
        FreeInode(idx);
        return;
      }
      if dir {
        nodes := nodes[parent := nodes[parent].(nlink := nodes[parent].nlink + 1)];
      }
    }

    /** ramfs_op_unlink. */
    method UnlinkFile(parent: nat, name: seq<byte>) returns (rc: int)
      requires Valid() && parent < MAX_INODES
      modifies this
      ensures Valid() && (rc, Now()) == Unlink(old(Now()), parent, name)
    {
      hide TreeOk, Lookup, Ramfs.RemoveChild, Ramfs.FreeInode;
      TreeShape(Now());
      UnlinkKeeps(Now(), parent, name);
      LookupOk(Now(), parent, name);
      var idx := LookupChild(parent, name);
      if idx == 0 {
        return -ENOENT;
      }
      if nodes[idx].kind == Dir {
        return -EISDIR;
      }
      var ignored := RemoveChild(parent, idx);
      if nodes[idx].nlink > 0 {
        nodes := nodes[idx := nodes[idx].(nlink := nodes[idx].nlink - 1)];
      } else {
        SameNode(nodes, idx);
      }
      if nodes[idx].nlink == 0 && open[idx] == 0 {
        FreeInode(idx);
      }
      return 0;
    }

    /** ramfs_op_rmdir. */
    method RemoveDir(parent: nat, name: seq<byte>) returns (rc: int)
      requires Valid() && parent < MAX_INODES
      modifies this
      ensures Valid() && (rc, Now()) == RmDir(old(Now()), parent, name)
    {
      hide TreeOk, Lookup, Ramfs.RemoveChild, Ramfs.FreeInode;
      TreeShape(Now());
      RmDirKeeps(Now(), parent, name);
      LookupOk(Now(), parent, name);
      var idx := LookupChild(parent, name);
      if idx == 0 {
        return -ENOENT;
      }
      if nodes[idx].kind != Dir {
        return -ENOTDIR;
      }
      if |nodes[idx].children| > 0 {
        return -ENOTEMPTY;
      }
      var ignored := RemoveChild(parent, idx);
      if nodes[parent].nlink > 0 {
        nodes := nodes[parent := nodes[parent].(nlink := nodes[parent].nlink - 1)];
      } else {
        SameNode(nodes, parent);
      }
      FreeInode(idx);
      return 0;
    }

    /** ramfs_op_rename. */
    method RenameEntry(oldParent: nat, oldName: seq<byte>, newParent: nat, newName: seq<byte>) returns (rc: int)
      requires Valid() && oldParent < MAX_INODES && newParent < MAX_INODES
      modifies this
      ensures Valid() && (rc, Now()) == Rename(old(Now()), oldParent, oldName, newParent, newName)
    {
      hide TreeOk, Lookup, Ramfs.RemoveChild, Ramfs.AddChild;
      TreeShape(Now());
      RenameKeeps(Now(), oldParent, oldName, newParent, newName);
      LookupOk(Now(), oldParent, oldName);
      var idx := LookupChild(oldParent, oldName);
      if idx == 0 {
        return -ENOENT;
      }
      RemoveKeeps(Now(), oldParent, idx);
      rc := RemoveChild(oldParent, idx);
      if rc < 0 {
        return;
      }
      nodes := nodes[idx := nodes[idx].(name := Stored(newName))];
      ghost var v := Now();
      rc := AddChild(newParent, idx);
      if rc < 0 {
        AddZero(v, newParent, idx);
        var ignored := AddChild(oldParent, idx);
        return;
      }
      AddZero(v, newParent, idx);
    }

    /** The last close of a descriptor; the child lists stay intact exactly when it releases no inode they mention. */
    method CloseInode(idx: nat)
      requires Valid() && idx < MAX_INODES
      modifies this
      ensures Now() == Close(old(Now()), idx) && (Valid() <==> Clean(old(Now()), idx))
    {
      hide TreeOk, Clean;
      TreeShape(Now());
      CloseKeeps(Now(), idx);
      open := open[idx := (open[idx] - 1) % TWO32];
      if open[idx] == 0 && nodes[idx].kind != Free && nodes[idx].nlink == 0 {
        FreeInode(idx);
      }
    }
  }

  lemma ChildrenBound(t: Table, d: nat)
    requires TreeOk(t) && d < |t.nodes|
    ensures forall i :: 0 <= i < |t.nodes[d].children| ==> t.nodes[d].children[i] < |t.nodes|
  {
    hide NoDup;
    assert NodeOk(t, d);
    forall i | 0 <= i < |t.nodes[d].children|
      ensures t.nodes[d].children[i] < |t.nodes|
    {
      assert t.nodes[d].children[i] in t.nodes[d].children;
      assert ChildOk(t, d, t.nodes[d].children[i]);
    }
  }

  lemma SameNode(nodes: seq<Node>, i: nat)
    requires i < |nodes| && nodes[i].nlink == 0
    ensures nodes[i := nodes[i].(nlink := 0)] == nodes
  {
  }
}
