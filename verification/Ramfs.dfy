/** The ramfs inode tree (src/kernel/fs/ramfs.c, src/kernel/fs/ramfs_ops.c): a table of inodes with child lists. */
module Ramfs {
  import opened Errno
  import opened Words
  import opened NumberLists

  const MAX_INODES: nat := 128
  const MAX_CHILDREN: nat := 64
  const MAX_NAME: nat := 64
  const ROOT: nat := 1

  datatype Kind = Free | File | Dir

  datatype Node = Node(kind: Kind, name: seq<byte>, mode: nat, nlink: nat, parent: nat, children: seq<nat>)

  /** A zeroed table entry. */
  const EMPTY: Node := Node(Free, [], 0, 0, 0, [])

  /** inode_table and inode_open_count. */
  datatype Table = Table(nodes: seq<Node>, open: seq<nat>)

  // ----- The primitives -----

  /** kstrncpy into a name field. */
  function Stored(name: seq<byte>): seq<byte> {
    if |name| < MAX_NAME then name else name[..MAX_NAME - 1]
  }

  /** The first of the children from i on with this name; 0 if none. */
  function FindName(nodes: seq<Node>, children: seq<nat>, name: seq<byte>, i: nat): nat
    decreases |children| - i
  {
    if i >= |children| then 0
    else if children[i] < |nodes| && nodes[children[i]].name == name then children[i]
    else FindName(nodes, children, name, i + 1)
  }

  /** ramfs_lookup_child. */
  function Lookup(t: Table, parent: nat, name: seq<byte>): nat {
    if parent < |t.nodes| && t.nodes[parent].kind == Dir then FindName(t.nodes, t.nodes[parent].children, name, 0) else 0
  }

  /** The first free inode from i on; 0 if none. */
  function FreeFrom(nodes: seq<Node>, i: nat): nat
    decreases |nodes| - i
  {
    if i >= |nodes| then 0 else if nodes[i].kind == Free then i else FreeFrom(nodes, i + 1)
  }

  function SetNode(t: Table, i: nat, n: Node): (r: Table)
    requires i < |t.nodes|
    ensures |r.nodes| == |t.nodes| && r.open == t.open
  {
    t.(nodes := t.nodes[i := n])
  }

  /** ramfs_free_inode. */
  function FreeInode(t: Table, i: nat): (r: Table)
    requires i < |t.nodes| == |t.open|
    ensures |r.nodes| == |t.nodes| == |r.open|
  {
    if i == 0 then t else Table(t.nodes[i := EMPTY], t.open[i := 0])
  }

  /** ramfs_add_child. */
  function AddChild(t: Table, p: nat, c: nat): (r: (int, Table))
    requires p < |t.nodes| && c < |t.nodes|
    ensures |r.1.nodes| == |t.nodes| && r.1.open == t.open
  {
    if t.nodes[p].kind != Dir then (-ENOTDIR, t)
    else if |t.nodes[p].children| >= MAX_CHILDREN then (-ENOSPC, t)
    else
      var u := SetNode(t, p, t.nodes[p].(children := t.nodes[p].children + [c]));
      (0, SetNode(u, c, u.nodes[c].(parent := p)))
  }

  function IndexIn(c: seq<nat>, x: nat, i: nat): (j: nat)
    requires i <= |c|
    ensures i <= j <= |c| && (j < |c| ==> c[j] == x) && (j == |c| ==> forall k :: i <= k < |c| ==> c[k] != x)
    decreases |c| - i
  {
    if i == |c| then i else if c[i] == x then i else IndexIn(c, x, i + 1)
  }

  /** ramfs_remove_child. */
  function RemoveChild(t: Table, p: nat, c: nat): (r: (int, Table))
    requires p < |t.nodes|
    ensures |r.1.nodes| == |t.nodes| && r.1.open == t.open
  {
    if t.nodes[p].kind != Dir then (-ENOTDIR, t)
    else
      var j := IndexIn(t.nodes[p].children, c, 0);
      if j == |t.nodes[p].children| then (-ENOENT, t)
      else (0, SetNode(t, p, t.nodes[p].(children := Without(t.nodes[p].children, j))))
  }

  // ----- The operations -----

  /** ramfs_create_dir and ramfs_create_file; only the first refuses a name that is taken. */
  function Make(t: Table, p: nat, name: seq<byte>, mode: nat, dir: bool): (r: (int, Table))
    requires p < |t.nodes| == |t.open|
    ensures |r.1.nodes| == |t.nodes| == |r.1.open|
  {
    if t.nodes[p].kind != Dir then (-ENOTDIR, t)
    else if dir && Lookup(t, p, name) != 0 then (-EEXIST, t)
    else
      var i := FreeFrom(t.nodes, 2);
      if i == 0 || i >= |t.nodes| then (-ENOSPC, t)
      else
        var u := SetNode(t, i, Node(if dir then Dir else File, Stored(name), mode % 512, if dir then 2 else 1, 0, []));
        var (rc, v) := AddChild(u, p, i);
        if rc < 0 then (rc, FreeInode(u, i))
        else if dir then (0, SetNode(v, p, v.nodes[p].(nlink := v.nodes[p].nlink + 1)))
        else (0, v)
  }

  /** ramfs_op_unlink. */
  function Unlink(t: Table, p: nat, name: seq<byte>): (r: (int, Table))
    requires p < |t.nodes| == |t.open|
    ensures |r.1.nodes| == |t.nodes| == |r.1.open|
  {
    var i := Lookup(t, p, name);
    if i == 0 || i >= |t.nodes| then (-ENOENT, t)
    else if t.nodes[i].kind == Dir then (-EISDIR, t)
    else
      var u := RemoveChild(t, p, i).1;
      var n := if u.nodes[i].nlink > 0 then u.nodes[i].nlink - 1 else 0;
      var v := SetNode(u, i, u.nodes[i].(nlink := n));
      (0, if n == 0 && v.open[i] == 0 then FreeInode(v, i) else v)
  }

  /** ramfs_op_rmdir. */
  function RmDir(t: Table, p: nat, name: seq<byte>): (r: (int, Table))
    requires p < |t.nodes| == |t.open|
    ensures |r.1.nodes| == |t.nodes| == |r.1.open|
  {
    var i := Lookup(t, p, name);
    if i == 0 || i >= |t.nodes| then (-ENOENT, t)
    else if t.nodes[i].kind != Dir then (-ENOTDIR, t)
    else if |t.nodes[i].children| > 0 then (-ENOTEMPTY, t)
    else
      var u := RemoveChild(t, p, i).1;
      var v := SetNode(u, p, u.nodes[p].(nlink := if u.nodes[p].nlink > 0 then u.nodes[p].nlink - 1 else 0));
      (0, FreeInode(v, i))
  }

  /** ramfs_op_rename: a failed move is put back, under the new name. */
  function Rename(t: Table, p: nat, name: seq<byte>, q: nat, newName: seq<byte>): (r: (int, Table))
    requires p < |t.nodes| == |t.open| && q < |t.nodes|
    ensures |r.1.nodes| == |t.nodes| == |r.1.open|
  {
    var i := Lookup(t, p, name);
    if i == 0 || i >= |t.nodes| then (-ENOENT, t)
    else
      var (rc, u) := RemoveChild(t, p, i);
      if rc < 0 then (rc, t)
      else
        var v := SetNode(u, i, u.nodes[i].(name := Stored(newName)));
        var (rc2, w) := AddChild(v, q, i);
        if rc2 < 0 then (rc2, AddChild(v, p, i).1) else (0, w)
  }

  /** ramfs_inc_open_count. */
  function Open(t: Table, i: nat): (r: Table)
    requires i < |t.open|
    ensures r.nodes == t.nodes && |r.open| == |t.open|
  {
    t.(open := t.open[i := (t.open[i] + 1) % TWO32])
  }

  /** The close makes the count zero, and the inode is in use and has no links. */
  predicate Releases(t: Table, i: nat)
    requires i < |t.nodes| == |t.open|
  {
    (t.open[i] - 1) % TWO32 == 0 && t.nodes[i].kind != Free && t.nodes[i].nlink == 0
  }

  /** What closing the last descriptor of an inode does: ramfs_dec_open_count, and ramfs_op_release if need be. */
  function Close(t: Table, i: nat): (r: Table)
    requires i < |t.nodes| == |t.open|
    ensures |r.nodes| == |t.nodes| == |r.open|
  {
    var u := t.(open := t.open[i := (t.open[i] - 1) % TWO32]);
    if Releases(t, i) then FreeInode(u, i) else u
  }

  // ----- The invariant -----

  /** The children of inode d: allocated, none of them the root, each naming d as its parent, none twice. */
  ghost predicate NodeOk(t: Table, d: nat)
    requires d < |t.nodes|
  {
    && (t.nodes[d].kind != Dir ==> t.nodes[d].children == [])
    && |t.nodes[d].children| <= MAX_CHILDREN && NoDup(t.nodes[d].children)
    && (forall c :: c in t.nodes[d].children ==> ChildOk(t, d, c))
  }

  predicate ChildOk(t: Table, d: nat, c: nat) {
    2 <= c < |t.nodes| && t.nodes[c].kind != Free && t.nodes[c].parent == d
  }

  ghost predicate TreeOk(t: Table) {
    && |t.nodes| == MAX_INODES == |t.open| && t.nodes[ROOT].kind == Dir
    && forall d :: 0 <= d < |t.nodes| ==> NodeOk(t, d)
  }

  /** No child list mentions c. */
  ghost predicate Unlisted(t: Table, c: nat) {
    forall d :: 0 <= d < |t.nodes| ==> c !in t.nodes[d].children
  }

  /** Each inode is in at most one child list. */
  lemma OneParent(t: Table, a: nat, b: nat, c: nat)
    requires TreeOk(t) && a < |t.nodes| && b < |t.nodes| && c in t.nodes[a].children && c in t.nodes[b].children
    ensures a == b
  {
    hide NoDup;
    assert NodeOk(t, a) && NodeOk(t, b);
    assert ChildOk(t, a, c) && ChildOk(t, b, c);
  }

  function Init(): Table {
    Table(seq(MAX_INODES, i => if i == ROOT then Node(Dir, [47], 493, 2, 0, []) else EMPTY), seq(MAX_INODES, _ => 0))
  }

  lemma InitOk()
    ensures TreeOk(Init()) && NlinkOk(Init())
  {
  }

  /** The number of directories among cs. */
  function Dirs(nodes: seq<Node>, cs: seq<nat>): nat {
    if |cs| == 0 then 0
    else Dirs(nodes, cs[..|cs| - 1]) + if cs[|cs| - 1] < |nodes| && nodes[cs[|cs| - 1]].kind == Dir then 1 else 0
  }

  /** Every directory has two links and one more for each subdirectory. */
  ghost predicate NlinkOk(t: Table) {
    forall d :: 0 <= d < |t.nodes| && t.nodes[d].kind == Dir ==> t.nodes[d].nlink == 2 + Dirs(t.nodes, t.nodes[d].children)
  }
}
