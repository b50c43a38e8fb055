/** What unlink, rmdir and rename do to the fields of the inodes, besides the lists that the names come from. */
module RamfsFields {
  import opened Words
  import opened Ramfs
  import opened RamfsTree

  /** Everything but the list of children. */
  function Rest(n: Node): Node {
    n.(children := [])
  }

  /** An inode that is free again: all of it is zero, and so is its count of open files. */
  ghost predicate Zeroed(u: Table, i: nat) {
    i < |u.nodes| == |u.open| && u.nodes[i] == Node(Free, [], 0, 0, 0, []) && u.open[i] == 0
  }

  /** Every inode but i and p is as it was, and so are the open counts but that of i. */
  ghost predicate Apart(t: Table, u: Table, i: nat, p: nat) {
    && |u.nodes| == |t.nodes| == |u.open| == |t.open|
    && (forall x :: 0 <= x < |t.nodes| && x != i && x != p ==> u.nodes[x] == t.nodes[x])
    && (forall x :: 0 <= x < |t.nodes| && x != i ==> u.open[x] == t.open[x])
  }

  /** A file that is unlinked has one link less, or is free again if that was the last one and nobody has it open. */
  lemma UnlinkFields(t: Table, p: nat, name: seq<byte>)
    requires TreeOk(t) && p < |t.nodes| && Unlink(t, p, name).0 == 0
    ensures var u, i := Unlink(t, p, name).1, Lookup(t, p, name);
            && i < |t.nodes| == |t.open| && i != p && Apart(t, u, i, p) && Rest(u.nodes[p]) == Rest(t.nodes[p])
            && if t.nodes[i].nlink <= 1 && t.open[i] == 0 then Zeroed(u, i)
               else u.nodes[i] == t.nodes[i].(nlink := Max(t.nodes[i].nlink - 1, 0)) && u.open[i] == t.open[i]
  {
    hide TreeOk, Lookup;
    TreeShape(t);
    LookupOk(t, p, name);
  }

  /** A directory that is removed is free again, and its parent has one link less. */
  lemma RmDirFields(t: Table, p: nat, name: seq<byte>)
    requires TreeOk(t) && p < |t.nodes| && RmDir(t, p, name).0 == 0
    ensures var u, i := RmDir(t, p, name).1, Lookup(t, p, name);
            && i < |t.nodes| == |t.open| && i != p && Apart(t, u, i, p) && Zeroed(u, i)
            && Rest(u.nodes[p]) == Rest(t.nodes[p]).(nlink := Max(t.nodes[p].nlink - 1, 0))
  {
    hide TreeOk, Lookup;
    TreeShape(t);
    LookupOk(t, p, name);
  }

  /** A rename changes the name of the inode, cut to 63 bytes, and its parent; of all others at most the lists. */
  lemma RenameFields(t: Table, p: nat, name: seq<byte>, q: nat, newName: seq<byte>)
    requires TreeOk(t) && p < |t.nodes| && q < |t.nodes| && Lookup(t, p, name) != 0
    ensures var (rc, u) := Rename(t, p, name, q, newName);
            var i := Lookup(t, p, name);
            && i < |t.nodes| == |u.nodes| && u.open == t.open
            && u.nodes[i].name <= newName && |u.nodes[i].name| == Min(|newName|, 63)
            && Rest(u.nodes[i]) == Rest(t.nodes[i]).(name := u.nodes[i].name, parent := if rc == 0 then q else p)
            && forall x :: 0 <= x < |t.nodes| && x != i ==> Rest(u.nodes[x]) == Rest(t.nodes[x])
  {
    hide TreeOk, Lookup;
    TreeShape(t);
    LookupOk(t, p, name);
    var i := Lookup(t, p, name);
    RemoveKeeps(t, p, i);
  }
}
