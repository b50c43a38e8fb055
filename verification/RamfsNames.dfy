/** What the ramfs operations mean for names: each edits the entries of the directories it is given, and of no other. */
module RamfsNames {
  import opened Errno
  import opened Words
  import opened NumberLists
  import opened Ramfs
  import opened RamfsTree

  datatype Named = Named(name: seq<byte>, ino: nat)

  function EntryOf(nodes: seq<Node>, c: nat): Named {
    Named(if c < |nodes| then nodes[c].name else [], c)
  }

  function Listing(nodes: seq<Node>, cs: seq<nat>): seq<Named> {
    seq(|cs|, i requires 0 <= i < |cs| => EntryOf(nodes, cs[i]))
  }

  /** The entries of directory d, in order; an inode that is no directory has none. */
  function Entries(t: Table, d: nat): seq<Named> {
    if d < |t.nodes| && t.nodes[d].kind == Dir then Listing(t.nodes, t.nodes[d].children) else []
  }

  /** The inode of the first entry with the name; 0 if none. */
  function Resolve(es: seq<Named>, name: seq<byte>): nat {
    if |es| == 0 then 0 else if es[0].name == name then es[0].ino else Resolve(es[1..], name)
  }

  /** The first entry with the name is taken out. */
  function Dropped(es: seq<Named>, name: seq<byte>): seq<Named> {
    if |es| == 0 then [] else if es[0].name == name then es[1..] else [es[0]] + Dropped(es[1..], name)
  }

  // ----- Lists of entries -----

  lemma {:induction false} FindIsResolve(nodes: seq<Node>, cs: seq<nat>, name: seq<byte>, i: nat)
    requires i <= |cs| && forall c :: c in cs ==> c < |nodes|
    ensures FindName(nodes, cs, name, i) == Resolve(Listing(nodes, cs)[i..], name)
    decreases |cs| - i
  {
    var es := Listing(nodes, cs);
    if i < |cs| {
      assert cs[i] in cs;
      assert es[i..][0] == es[i] && es[i..][1..] == es[i + 1..];
      FindIsResolve(nodes, cs, name, i + 1);
    }
  }

  /** ramfs_lookup_child finds the first entry with the name. */
  lemma LookupResolves(t: Table, d: nat, name: seq<byte>)
    requires TreeOk(t) && d < |t.nodes|
    ensures Lookup(t, d, name) == Resolve(Entries(t, d), name)
  {
    hide NoDup, FindName, Resolve, Listing;
    assert NodeOk(t, d);
    var cs := t.nodes[d].children;
    assert forall c :: c in cs ==> ChildOk(t, d, c);
    if t.nodes[d].kind == Dir {
      FindIsResolve(t.nodes, cs, name, 0);
      assert Listing(t.nodes, cs)[0..] == Listing(t.nodes, cs);
    } else {
      ResolveNone(name);
    }
  }

  lemma ResolveNone(name: seq<byte>)
    ensures Resolve([], name) == 0
  {
  }

  lemma {:induction false} ResolveAdded(es: seq<Named>, e: Named, name: seq<byte>)
    requires forall i :: 0 <= i < |es| ==> es[i].ino != 0
    ensures Resolve(es + [e], name) ==
            if Resolve(es, name) != 0 then Resolve(es, name) else if e.name == name then e.ino else 0
    decreases |es|
  {
    if |es| > 0 {
      assert (es + [e])[0] == es[0] && (es + [e])[1..] == es[1..] + [e];
      ResolveAdded(es[1..], e, name);
    } else {
      assert (es + [e])[1..] == [];
    }
  }

  lemma {:induction false} ResolveDropped(es: seq<Named>, gone: seq<byte>, name: seq<byte>)
    requires name != gone
    ensures Resolve(Dropped(es, gone), name) == Resolve(es, name)
    decreases |es|
  {
    if |es| > 0 && es[0].name != gone {
      var less := [es[0]] + Dropped(es[1..], gone);
      assert less[0] == es[0] && less[1..] == Dropped(es[1..], gone);
      ResolveDropped(es[1..], gone, name);
    }
  }

  lemma {:induction false} DroppedAt(es: seq<Named>, name: seq<byte>, j: nat)
    requires j < |es| && es[j].name == name && forall i :: 0 <= i < j ==> es[i].name != name
    ensures Dropped(es, name) == es[..j] + es[j + 1..]
    decreases |es|
  {
    if j > 0 {
      DroppedAt(es[1..], name, j - 1);
      assert es[1..][..j - 1] == es[1..j] && es[1..][j..] == es[j + 1..];
      assert [es[0]] + es[1..j] == es[..j];
    }
  }

  lemma {:induction false} FirstNamed(nodes: seq<Node>, cs: seq<nat>, name: seq<byte>, i: nat) returns (j: nat)
    requires FindName(nodes, cs, name, i) != 0
    ensures i <= j < |cs| && cs[j] == FindName(nodes, cs, name, i) && EntryOf(nodes, cs[j]).name == name
            && cs[j] < |nodes|
    ensures forall k :: i <= k < j ==> cs[k] >= |nodes| || nodes[cs[k]].name != name
    decreases |cs| - i
  {
    if cs[i] < |nodes| && nodes[cs[i]].name == name {
      j := i;
    } else {
      j := FirstNamed(nodes, cs, name, i + 1);
    }
  }

  // ----- The primitives -----

  /** The same names for the same children. */
  lemma ListingSame(a: seq<Node>, b: seq<Node>, cs: seq<nat>)
    requires |a| == |b| && forall c :: c in cs && c < |a| ==> a[c].name == b[c].name
    ensures Listing(a, cs) == Listing(b, cs)
  {
    forall i | 0 <= i < |cs|
      ensures EntryOf(a, cs[i]) == EntryOf(b, cs[i])
    {
      assert cs[i] in cs;
    }
  }

  /** Every directory has the same entries. */
  ghost predicate SameNames(t: Table, u: Table) {
    forall d: nat :: Entries(u, d) == Entries(t, d)
  }

  /** A change to inode i that keeps what its directory sees of it, and what it is a directory of. */
  lemma SetKeepsNames(t: Table, i: nat, n: Node)
    requires i < |t.nodes| && n.children == t.nodes[i].children
    requires n.kind == t.nodes[i].kind || n.children == []
    requires n.name == t.nodes[i].name || Unlisted(t, i)
    ensures SameNames(t, SetNode(t, i, n))
  {
    hide Listing;
    var u := SetNode(t, i, n);
    forall d: nat
      ensures Entries(u, d) == Entries(t, d)
    {
      if d < |t.nodes| {
        ListingSame(t.nodes, u.nodes, t.nodes[d].children);
        ListingNone(t.nodes);
        ListingNone(u.nodes);
      }
    }
  }

  lemma ListingNone(nodes: seq<Node>)
    ensures Listing(nodes, []) == []
  {
  }

  /** Freeing an inode that is on no list and has no children. */
  lemma FreeKeepsNames(t: Table, i: nat)
    requires 0 < i < |t.nodes| == |t.open| && Unlisted(t, i) && t.nodes[i].children == []
    ensures SameNames(t, FreeInode(t, i))
  {
    SetKeepsNames(t, i, EMPTY);
    var u, v := SetNode(t, i, EMPTY), FreeInode(t, i);
    assert forall d: nat :: Entries(v, d) == Entries(u, d);
  }

  /** p is a directory with room for one child more. */
  predicate HasRoom(t: Table, p: nat) {
    p < |t.nodes| && t.nodes[p].kind == Dir && |t.nodes[p].children| < MAX_CHILDREN
  }

  /** The inode c is the last entry of directory p now, if p had room; otherwise nothing changed. */
  ghost predicate Added(t: Table, u: Table, p: nat, c: nat, rc: int) {
    && (rc == 0 <==> HasRoom(t, p))
    && (rc != 0 ==> u == t && rc < 0)
    && (rc == 0 ==> Edited(t, u, p, Entries(t, p) + [EntryOf(t.nodes, c)]))
  }

  /** An unlisted child is added at the end of its parent's entries. */
  lemma AddNames(t: Table, p: nat, c: nat)
    requires p < |t.nodes| && c < |t.nodes| && Unlisted(t, c)
    ensures var (rc, u) := AddChild(t, p, c);
            Added(t, u, p, c, rc)
  {
    hide Listing;
    var (rc, u) := AddChild(t, p, c);
    if rc == 0 {
      forall d: nat | d < |t.nodes|
        ensures Entries(u, d) == if d == p then Entries(t, p) + [EntryOf(t.nodes, c)] else Entries(t, d)
      {
        var cs := t.nodes[d].children;
        ListingSame(t.nodes, u.nodes, cs);
        ListingSnoc(u.nodes, cs, c);
      }
    }
  }

  lemma ListingSnoc(nodes: seq<Node>, cs: seq<nat>, c: nat)
    ensures Listing(nodes, cs + [c]) == Listing(nodes, cs) + [EntryOf(nodes, c)]
  {
  }

  /** Directory p has the entries es now, and every other directory those it had. */
  ghost predicate Edited(t: Table, u: Table, p: nat, es: seq<Named>) {
    Entries(u, p) == es && forall d: nat :: d != p ==> Entries(u, d) == Entries(t, d)
  }

  /** The child that a name resolves to is removed: that entry goes. */
  lemma RemoveNames(t: Table, p: nat, name: seq<byte>)
    requires TreeOk(t) && p < |t.nodes| && Lookup(t, p, name) != 0
    ensures var (rc, u) := RemoveChild(t, p, Lookup(t, p, name));
            rc == 0 && Edited(t, u, p, Dropped(Entries(t, p), name))
  {
    assert NodeOk(t, p);
    var cs := t.nodes[p].children;
    var c := Lookup(t, p, name);
    var u := RemoveChild(t, p, c).1;
    var j := FirstNamed(t.nodes, cs, name, 0);
    var k := IndexIn(cs, c, 0);
    assert k == j;
    forall i | 0 <= i < j
      ensures cs[i] < |t.nodes|
    {
      assert cs[i] in cs;
      assert ChildOk(t, p, cs[i]);
    }
    DroppedListing(t.nodes, cs, name, j);
    hide Listing, Dropped, Lookup;
    forall d: nat | d < |t.nodes|
      ensures Entries(u, d) == if d == p then Dropped(Entries(t, p), name) else Entries(t, d)
    {
      ListingSame(t.nodes, u.nodes, u.nodes[d].children);
    }
  }

  lemma DroppedListing(nodes: seq<Node>, cs: seq<nat>, name: seq<byte>, j: nat)
    requires j < |cs| && cs[j] < |nodes| && nodes[cs[j]].name == name
    requires forall k :: 0 <= k < j ==> cs[k] < |nodes| && nodes[cs[k]].name != name
    ensures Dropped(Listing(nodes, cs), name) == Listing(nodes, Without(cs, j))
  {
    DroppedAt(Listing(nodes, cs), name, j);
  }

  // ----- The operations -----

  lemma SameItself(t: Table)
    ensures SameNames(t, t)
  {
  }

  lemma SameTwice(t: Table, u: Table, v: Table)
    requires SameNames(t, u) && SameNames(u, v)
    ensures SameNames(t, v)
  {
    hide Entries;
  }

  lemma EditedThen(t: Table, u: Table, v: Table, p: nat, es: seq<Named>)
    requires (SameNames(t, u) && Edited(u, v, p, es)) || (Edited(t, u, p, es) && SameNames(u, v))
    ensures Edited(t, v, p, es)
  {
    hide Entries;
  }

  lemma SameEntries(t: Table, u: Table, d: nat)
    requires SameNames(t, u)
    ensures Entries(u, d) == Entries(t, d)
  {
  }

  /** Some inode is free. */
  predicate HasFree(t: Table) {
    exists i :: 2 <= i < |t.nodes| && t.nodes[i].kind == Free
  }

  lemma {:induction false} FreeFromMisses(nodes: seq<Node>, i: nat, k: nat)
    requires FreeFrom(nodes, i) == 0 && 0 < i <= k < |nodes|
    ensures nodes[k].kind != Free
    decreases |nodes| - i
  {
    if i < k {
      FreeFromMisses(nodes, i + 1, k);
    }
  }

  lemma FreeFromIff(t: Table)
    ensures FreeFrom(t.nodes, 2) != 0 <==> HasFree(t)
  {
    hide FreeFrom;
    FreeFromFinds(t.nodes, 2);
    if FreeFrom(t.nodes, 2) == 0 && HasFree(t) {
      var k :| 2 <= k < |t.nodes| && t.nodes[k].kind == Free;
      FreeFromMisses(t.nodes, 2, k);
    }
  }

  /** Inode i, which was free, is now an empty file or directory, and the last entry of p. */
  ghost predicate MadeAs(t: Table, u: Table, p: nat, name: seq<byte>, dir: bool, i: nat) {
    && i < |t.nodes| == |u.nodes| && t.nodes[i].kind == Free && u.nodes[i].kind == (if dir then Dir else File)
    && u.nodes[i].children == [] && Edited(t, u, p, Entries(t, p) + [Named(Stored(name), i)])
  }

  /**
   * Creating succeeds exactly if the parent has room and an inode is free, and, for a directory, if the name is not
   * taken. It then adds one entry, for an inode that was free; a failure changes no entry.
   */
  lemma MakeNames(t: Table, p: nat, name: seq<byte>, mode: nat, dir: bool)
    requires TreeOk(t) && p < |t.nodes|
    ensures var (rc, u) := Make(t, p, name, mode, dir);
            && (rc == 0 <==> HasRoom(t, p) && HasFree(t) && !(dir && Resolve(Entries(t, p), name) != 0))
            && (rc != 0 ==> SameNames(t, u))
            && (rc == 0 ==> exists i :: MadeAs(t, u, p, name, dir, i) && MadeWith(t, u, p, name, mode, dir, i))
  {
    hide TreeOk, Unlisted, Lookup, FreeFrom, AddChild, FreeInode, Entries, Resolve, SameNames, Edited, HasFree, MadeAs,
         MadeWith;
    TreeShape(t);
    LookupResolves(t, p, name);
    SameItself(t);
    FreeFromFinds(t.nodes, 2);
    FreeFromIff(t);
    var i := FreeFrom(t.nodes, 2);
    if t.nodes[p].kind == Dir && !(dir && Lookup(t, p, name) != 0) && i != 0 {
      FreeUnlisted(t, i);
      MakeAdds(t, p, name, mode, dir, i);
      if Make(t, p, name, mode, dir).0 == 0 {
        MakeFields(t, p, name, mode, dir, i);
      }
    }
  }

  /** The fields of a new inode; of the parent only the list and the links change, and of all others nothing. */
  ghost predicate MadeWith(t: Table, u: Table, p: nat, name: seq<byte>, mode: nat, dir: bool, i: nat) {
    && p < |t.nodes| == |u.nodes| && i < |t.nodes| && i != p && u.open == t.open
    && u.nodes[i].name <= name && |u.nodes[i].name| == Min(|name|, 63)
    && u.nodes[i].mode == mode % 512 && u.nodes[i].nlink == (if dir then 2 else 1) && u.nodes[i].parent == p
    && u.nodes[p] == t.nodes[p].(children := t.nodes[p].children + [i], nlink := t.nodes[p].nlink + if dir then 1 else 0)
    && forall x :: 0 <= x < |t.nodes| && x != i && x != p ==> u.nodes[x] == t.nodes[x]
  }

  lemma MakeFields(t: Table, p: nat, name: seq<byte>, mode: nat, dir: bool, i: nat)
    requires p < |t.nodes| == |t.open| && i == FreeFrom(t.nodes, 2) != 0 && i < |t.nodes| && t.nodes[i].kind == Free
    requires Make(t, p, name, mode, dir).0 == 0
    ensures MadeWith(t, Make(t, p, name, mode, dir).1, p, name, mode, dir, i)
  {
    hide FreeFrom, Lookup;
  }

  /** The table at boot: one inode in use, a directory of mode 0755 with two links. */
  lemma InitTable()
    ensures var t := Init();
            && t.nodes[1].kind == Dir && t.nodes[1].name == [47] && t.nodes[1].mode == 0x1ED && t.nodes[1].nlink == 2
            && t.nodes[1].children == []
            && forall x :: 0 <= x < 128 ==> t.open[x] == 0 && (x != 1 ==> t.nodes[x].kind == Free)
  {
  }

  lemma MakeAdds(t: Table, p: nat, name: seq<byte>, mode: nat, dir: bool, i: nat)
    requires p < |t.nodes| == |t.open| && t.nodes[p].kind == Dir && !(dir && Lookup(t, p, name) != 0)
    requires i == FreeFrom(t.nodes, 2) && 0 < i < |t.nodes| && t.nodes[i].kind == Free && Unlisted(t, i)
             && t.nodes[i].children == []
    ensures var (rc, u) := Make(t, p, name, mode, dir);
            && (rc == 0 <==> HasRoom(t, p)) && (rc != 0 ==> SameNames(t, u))
            && (rc == 0 ==> MadeAs(t, u, p, name, dir, i))
  {
    hide Unlisted, Lookup, FreeFrom, FreeInode, Entries, SameNames, Edited, AddChild;
    var n := Node(if dir then Dir else File, Stored(name), mode % 512, if dir then 2 else 1, 0, []);
    var u := SetNode(t, i, n);
    SetKeepsNames(t, i, n);
    StillUnlisted(t, i, n);
    AddNames(u, p, i);
    AddShape(u, p, i);
    SameEntries(t, u, p);
    var (rc, v) := AddChild(u, p, i);
    var r := Make(t, p, name, mode, dir).1;
    if rc < 0 {
      FreeKeepsNames(u, i);
      SameTwice(t, u, r);
    } else {
      var es := Entries(t, p) + [Named(Stored(name), i)];
      EditedThen(t, u, v, p, es);
      if dir {
        SetKeepsNames(v, p, v.nodes[p].(nlink := v.nodes[p].nlink + 1));
        EditedThen(t, v, r, p, es);
      }
    }
  }

  lemma StillUnlisted(t: Table, i: nat, n: Node)
    requires i < |t.nodes| && n.children == t.nodes[i].children && Unlisted(t, i)
    ensures Unlisted(SetNode(t, i, n), i)
  {
    var u := SetNode(t, i, n);
    forall d | 0 <= d < |u.nodes|
      ensures i !in u.nodes[d].children
    {
      assert u.nodes[d].children == t.nodes[d].children;
    }
  }

  /**
   * Unlinking succeeds exactly if the name is that of a file, and then takes out that entry; the inode is freed exactly
   * if this was its last link and nobody has it open. A failure changes nothing.
   */
  lemma UnlinkNames(t: Table, p: nat, name: seq<byte>)
    requires TreeOk(t) && p < |t.nodes|
    ensures var (rc, u) := Unlink(t, p, name);
            var i := Resolve(Entries(t, p), name);
            && (rc == 0 <==> i != 0 && i < |t.nodes| && t.nodes[i].kind == File)
            && (rc != 0 ==> u == t)
            && (rc == 0 ==> Edited(t, u, p, Dropped(Entries(t, p), name)))
            && (rc == 0 ==> (u.nodes[i].kind == Free <==> t.nodes[i].nlink <= 1 && t.open[i] == 0))
  {
    hide TreeOk, Unlisted, Lookup, RemoveChild, Entries, Resolve, Dropped, SameNames, Edited;
    TreeShape(t);
    LookupOk(t, p, name);
    LookupResolves(t, p, name);
    var i := Lookup(t, p, name);
    if i != 0 && t.nodes[i].kind != Dir {
      RemoveNames(t, p, name);
      RemoveKeeps(t, p, i);
      RemoveShape(t, p, i);
      var u := RemoveChild(t, p, i).1;
      TreeShape(u);
      var n := u.nodes[i].(nlink := if u.nodes[i].nlink > 0 then u.nodes[i].nlink - 1 else 0);
      var v := SetNode(u, i, n);
      SetKeepsNames(u, i, n);
      StillUnlisted(u, i, n);
      var es := Dropped(Entries(t, p), name);
      EditedThen(t, u, v, p, es);
      if n.nlink == 0 && v.open[i] == 0 {
        FreeKeepsNames(v, i);
        EditedThen(t, v, FreeInode(v, i), p, es);
      }
    }
  }

  /** Removing succeeds exactly if the name is that of an empty directory, and then takes out that entry. */
  lemma RmDirNames(t: Table, p: nat, name: seq<byte>)
    requires TreeOk(t) && p < |t.nodes|
    ensures var (rc, u) := RmDir(t, p, name);
            var i := Resolve(Entries(t, p), name);
            && (rc == 0 <==> i != 0 && i < |t.nodes| && t.nodes[i].kind == Dir && Entries(t, i) == [])
            && (rc != 0 ==> u == t)
            && (rc == 0 ==> Edited(t, u, p, Dropped(Entries(t, p), name)) && u.nodes[i].kind == Free)
  {
    hide TreeOk, Unlisted, Lookup, RemoveChild, Entries, Resolve, Dropped, SameNames, Edited;
    TreeShape(t);
    LookupOk(t, p, name);
    LookupResolves(t, p, name);
    var i := Lookup(t, p, name);
    if i != 0 && t.nodes[i].kind == Dir {
      EmptyEntries(t, i);
    }
    if i != 0 && t.nodes[i].kind == Dir && t.nodes[i].children == [] {
      assert i != p;
      RemoveNames(t, p, name);
      RemoveKeeps(t, p, i);
      RemoveShape(t, p, i);
      var u := RemoveChild(t, p, i).1;
      var n := u.nodes[p].(nlink := if u.nodes[p].nlink > 0 then u.nodes[p].nlink - 1 else 0);
      var v := SetNode(u, p, n);
      SetKeepsNames(u, p, n);
      UnlistedElsewhere(u, p, n, i);
      var es := Dropped(Entries(t, p), name);
      EditedThen(t, u, v, p, es);
      FreeKeepsNames(v, i);
      EditedThen(t, v, FreeInode(v, i), p, es);
    }
  }

  lemma EmptyEntries(t: Table, d: nat)
    requires d < |t.nodes| && t.nodes[d].kind == Dir
    ensures Entries(t, d) == [] <==> t.nodes[d].children == []
  {
    assert |Entries(t, d)| == |t.nodes[d].children|;
  }

  lemma UnlistedElsewhere(t: Table, p: nat, n: Node, i: nat)
    requires p < |t.nodes| && n.children == t.nodes[p].children && Unlisted(t, i)
    ensures Unlisted(SetNode(t, p, n), i)
  {
    var u := SetNode(t, p, n);
    forall d | 0 <= d < |u.nodes|
      ensures i !in u.nodes[d].children
    {
      assert u.nodes[d].children == t.nodes[d].children;
    }
  }

  /** Inode i leaves directory p, where name led to it, and becomes the last entry of q under another name. */
  ghost predicate Moved(t: Table, u: Table, p: nat, name: seq<byte>, q: nat, newName: seq<byte>, i: nat) {
    forall d: nat ::
      Entries(u, d) == (if d == p then Dropped(Entries(t, p), name) else Entries(t, d))
                       + if d == q then [Named(Stored(newName), i)] else []
  }

  /**
   * Renaming: an unknown name changes nothing. Otherwise the entry moves to q, or, if q cannot take it, to the end of
   * its own directory, but under the new name all the same.
   */
  lemma RenameNames(t: Table, p: nat, name: seq<byte>, q: nat, newName: seq<byte>)
    requires TreeOk(t) && p < |t.nodes| && q < |t.nodes|
    ensures var (rc, u) := Rename(t, p, name, q, newName);
            var i := Resolve(Entries(t, p), name);
            && (i == 0 ==> rc == -ENOENT && u == t)
            && (i != 0 ==> (rc == 0 <==> q == p || HasRoom(t, q)) && Moved(t, u, p, name, if rc == 0 then q else p, newName, i))
  {
    hide TreeOk, Unlisted, Lookup, RemoveChild, AddChild, Entries, Resolve, Dropped, SameNames, Edited, Moved;
    TreeShape(t);
    LookupOk(t, p, name);
    LookupResolves(t, p, name);
    var i := Lookup(t, p, name);
    if i != 0 {
      RemoveNames(t, p, name);
      RemoveKeeps(t, p, i);
      RemoveRoom(t, p, i, q);
      var u := RemoveChild(t, p, i).1;
      var n := u.nodes[i].(name := Stored(newName));
      var v := SetNode(u, i, n);
      SetKeepsNames(u, i, n);
      StillUnlisted(u, i, n);
      var es := Dropped(Entries(t, p), name);
      EditedThen(t, u, v, p, es);
      AddNames(v, q, i);
      AddNames(v, p, i);
      var w := Rename(t, p, name, q, newName).1;
      MovedBy(t, v, w, p, name, if AddChild(v, q, i).0 == 0 then q else p, newName, i);
    }
  }

  lemma MovedBy(t: Table, v: Table, w: Table, p: nat, name: seq<byte>, q: nat, newName: seq<byte>, i: nat)
    requires Edited(t, v, p, Dropped(Entries(t, p), name))
             && Edited(v, w, q, Entries(v, q) + [Named(Stored(newName), i)])
    ensures Moved(t, w, p, name, q, newName, i)
  {
    hide Entries, Dropped;
    forall d: nat
      ensures Entries(w, d) == (if d == p then Dropped(Entries(t, p), name) else Entries(t, d))
                               + if d == q then [Named(Stored(newName), i)] else []
    {
      assert Entries(v, d) + [] == Entries(v, d);
    }
  }

  /** Once a child is gone its directory has room; that of the others is as it was. */
  lemma RemoveRoom(t: Table, p: nat, c: nat, q: nat)
    requires TreeOk(t) && p < |t.nodes| && q < |t.nodes| && c in t.nodes[p].children
    ensures var u := RemoveChild(t, p, c).1; HasRoom(u, p) && (HasRoom(u, q) <==> q == p || HasRoom(t, q))
  {
    hide NoDup;
    assert NodeOk(t, p);
    var j := IndexIn(t.nodes[p].children, c, 0);
    assert |Without(t.nodes[p].children, j)| == |t.nodes[p].children| - 1;
  }

  lemma EntryInos(t: Table, d: nat, k: nat)
    requires TreeOk(t) && d < |t.nodes| && k < |Entries(t, d)|
    ensures Entries(t, d)[k].ino in t.nodes[d].children && Entries(t, d)[k].ino != 0
  {
    hide NoDup;
    assert NodeOk(t, d);
    assert Entries(t, d)[k].ino == t.nodes[d].children[k];
    assert ChildOk(t, d, t.nodes[d].children[k]);
  }

  lemma {:induction false} ResolveIn(es: seq<Named>, name: seq<byte>) returns (k: nat)
    requires Resolve(es, name) != 0
    ensures k < |es| && es[k].ino == Resolve(es, name)
    decreases |es|
  {
    if es[0].name == name {
      k := 0;
    } else {
      k := ResolveIn(es[1..], name);
      k := k + 1;
    }
  }

  /** The entries of q besides the one that is about to be renamed. */
  ghost function Others(t: Table, p: nat, name: seq<byte>, q: nat): seq<Named> {
    if q == p then Dropped(Entries(t, p), name) else Entries(t, q)
  }

  lemma OthersDiffer(t: Table, p: nat, name: seq<byte>, q: nat, k: nat)
    requires TreeOk(t) && p < |t.nodes| && q < |t.nodes| && Lookup(t, p, name) != 0 && k < |Others(t, p, name, q)|
    ensures Others(t, p, name, q)[k].ino != Lookup(t, p, name) && Others(t, p, name, q)[k].ino != 0
  {
    hide TreeOk, Lookup, RemoveChild, Entries, Dropped;
    var i := Lookup(t, p, name);
    LookupOk(t, p, name);
    RemoveNames(t, p, name);
    RemoveKeeps(t, p, i);
    var u := RemoveChild(t, p, i).1;
    assert Entries(u, q) == Others(t, p, name, q);
    EntryInos(u, q, k);
  }

  lemma NewNameResolves(t: Table, p: nat, name: seq<byte>, q: nat, x: seq<byte>)
    requires TreeOk(t) && p < |t.nodes| && q < |t.nodes| && Lookup(t, p, name) != 0
    ensures var i := Lookup(t, p, name);
            var es := Others(t, p, name, q);
            Resolve(es + [Named(x, i)], x) == i <==> Resolve(es, x) == 0
  {
    hide TreeOk, Lookup, Others, Resolve;
    var i, es := Lookup(t, p, name), Others(t, p, name, q);
    forall k | 0 <= k < |es|
      ensures es[k].ino != 0 && es[k].ino != i
    {
      OthersDiffer(t, p, name, q, k);
    }
    ResolveAdded(es, Named(x, i), x);
    if Resolve(es, x) != 0 {
      var k := ResolveIn(es, x);
    }
  }

  lemma OtherNameResolves(t: Table, p: nat, name: seq<byte>, q: nat, newName: seq<byte>, d: nat, x: seq<byte>)
    requires TreeOk(t) && p < |t.nodes| && d < |t.nodes| && Lookup(t, p, name) != 0
    requires !(d == p && x == name) && !(d == q && x == newName)
    ensures var es := Others(t, p, name, d) + if d == q then [Named(newName, Lookup(t, p, name))] else [];
            Resolve(es, x) == Resolve(Entries(t, d), x)
  {
    hide TreeOk, Lookup, Resolve, Entries, Dropped;
    var es := Others(t, p, name, d);
    if d == p {
      ResolveDropped(Entries(t, p), name, x);
    }
    forall k | 0 <= k < |es|
      ensures es[k].ino != 0
    {
      OthersDiffer(t, p, name, d, k);
    }
    ResolveAdded(es, Named(newName, Lookup(t, p, name)), x);
    assert es + [] == es;
  }

  /**
   * After a rename that succeeded the new name leads to the moved inode if and only if no other entry of the target
   * directory had that name: an entry that was there before stays in front of it.
   */
  lemma RenameResolves(t: Table, p: nat, name: seq<byte>, q: nat, newName: seq<byte>)
    requires TreeOk(t) && p < |t.nodes| && q < |t.nodes| && Rename(t, p, name, q, newName).0 == 0
    ensures var u := Rename(t, p, name, q, newName).1;
            && (Lookup(u, q, Stored(newName)) == Lookup(t, p, name) <==> Resolve(Others(t, p, name, q), Stored(newName)) == 0)
            && forall d: nat, x :: d < |t.nodes| && !(d == p && x == name) && !(d == q && x == Stored(newName)) ==>
                 Lookup(u, d, x) == Lookup(t, d, x)
  {
    hide TreeOk, Rename, Lookup, Entries, Resolve, Dropped;
    TreeShape(t);
    var u := Rename(t, p, name, q, newName).1;
    RenameNames(t, p, name, q, newName);
    RenameKeeps(t, p, name, q, newName);
    LookupResolves(t, p, name);
    NewNameResolves(t, p, name, q, Stored(newName));
    LookupResolves(u, q, Stored(newName));
    forall d: nat, x | d < |t.nodes| && !(d == p && x == name) && !(d == q && x == Stored(newName))
      ensures Lookup(u, d, x) == Lookup(t, d, x)
    {
      LookupResolves(t, d, x);
      LookupResolves(u, d, x);
      OtherNameResolves(t, p, name, q, Stored(newName), d, x);
    }
  }
}
