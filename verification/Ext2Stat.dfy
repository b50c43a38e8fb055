/**
 * What the operations leave of the fields of an inode (src/kernel/fs/ext2_ondisk.h:66-85), by their places: size at byte
 * 4, ctime and mtime at 12 and 16, i_blocks at 28, the direct pointers from 40 on.
 */
module Ext2Stat {
  import opened Words
  import opened Ext2Layout
  import opened Ext2Inode

  /** Direct pointer l. */
  function DirectPtr(n: Inode, l: nat): nat
    requires l < 12
  {
    GetU32(n, 40 + 4 * l)
  }

  /** Mode, owner, links, flags, the other pointers: every byte outside size, times, i_blocks and direct pointers. */
  predicate SameAttributes(a: Inode, b: Inode) {
    forall k :: 0 <= k < 128 && !(4 <= k < 8) && !(12 <= k < 20) && !(28 <= k < 32) && !(40 <= k < 88) ==> a[k] == b[k]
  }

  /** Every byte outside i_blocks and the direct pointers. */
  predicate SameHead(a: Inode, b: Inode) {
    forall k :: 0 <= k < 128 && !(28 <= k < 32) && !(40 <= k < 88) ==> a[k] == b[k]
  }

  predicate SameDirect(a: Inode, b: Inode) {
    forall l :: 0 <= l < 12 ==> DirectPtr(a, l) == DirectPtr(b, l)
  }

  /** Modified and changed at this time. */
  predicate TimesAre(n: Inode, now: nat) {
    GetU32(n, 12) == now && GetU32(n, 16) == now
  }

  /** How many of the first k direct pointers were 0 in a and are not in b. */
  function NewBlocks(a: Inode, b: Inode, k: nat): (n: nat)
    requires k <= 12
    ensures n <= k
  {
    if k == 0 then 0 else NewBlocks(a, b, k - 1) + if DirectPtr(a, k - 1) == 0 && DirectPtr(b, k - 1) != 0 then 1 else 0
  }

  /** i_blocks, in units of 512 bytes, has gone up by the new blocks. */
  predicate Charged(bs: nat, a: Inode, b: Inode) {
    GetU32(b, 28) == (GetU32(a, 28) + bs / 512 * NewBlocks(a, b, 12)) % TWO32
  }

  /** Pointers stay, and of those that were 0 exactly those from lo up to hi are not any more. */
  predicate Filled(a: Inode, b: Inode, lo: nat, hi: nat) {
    forall l :: 0 <= l < 12 ==>
      if DirectPtr(a, l) != 0 then DirectPtr(b, l) == DirectPtr(a, l) else (DirectPtr(b, l) != 0 <==> lo <= l < hi)
  }

  // ----- Taking blocks -----

  /** A block has been taken for pointer l. */
  predicate Took(bs: nat, a: Inode, b: Inode, l: nat) {
    && l < 12 && SameHead(a, b) && DirectPtr(a, l) == 0 && DirectPtr(b, l) != 0
    && (forall j :: 0 <= j < 12 && j != l ==> DirectPtr(b, j) == DirectPtr(a, j))
    && GetU32(b, 28) == (GetU32(a, 28) + bs / 512) % TWO32
  }

  /** The inode in hand after the blocks from lo up to hi have been written. */
  predicate Grew(bs: nat, a: Inode, b: Inode, lo: nat, hi: nat) {
    SameHead(a, b) && Charged(bs, a, b) && Filled(a, b, lo, hi)
  }

  lemma {:induction false} NoNewBlocks(a: Inode, k: nat)
    requires k <= 12
    ensures NewBlocks(a, a, k) == 0
    decreases k
  {
    hide DirectPtr;
    if k > 0 {
      NoNewBlocks(a, k - 1);
    }
  }

  lemma GrewStart(bs: nat, a: Inode, lo: nat)
    ensures Grew(bs, a, a, lo, lo)
  {
    hide DirectPtr;
    NoNewBlocks(a, 12);
  }

  lemma {:induction false} OneMore(a: Inode, n: Inode, m: Inode, l: nat, k: nat)
    requires k <= 12 && l < 12 && DirectPtr(a, l) == 0 == DirectPtr(n, l) && DirectPtr(m, l) != 0
    requires forall j :: 0 <= j < 12 && j != l ==> DirectPtr(m, j) == DirectPtr(n, j)
    ensures NewBlocks(a, m, k) == NewBlocks(a, n, k) + if l < k then 1 else 0
    decreases k
  {
    hide DirectPtr;
    if k > 0 {
      OneMore(a, n, m, l, k - 1);
    }
  }

  lemma GrewTook(bs: nat, a: Inode, n: Inode, m: Inode, lo: nat, l: nat)
    requires Grew(bs, a, n, lo, l) && lo <= l && Took(bs, n, m, l)
    ensures Grew(bs, a, m, lo, l + 1)
  {
    hide DirectPtr, NewBlocks;
    OneMore(a, n, m, l, 12);
    AddUnit(GetU32(a, 28), bs / 512, NewBlocks(a, n, 12));
  }

  lemma AddUnit(s: nat, u: nat, c: nat)
    ensures ((s + u * c) % TWO32 + u) % TWO32 == (s + u * (c + 1)) % TWO32
  {
    var x := s + u * c;
    assert s + u * (c + 1) == x + u;
    AddMod(x, u);
  }

  lemma AddMod(x: nat, u: nat)
    ensures (x % TWO32 + u) % TWO32 == (x + u) % TWO32
  {
  }

  /** A block that was there already, or that is at the end of those done. */
  lemma GrewKept(bs: nat, a: Inode, n: Inode, lo: nat, hi: nat, l: nat)
    requires Grew(bs, a, n, lo, hi) && l < 12 && DirectPtr(n, l) != 0 && lo <= l && (hi == l || hi == l + 1)
    ensures Grew(bs, a, n, lo, l + 1)
  {
    hide DirectPtr, NewBlocks;
  }

  // ----- Storing the inode -----

  lemma WordBytes(n: Inode, off: nat, v: nat, k: nat)
    requires off + 4 <= INODE_BYTES && v < TWO32 && k < INODE_BYTES && !(off <= k < off + 4)
    ensures WithWord(n, off, v)[k] == n[k]
  {
  }

  lemma SameWordAt(a: Inode, b: Inode, at: nat)
    requires at + 4 <= INODE_BYTES && forall k :: at <= k < at + 4 ==> a[k] == b[k]
    ensures GetU32(a, at) == GetU32(b, at)
  {
  }

  lemma StampWords(n: Inode, now: nat)
    requires now < TWO32
    ensures TimesAre(Stamped(n, now), now)
    ensures forall k :: 0 <= k < 128 && !(12 <= k < 20) ==> Stamped(n, now)[k] == n[k]
  {
    hide WithWord, GetU32;
    var m := WithWord(n, 12, now);
    WithWordReads(n, 12, now, 12);
    WithWordReads(m, 16, now, 12);
    WithWordReads(m, 16, now, 16);
    forall k | 0 <= k < 128 && !(12 <= k < 20)
      ensures Stamped(n, now)[k] == n[k]
    {
      WordBytes(n, 12, now, k);
      WordBytes(m, 16, now, k);
    }
  }

  lemma SizeWord(n: Inode, size: nat)
    requires size < TWO32
    ensures GetU32(WithSize(n, size), 4) == size
    ensures forall k :: 0 <= k < 128 && !(4 <= k < 8) ==> WithSize(n, size)[k] == n[k]
  {
    hide WithWord, GetU32;
    WithWordReads(n, 4, size, 4);
    forall k | 0 <= k < 128 && !(4 <= k < 8)
      ensures WithSize(n, size)[k] == n[k]
    {
      WordBytes(n, 4, size, k);
    }
  }

  /** Bytes outside size and times agree, so i_blocks and the direct pointers do. */
  lemma SameCounts(bs: nat, a: Inode, n: Inode, m: Inode, lo: nat, hi: nat)
    requires Grew(bs, a, n, lo, hi) && forall k :: 0 <= k < 128 && !(4 <= k < 8) && !(12 <= k < 20) ==> m[k] == n[k]
    ensures SameAttributes(a, m) && Charged(bs, a, m) && Filled(a, m, lo, hi)
  {
    hide GetU32;
    SameWordAt(m, n, 28);
    SameDirects(m, n);
    SameNew(a, n, m, 12);
  }

  lemma SameDirects(m: Inode, n: Inode)
    requires forall k :: 40 <= k < 88 ==> m[k] == n[k]
    ensures SameDirect(m, n)
  {
    hide GetU32;
    forall l | 0 <= l < 12
      ensures DirectPtr(m, l) == DirectPtr(n, l)
    {
      SameWordAt(m, n, 40 + 4 * l);
    }
  }

  lemma {:induction false} SameNew(a: Inode, n: Inode, m: Inode, k: nat)
    requires k <= 12 && SameDirect(m, n)
    ensures NewBlocks(a, m, k) == NewBlocks(a, n, k)
    decreases k
  {
    hide DirectPtr;
    if k > 0 {
      SameNew(a, n, m, k - 1);
    }
  }

  /** What a write up to position end, in the blocks from lo up to hi, leaves of the inode. */
  predicate Recorded(bs: nat, a: Inode, b: Inode, lo: nat, hi: nat, end: nat, now: nat) {
    && SameAttributes(a, b) && TimesAre(b, now) && GetU32(b, 4) == Max(GetU32(a, 4), end)
    && Charged(bs, a, b) && Filled(a, b, lo, hi)
  }

  lemma RecordedBy(bs: nat, a: Inode, n: Inode, lo: nat, hi: nat, end: nat, now: nat)
    requires now < TWO32 && end < TWO32 && Grew(bs, a, n, lo, hi)
    ensures Recorded(bs, a, Stamped(if end > SizeOf(n) then WithSize(n, end) else n, now), lo, hi, end, now)
  {
    hide GetU32, Stamped, WithSize;
    var s := if end > SizeOf(n) then WithSize(n, end) else n;
    var m := Stamped(s, now);
    SizeWord(n, end);
    StampWords(s, now);
    SameWordAt(m, s, 4);
    SameWordAt(a, n, 4);
    SameCounts(bs, a, n, m, lo, hi);
  }

  // ----- Dropping blocks -----

  /** s less c units, as far as it goes. */
  function Less(s: nat, unit: nat, c: nat): nat
    decreases c
  {
    if c == 0 then s
    else
      var before := Less(s, unit, c - 1);
      if before >= unit then before - unit else before
  }

  /** In closed form. */
  lemma {:induction false} LessIs(s: nat, unit: nat, c: nat)
    requires unit > 0
    ensures Less(s, unit, c) == if c * unit <= s then s - c * unit else s % unit
    decreases c
  {
    if c > 0 {
      LessIs(s, unit, c - 1);
      assert c * unit == (c - 1) * unit + unit;
      if (c - 1) * unit <= s < c * unit {
        assert s == (c - 1) * unit + (s - (c - 1) * unit);
        RestIs(s, unit, c - 1);
      }
    }
  }

  lemma RestIs(s: nat, unit: nat, q: nat)
    requires unit > 0 && q * unit <= s < q * unit + unit
    ensures s % unit == s - q * unit
  {
    DivMod(q, s - q * unit, unit);
  }

  /** How many of the direct pointers from lo up to hi are set. */
  function SetFrom(n: Inode, lo: nat, hi: nat): nat
    requires hi <= 12
    decreases hi
  {
    if hi <= lo then 0 else SetFrom(n, lo, hi - 1) + if DirectPtr(n, hi - 1) != 0 then 1 else 0
  }

  /** The inode in hand after the pointers from keep up to i have been dropped, and freed of their blocks are gone. */
  predicate Shrank(bs: nat, a: Inode, b: Inode, keep: nat, i: nat, freed: nat) {
    && SameHead(a, b) && GetU32(b, 28) == Less(GetU32(a, 28), bs / 512, freed)
    && forall l :: 0 <= l < 12 ==> DirectPtr(b, l) == if keep <= l < i then 0 else DirectPtr(a, l)
  }

  /** What a truncation to size leaves of the inode. */
  predicate CutDown(bs: nat, a: Inode, b: Inode, keep: nat, size: nat, now: nat, freed: nat) {
    && SameAttributes(a, b) && TimesAre(b, now) && GetU32(b, 4) == size
    && GetU32(b, 28) == Less(GetU32(a, 28), bs / 512, freed)
    && forall l :: 0 <= l < 12 ==> DirectPtr(b, l) == if keep <= l then 0 else DirectPtr(a, l)
  }

  lemma CutDownBy(bs: nat, a: Inode, n: Inode, keep: nat, size: nat, now: nat, freed: nat)
    requires Shrank(bs, a, n, keep, 12, freed) && size < TWO32 && now < TWO32
    ensures CutDown(bs, a, Stamped(WithSize(n, size), now), keep, size, now, freed)
  {
    hide GetU32, Stamped, WithSize, Less;
    var s := WithSize(n, size);
    var m := Stamped(s, now);
    SizeWord(n, size);
    StampWords(s, now);
    SameWordAt(m, s, 4);
    SameWordAt(m, n, 28);
    SameDirects(m, n);
  }

  lemma ShrankStart(bs: nat, a: Inode, keep: nat)
    ensures Shrank(bs, a, a, keep, keep, 0)
  {
  }

  lemma PtrWords(n: Inode, l: nat, b: nat)
    requires l < 12 && b < TWO32
    ensures DirectPtr(WithPtr(n, l, b), l) == b
    ensures forall j :: 0 <= j < 12 && j != l ==> DirectPtr(WithPtr(n, l, b), j) == DirectPtr(n, j)
    ensures forall k :: 0 <= k < 128 && !(40 <= k < 88) ==> WithPtr(n, l, b)[k] == n[k]
  {
    hide WithWord, GetU32;
    var m := WithPtr(n, l, b);
    WithWordReads(n, 40 + 4 * l, b, 40 + 4 * l);
    forall j | 0 <= j < 12 && j != l
      ensures DirectPtr(m, j) == DirectPtr(n, j)
    {
      WithWordReads(n, 40 + 4 * l, b, 40 + 4 * j);
    }
    forall k | 0 <= k < 128 && !(40 <= k < 88)
      ensures m[k] == n[k]
    {
      WordBytes(n, 40 + 4 * l, b, k);
    }
  }

  lemma SectorWords(n: Inode, s: nat)
    requires s < TWO32
    ensures GetU32(WithSectors(n, s), 28) == s
    ensures forall k :: 0 <= k < 128 && !(28 <= k < 32) ==> WithSectors(n, s)[k] == n[k]
  {
    hide WithWord, GetU32;
    WithWordReads(n, 28, s, 28);
    forall k | 0 <= k < 128 && !(28 <= k < 32)
      ensures WithSectors(n, s)[k] == n[k]
    {
      WordBytes(n, 28, s, k);
    }
  }

  /** A directory that has grown by one block, for pointer l. */
  predicate DirGrew(bs: nat, a: Inode, b: Inode, l: nat, now: nat) {
    && SameAttributes(a, b) && TimesAre(b, now) && GetU32(b, 4) == (GetU32(a, 4) + bs) % TWO32
    && Charged(bs, a, b) && Filled(a, b, l, l + 1)
  }

  /** Only the times have changed. */
  predicate Restamped(a: Inode, b: Inode, now: nat) {
    TimesAre(b, now) && forall k :: 0 <= k < 128 && !(12 <= k < 20) ==> b[k] == a[k]
  }

  /** A new inode: its mode, one link, the three times; every other byte is 0. */
  predicate Blank(n: Inode, mode: nat, now: nat) {
    && GetU16(n, 0) == mode && GetU16(n, 26) == 1 && GetU32(n, 8) == now && TimesAre(n, now)
    && forall k :: 0 <= k < 128 && !(0 <= k < 2) && !(8 <= k < 20) && !(26 <= k < 28) ==> n[k] == 0
  }

  lemma HalfBytes(n: Inode, off: nat, v: nat, k: nat)
    requires off + 2 <= INODE_BYTES && v < TWO16 && k < INODE_BYTES && !(off <= k < off + 2)
    ensures WithHalf(n, off, v)[k] == n[k]
  {
  }

  lemma FreshBlank(mode: nat, now: nat)
    requires mode < TWO16 && now < TWO32
    ensures Blank(FreshInode(mode, now), mode, now)
  {
    hide WithWord, WithHalf, GetU32, GetU16;
    var z := Zeros(INODE_BYTES);
    var a := WithHalf(z, 0, mode);
    var b := WithHalf(a, 26, 1);
    var c := WithWord(b, 12, now);
    var e := WithWord(c, 16, now);
    FreshFields(mode, now);
    WithWordReads(e, 8, now, 8);
    WithWordReads(e, 8, now, 12);
    WithWordReads(e, 8, now, 16);
    StampWords(b, now);
    forall k | 0 <= k < 128 && !(0 <= k < 2) && !(8 <= k < 20) && !(26 <= k < 28)
      ensures FreshInode(mode, now)[k] == 0
    {
      HalfBytes(z, 0, mode, k);
      HalfBytes(a, 26, 1, k);
      WordBytes(e, 8, now, k);
    }
  }
}
