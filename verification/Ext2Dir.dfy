/**
 * One block of a directory (src/kernel/fs/ext2.c:266-299, 640-868): records laid end to end, each with an inode
 * number, its own length, a name length, a type and a name. Inode 0 marks a record without an entry.
 */
module Ext2Dir {
  import opened Words

  const HEADER: nat := 8

  datatype Entry = Entry(name: seq<byte>, ino: nat, ftype: byte)

  /** A name as a caller may give it: not empty, and short enough for its length byte. */
  predicate ValidName(name: seq<byte>) {
    0 < |name| <= 255
  }

  /** dir_entry_size: header and name, rounded up to a multiple of 4. */
  function EntrySize(nameLen: nat): (size: nat)
    ensures 8 + nameLen <= size < 12 + nameLen && size % 4 == 0
  {
    (8 + nameLen + 3) / 4 * 4
  }

  function InoOf(b: seq<byte>, off: nat): nat
    requires off + HEADER <= |b|
  {
    GetU32(b, off)
  }

  function LenOf(b: seq<byte>, off: nat): nat
    requires off + HEADER <= |b|
  {
    GetU16(b, off + 4)
  }

  function NameLenOf(b: seq<byte>, off: nat): nat
    requires off + HEADER <= |b|
  {
    b[off + 6] as int
  }

  function NameOf(b: seq<byte>, off: nat): seq<byte>
    requires off + HEADER <= |b| && off + HEADER + NameLenOf(b, off) <= |b|
  {
    b[off + HEADER..off + HEADER + NameLenOf(b, off)]
  }

  /** A record that ends at or before hi and, if it has an entry, is large enough for the name. */
  predicate Fits(b: seq<byte>, off: nat, hi: nat)
    requires hi <= |b|
  {
    && off + HEADER <= hi
    && HEADER <= LenOf(b, off) && off + LenOf(b, off) <= hi
    && (InoOf(b, off) != 0 ==> EntrySize(NameLenOf(b, off)) <= LenOf(b, off))
  }

  /** The bytes from lo to hi are exactly tiled by records. */
  predicate Tiled(b: seq<byte>, lo: nat, hi: nat)
    requires hi <= |b|
    decreases hi - lo
  {
    lo == hi || (Fits(b, lo, hi) && Tiled(b, lo + LenOf(b, lo), hi))
  }

  function EntryAt(b: seq<byte>, off: nat): Entry
    requires off + HEADER <= |b| && off + HEADER + NameLenOf(b, off) <= |b|
  {
    Entry(NameOf(b, off), InoOf(b, off), b[off + 7])
  }

  /** The entries of the record at off: one or none. */
  function LiveAt(b: seq<byte>, off: nat, hi: nat): seq<Entry>
    requires hi <= |b| && Fits(b, off, hi)
  {
    if InoOf(b, off) == 0 then [] else [EntryAt(b, off)]
  }

  /** The entries from lo to hi, in disk order. */
  function Live(b: seq<byte>, lo: nat, hi: nat): seq<Entry>
    requires hi <= |b| && Tiled(b, lo, hi)
    decreases hi - lo
  {
    if lo == hi then [] else LiveAt(b, lo, hi) + Live(b, lo + LenOf(b, lo), hi)
  }

  lemma LiveAtWithin(b: seq<byte>, off: nat, hi: nat, more: nat)
    requires hi <= more <= |b| && Fits(b, off, hi)
    ensures Fits(b, off, more) && LiveAt(b, off, more) == LiveAt(b, off, hi)
  {
  }

  lemma {:induction false} TiledJoin(b: seq<byte>, lo: nat, mid: nat, hi: nat)
    requires hi <= |b| && lo <= mid <= hi && Tiled(b, lo, mid) && Tiled(b, mid, hi)
    ensures Tiled(b, lo, hi) && Live(b, lo, hi) == Live(b, lo, mid) + Live(b, mid, hi)
    decreases mid - lo
  {
    hide LenOf, InoOf, NameLenOf, LiveAt, EntrySize;
    if lo < mid {
      LiveAtWithin(b, lo, mid, hi);
      TiledJoin(b, lo + LenOf(b, lo), mid, hi);
    }
  }

  /** One record on its own. */
  lemma TiledOne(b: seq<byte>, off: nat, hi: nat)
    requires hi <= |b| && off < hi && Tiled(b, off, hi)
    ensures var next := off + LenOf(b, off);
            && next <= hi && Tiled(b, off, next) && Tiled(b, next, hi)
            && Live(b, off, next) == LiveAt(b, off, hi) && Live(b, off, hi) == LiveAt(b, off, hi) + Live(b, next, hi)
  {
    hide LenOf, InoOf, NameLenOf, EntryAt, EntrySize;
    var next := off + LenOf(b, off);
    assert Tiled(b, next, next) && Live(b, next, next) == [];
  }

  ghost predicate Agree(b: seq<byte>, c: seq<byte>, lo: nat, hi: nat) {
    hi <= |b| && hi <= |c| && forall i :: lo <= i < hi ==> b[i] == c[i]
  }

  /** A record is made of the bytes up to its end. */
  lemma FitsFrame(b: seq<byte>, c: seq<byte>, off: nat, hi: nat)
    requires hi <= |b| && Agree(b, c, off, hi) && Fits(b, off, hi)
    ensures Fits(c, off, hi) && LenOf(c, off) == LenOf(b, off) && LiveAt(c, off, hi) == LiveAt(b, off, hi)
  {
    assert b[off..off + HEADER] == c[off..off + HEADER];
    assert InoOf(c, off) == InoOf(b, off) && LenOf(c, off) == LenOf(b, off) && NameLenOf(c, off) == NameLenOf(b, off);
    if InoOf(b, off) != 0 {
      assert NameOf(c, off) == NameOf(b, off);
    }
  }

  lemma {:induction false} TiledFrame(b: seq<byte>, c: seq<byte>, lo: nat, hi: nat)
    requires hi <= |b| && lo <= hi && Agree(b, c, lo, hi) && Tiled(b, lo, hi)
    ensures Tiled(c, lo, hi) && Live(c, lo, hi) == Live(b, lo, hi)
    decreases hi - lo
  {
    hide LenOf, InoOf, NameLenOf, LiveAt, EntrySize;
    if lo < hi {
      FitsFrame(b, c, lo, hi);
      TiledFrame(b, c, lo + LenOf(b, lo), hi);
    }
  }

  /** Replacing the records between lo and hi of a block. */
  lemma TiledReplace(b: seq<byte>, c: seq<byte>, lo: nat, hi: nat)
    requires |b| == |c| && lo <= hi <= |b| && Agree(b, c, 0, lo) && Agree(b, c, hi, |b|)
    requires Tiled(b, 0, lo) && Tiled(b, hi, |b|) && Tiled(c, lo, hi)
    ensures Tiled(c, 0, |c|) && Live(c, 0, |c|) == Live(b, 0, lo) + Live(c, lo, hi) + Live(b, hi, |b|)
  {
    hide Tiled, Live, Agree;
    TiledFrame(b, c, 0, lo);
    TiledFrame(b, c, hi, |b|);
    TiledJoin(c, lo, hi, |c|);
    TiledJoin(c, 0, lo, |c|);
    var x, y, z := Live(b, 0, lo), Live(c, lo, hi), Live(b, hi, |b|);
    assert x + (y + z) == x + y + z;
  }

  // ----- Writing a record -----

  function Header(ino: nat, len: nat, ftype: byte, nameLen: nat): (h: seq<byte>)
    requires ino < TWO32 && len < TWO16 && nameLen < 256
    ensures |h| == HEADER
  {
    PutU32(ino) + PutU16(len) + [ToByte(nameLen), ftype]
  }

  function PutRecord(b: seq<byte>, off: nat, len: nat, e: Entry): (c: seq<byte>)
    requires ValidName(e.name) && e.ino < TWO32 && len < TWO16 && off + HEADER + |e.name| <= |b|
    ensures |c| == |b|
  {
    Splice(b, off, Header(e.ino, len, e.ftype, |e.name|) + e.name)
  }

  lemma PutRecordReads(b: seq<byte>, off: nat, len: nat, e: Entry)
    requires ValidName(e.name) && e.ino < TWO32 && len < TWO16 && off + HEADER + |e.name| <= |b|
    ensures var c := PutRecord(b, off, len, e);
            InoOf(c, off) == e.ino && LenOf(c, off) == len && NameLenOf(c, off) == |e.name| && EntryAt(c, off) == e
  {
    hide PutU32, PutU16, ToByte, GetU32, GetU16;
    var h := Header(e.ino, len, e.ftype, |e.name|);
    var c := PutRecord(b, off, len, e);
    assert c[off..off + 4] == PutU32(e.ino);
    U32At(c, off, e.ino);
    assert c[off + 4..off + 6] == PutU16(len);
    U16At(c, off + 4, len);
    assert c[off + 6] == h[6] == ToByte(|e.name|);
    ToByteInverse(|e.name|);
    assert c[off + 7] == h[7] == e.ftype;
    assert c[off + HEADER..off + HEADER + |e.name|] == e.name;
  }

  /** A new record fills lo to hi. */
  lemma PutRecordTiled(b: seq<byte>, lo: nat, hi: nat, e: Entry)
    requires ValidName(e.name) && 0 < e.ino < TWO32 && hi <= |b| && hi < TWO16 && lo + EntrySize(|e.name|) <= hi
    ensures var c := PutRecord(b, lo, hi - lo, e);
            Tiled(c, lo, hi) && Live(c, lo, hi) == [e] && Agree(b, c, 0, lo) && Agree(b, c, hi, |b|)
  {
    hide PutRecord, InoOf, LenOf, NameLenOf, EntryAt, EntrySize;
    PutRecordReads(b, lo, hi - lo, e);
    var c := PutRecord(b, lo, hi - lo, e);
    assert Tiled(c, hi, hi) && Live(c, hi, hi) == [];
    assert Fits(c, lo, hi);
    PutRecordAgrees(b, lo, hi, e);
  }

  lemma PutRecordAgrees(b: seq<byte>, lo: nat, hi: nat, e: Entry)
    requires ValidName(e.name) && e.ino < TWO32 && hi <= |b| && hi < TWO16 && lo + EntrySize(|e.name|) <= hi
    ensures var c := PutRecord(b, lo, hi - lo, e); Agree(b, c, 0, lo) && Agree(b, c, hi, |b|)
  {
  }

  function SetLen(b: seq<byte>, off: nat, len: nat): (c: seq<byte>)
    requires off + HEADER <= |b| && len < TWO16
    ensures |c| == |b|
  {
    Splice(b, off + 4, PutU16(len))
  }

  /** A record whose length field changes keeps its entry. */
  lemma SetLenReads(b: seq<byte>, off: nat, len: nat)
    requires off + HEADER <= |b| && len < TWO16
    ensures var c := SetLen(b, off, len);
            && LenOf(c, off) == len && InoOf(c, off) == InoOf(b, off) && NameLenOf(c, off) == NameLenOf(b, off)
            && (off + HEADER + NameLenOf(b, off) <= |b| ==> EntryAt(c, off) == EntryAt(b, off))
  {
    var c := SetLen(b, off, len);
    assert c[off + 4..off + 6] == PutU16(len);
    U16At(c, off + 4, len);
    if off + HEADER + NameLenOf(b, off) <= |b| {
      assert NameOf(c, off) == NameOf(b, off);
    }
  }

  lemma SetLenTiled(b: seq<byte>, lo: nat, was: nat, hi: nat)
    requires was <= |b| && hi <= |b| && hi < TWO16 && Fits(b, lo, was) && lo + HEADER <= hi
    requires InoOf(b, lo) != 0 ==> lo + EntrySize(NameLenOf(b, lo)) <= hi
    ensures var c := SetLen(b, lo, hi - lo);
            && Tiled(c, lo, hi) && Live(c, lo, hi) == LiveAt(b, lo, was)
            && Agree(b, c, 0, lo) && Agree(b, c, hi, |b|)
  {
    hide SetLen, InoOf, LenOf, NameLenOf, EntryAt, EntrySize;
    var c := SetLen(b, lo, hi - lo);
    SetLenReads(b, lo, hi - lo);
    assert Tiled(c, hi, hi) && Live(c, hi, hi) == [];
    SetLenAgrees(b, lo, hi);
    assert Fits(c, lo, hi);
  }

  lemma SetLenAgrees(b: seq<byte>, lo: nat, hi: nat)
    requires hi <= |b| && hi < TWO16 && lo + HEADER <= hi
    ensures var c := SetLen(b, lo, hi - lo); Agree(b, c, 0, lo) && Agree(b, c, hi, |b|)
  {
  }

  // ----- Adding an entry to a block -----

  /** The space a new record may take at off. */
  function Slack(b: seq<byte>, off: nat): int
    requires off + HEADER <= |b|
  {
    LenOf(b, off) - if InoOf(b, off) == 0 then 0 else EntrySize(NameLenOf(b, off))
  }

  /** Some record from lo to hi has room for need bytes. */
  predicate HasRoom(b: seq<byte>, lo: nat, hi: nat, need: nat)
    requires hi <= |b| && Tiled(b, lo, hi)
    decreases hi - lo
  {
    lo < hi && (Slack(b, lo) >= need || HasRoom(b, lo + LenOf(b, lo), hi, need))
  }

  /** The record at off of a tiled block has room for e. */
  predicate CanInsert(b: seq<byte>, off: nat, e: Entry) {
    && ValidName(e.name) && 0 < e.ino < TWO32 && off < |b| < TWO16
    && Tiled(b, 0, off) && Tiled(b, off, |b|) && Slack(b, off) >= EntrySize(|e.name|)
  }

  /** c is tiled, and has the entries of b with e put in at next. */
  ghost predicate Inserted(b: seq<byte>, c: seq<byte>, next: nat, e: Entry) {
    && next <= |b| == |c| && Tiled(b, 0, next) && Tiled(b, next, |b|) && Tiled(c, 0, |c|)
    && Live(c, 0, |c|) == Live(b, 0, next) + [e] + Live(b, next, |b|)
  }

  /** Take over a record without an entry, or cut the new record off the end of one that has one. */
  function Insert(b: seq<byte>, off: nat, e: Entry): (c: seq<byte>)
    requires CanInsert(b, off, e)
    ensures |c| == |b|
  {
    var len := LenOf(b, off);
    if InoOf(b, off) == 0 then PutRecord(b, off, len, e)
    else
      var actual := EntrySize(NameLenOf(b, off));
      PutRecord(SetLen(b, off, actual), off + actual, len - actual, e)
  }

  lemma InsertDead(b: seq<byte>, off: nat, e: Entry)
    requires CanInsert(b, off, e) && InoOf(b, off) == 0
    ensures Inserted(b, Insert(b, off, e), off + LenOf(b, off), e)
  {
    hide PutRecord, SetLen, InoOf, LenOf, NameLenOf, EntryAt, EntrySize, Live, Tiled;
    TiledFits(b, off, |b|);
    var next := off + LenOf(b, off);
    TiledOne(b, off, |b|);
    TiledJoin(b, 0, off, next);
    var c := Insert(b, off, e);
    PutRecordTiled(b, off, next, e);
    TiledReplace(b, c, off, next);
  }

  lemma InsertAfter(b: seq<byte>, off: nat, e: Entry)
    requires CanInsert(b, off, e) && InoOf(b, off) != 0
    ensures Inserted(b, Insert(b, off, e), off + LenOf(b, off), e)
  {
    hide PutRecord, SetLen, InoOf, LenOf, NameLenOf, EntryAt, EntrySize, Live, Tiled, LiveAt, Agree;
    TiledFits(b, off, |b|);
    var next := off + LenOf(b, off);
    var actual := EntrySize(NameLenOf(b, off));
    TiledOne(b, off, |b|);
    TiledJoin(b, 0, off, next);
    LiveAtWithin(b, off, next, |b|);
    SplitRecord(b, off, next, off + actual, e);
    TiledReplace(b, Insert(b, off, e), off, next);
  }

  /** A record with an entry is cut at mid, and the rest becomes the new record. */
  lemma SplitRecord(b: seq<byte>, off: nat, next: nat, mid: nat, e: Entry)
    requires ValidName(e.name) && 0 < e.ino < TWO32 && next <= |b| < TWO16
    requires Fits(b, off, next) && InoOf(b, off) != 0 && mid == off + EntrySize(NameLenOf(b, off))
             && mid + EntrySize(|e.name|) <= next
    ensures mid - off < TWO16
    ensures var c := PutRecord(SetLen(b, off, mid - off), mid, next - mid, e);
            && Tiled(c, off, next) && Live(c, off, next) == LiveAt(b, off, next) + [e]
            && Agree(b, c, 0, off) && Agree(b, c, next, |b|)
  {
    hide PutRecord, SetLen, InoOf, LenOf, NameLenOf, EntryAt, Live, Tiled, LiveAt, Agree;
    var a := SetLen(b, off, mid - off);
    SetLenTiled(b, off, next, mid);
    PutRecordTiled(a, mid, next, e);
    var c := PutRecord(a, mid, next - mid, e);
    AgreePart(a, c, off, mid);
    TiledFrame(a, c, off, mid);
    TiledJoin(c, off, mid, next);
    AgreeTrans(b, a, c, off, mid, next);
  }

  lemma TiledFits(b: seq<byte>, off: nat, hi: nat)
    requires hi <= |b| && off < hi && Tiled(b, off, hi)
    ensures Fits(b, off, hi) && off + LenOf(b, off) <= hi && Fits(b, off, off + LenOf(b, off))
  {
    hide InoOf, LenOf, NameLenOf, EntrySize;
  }

  lemma AgreePart(a: seq<byte>, c: seq<byte>, lo: nat, hi: nat)
    requires Agree(a, c, 0, hi) && lo <= hi
    ensures Agree(a, c, lo, hi)
  {
  }

  lemma AgreeTrans(b: seq<byte>, a: seq<byte>, c: seq<byte>, off: nat, mid: nat, next: nat)
    requires |a| == |b| == |c| && off <= mid <= next <= |b|
    requires Agree(b, a, 0, off) && Agree(b, a, mid, |b|) && Agree(a, c, 0, mid) && Agree(a, c, next, |a|)
    ensures Agree(b, c, 0, off) && Agree(b, c, next, |b|)
  {
  }

  /** The new entry goes right after the record that made room; the block stays tiled. */
  lemma InsertLive(b: seq<byte>, off: nat, e: Entry)
    requires CanInsert(b, off, e)
    ensures Inserted(b, Insert(b, off, e), off + LenOf(b, off), e)
  {
    hide Insert, Live, EntrySize;
    if InoOf(b, off) == 0 {
      InsertDead(b, off, e);
    } else {
      InsertAfter(b, off, e);
    }
  }

  // ----- Removing an entry from a block -----

  /** The lengths that a removal adds up stay below 2^16. */
  predicate CanRemove(b: seq<byte>, prev: int, off: nat) {
    |b| < TWO16 && Fits(b, off, |b|) && (prev >= 0 ==> prev + HEADER <= |b| && LenOf(b, prev) + LenOf(b, off) < TWO16)
  }

  /** The first record of a block loses its entry; any other is swallowed by the record before it. */
  function Remove(b: seq<byte>, prev: int, off: nat): (c: seq<byte>)
    requires CanRemove(b, prev, off)
    ensures |c| == |b|
  {
    if prev < 0 then Splice(b, off, PutU32(0)) else SetLen(b, prev, LenOf(b, prev) + LenOf(b, off))
  }

  /** c is tiled, and has the entries of b without those between off and next. */
  ghost predicate Removed(b: seq<byte>, c: seq<byte>, off: nat, next: nat) {
    && off <= next <= |b| == |c| && Tiled(b, 0, off) && Tiled(b, next, |b|) && Tiled(c, 0, |c|)
    && Live(c, 0, |c|) == Live(b, 0, off) + Live(b, next, |b|)
  }

  lemma ZeroInoReads(b: seq<byte>, off: nat)
    requires off + HEADER <= |b|
    ensures var c := Splice(b, off, PutU32(0));
            InoOf(c, off) == 0 && LenOf(c, off) == LenOf(b, off) && Agree(b, c, 0, off) && Agree(b, c, off + HEADER, |b|)
  {
    var c := Splice(b, off, PutU32(0));
    assert c[off..off + 4] == PutU32(0);
    U32At(c, off, 0);
  }

  lemma RemoveFirst(b: seq<byte>)
    requires 0 < |b| < TWO16 && Tiled(b, 0, |b|)
    ensures Removed(b, Remove(b, -1, 0), 0, LenOf(b, 0))
  {
    hide Splice, InoOf, LenOf, NameLenOf, EntryAt, EntrySize;
    var c, next := Remove(b, -1, 0), LenOf(b, 0);
    TiledOne(b, 0, |b|);
    ZeroInoReads(b, 0);
    assert Tiled(c, next, next) && Live(c, next, next) == [];
    assert Fits(c, 0, next) && Live(c, 0, next) == [];
    TiledReplace(b, c, 0, next);
    assert Live(b, 0, 0) == [];
  }

  lemma RemoveMerged(b: seq<byte>, prev: nat, off: nat)
    requires prev <= off < |b| < TWO16 && Tiled(b, 0, prev) && Tiled(b, off, |b|)
    requires Fits(b, prev, off) && prev + LenOf(b, prev) == off
    ensures LenOf(b, prev) + LenOf(b, off) < TWO16 && prev + HEADER <= |b|
    ensures Removed(b, Remove(b, prev, off), off, off + LenOf(b, off))
  {
    hide SetLen, InoOf, LenOf, NameLenOf, EntryAt, EntrySize, LiveAt;
    var next := off + LenOf(b, off);
    TiledOne(b, off, |b|);
    TiledFits(b, off, |b|);
    assert Tiled(b, off, off) && Live(b, off, off) == [];
    assert Tiled(b, prev, off) && Live(b, prev, off) == LiveAt(b, prev, off);
    hide Live, Tiled;
    TiledJoin(b, 0, prev, off);
    SetLenTiled(b, prev, off, next);
    var c := Remove(b, prev, off);
    TiledReplace(b, c, prev, next);
  }
}
