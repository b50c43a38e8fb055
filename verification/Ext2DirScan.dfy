/** The scans over one directory block (src/kernel/fs/ext2.c:277-295, 676-743, 827-863). */
module Ext2DirScan {
  import opened Words
  import opened Ext2Dir
  import opened Ext2DirMap

  /** The record at off has an entry with this name. */
  predicate Matches(b: seq<byte>, off: nat, name: seq<byte>)
    requires Fits(b, off, |b|)
  {
    InoOf(b, off) != 0 && NameLenOf(b, off) == |name| && NameOf(b, off) == name
  }

  /** Where a scan stands: everything before off is tiled, and so is the rest. */
  ghost predicate Standing(b: seq<byte>, off: nat) {
    off <= |b| && Tiled(b, 0, off) && Tiled(b, off, |b|)
  }

  lemma StandingStart(b: seq<byte>)
    requires Tiled(b, 0, |b|)
    ensures Standing(b, 0) && Live(b, 0, 0) == []
  {
    hide Fits;
  }

  /** One record further. */
  lemma StandingStep(b: seq<byte>, off: nat)
    requires off < |b| && Standing(b, off)
    ensures off + HEADER <= |b| && Fits(b, off, |b|) && off < off + LenOf(b, off) <= |b|
            && Standing(b, off + LenOf(b, off))
    ensures Live(b, 0, off + LenOf(b, off)) == Live(b, 0, off) + LiveAt(b, off, |b|)
    ensures Tiled(b, off, off + LenOf(b, off)) && Live(b, off, off + LenOf(b, off)) == LiveAt(b, off, |b|)
    ensures Fits(b, off, off + LenOf(b, off))
  {
    hide InoOf, LenOf, NameLenOf, EntryAt, EntrySize, LiveAt;
    TiledFits(b, off, |b|);
    TiledOne(b, off, |b|);
    hide Tiled, Live, Fits;
    TiledJoin(b, 0, off, off + LenOf(b, off));
  }

  lemma StandingAll(b: seq<byte>, off: nat)
    requires Standing(b, off)
    ensures Tiled(b, 0, |b|) && Live(b, 0, |b|) == Live(b, 0, off) + Live(b, off, |b|)
  {
    hide Tiled, Live;
    TiledJoin(b, 0, off, |b|);
  }

  lemma MatchesMeans(b: seq<byte>, off: nat, name: seq<byte>)
    requires Fits(b, off, |b|)
    ensures Absent(LiveAt(b, off, |b|), name) <==> !Matches(b, off, name)
    ensures Matches(b, off, name) ==> LiveAt(b, off, |b|) == [EntryAt(b, off)] && EntryAt(b, off).name == name
  {
    hide InoOf, LenOf, NameLenOf, EntrySize;
    if InoOf(b, off) != 0 {
      assert LiveAt(b, off, |b|)[0] == EntryAt(b, off);
      assert |NameOf(b, off)| == NameLenOf(b, off);
    }
  }

  /** What a scan for a name found: the first record with it, and the record before. */
  ghost predicate FoundAt(b: seq<byte>, name: seq<byte>, prev: int, off: nat) {
    && Standing(b, off) && off < |b| && Fits(b, off, |b|) && Matches(b, off, name) && Absent(Live(b, 0, off), name)
    && (prev < 0 ==> off == 0)
    && (prev >= 0 ==> prev < off && Tiled(b, 0, prev) && Fits(b, prev, off) && prev + LenOf(b, prev) == off)
  }

  /** The loop that lookup, add and remove share: the first record with the name. */
  method FindEntry(b: seq<byte>, name: seq<byte>) returns (found: bool, prev: int, off: nat)
    requires Tiled(b, 0, |b|)
    ensures found ==> FoundAt(b, name, prev, off)
    ensures found <==> !Absent(BlockEntries(b), name)
  {
    hide InoOf, LenOf, NameLenOf, EntryAt, EntrySize, LiveAt, Tiled, Live, Fits, Matches, Absent;
    StandingStart(b);
    AbsentEmpty(name);
    off, prev := 0, -1;
    while off < |b|
      invariant Standing(b, off) && Absent(Live(b, 0, off), name)
      invariant prev < 0 ==> off == 0
      invariant prev >= 0 ==> prev < off && Tiled(b, 0, prev) && Fits(b, prev, off) && StepsTo(b, prev, off)
      decreases |b| - off
    {
      StandingStep(b, off);
      MatchesMeans(b, off, name);
      if Matches(b, off, name) {
        MatchShows(b, off, name);
        StepsMeans(b, prev, off);
        return true, prev, off;
      }
      AbsentConcat(Live(b, 0, off), LiveAt(b, off, |b|), name);
      prev := off;
      off := off + LenOf(b, off);
    }
    found := false;
  }

  ghost predicate StepsTo(b: seq<byte>, prev: nat, off: nat) {
    prev + HEADER <= |b| && prev + LenOf(b, prev) == off
  }

  lemma StepsMeans(b: seq<byte>, prev: int, off: nat)
    ensures prev >= 0 && StepsTo(b, prev, off) ==> prev + HEADER <= |b| && prev + LenOf(b, prev) == off
  {
  }

  lemma MatchShows(b: seq<byte>, off: nat, name: seq<byte>)
    requires Standing(b, off) && off < |b| && Fits(b, off, |b|) && Matches(b, off, name) && Tiled(b, 0, |b|)
    ensures !Absent(BlockEntries(b), name)
  {
    hide InoOf, LenOf, NameLenOf, EntryAt, EntrySize, LiveAt, Tiled, Live, Fits, Matches, Absent;
    MatchesMeans(b, off, name);
    StandingStep(b, off);
    var next := off + LenOf(b, off);
    StandingAll(b, next);
    AbsentConcat(Live(b, 0, off), LiveAt(b, off, |b|), name);
    AbsentConcat(Live(b, 0, next), Live(b, next, |b|), name);
  }

  /** No record before off has room. */
  ghost predicate NoRoomBefore(b: seq<byte>, off: nat, need: nat)
    requires off <= |b| && Tiled(b, 0, off)
  {
    !HasRoom(b, 0, off, need)
  }

  lemma {:induction false} RoomJoin(b: seq<byte>, lo: nat, mid: nat, hi: nat, need: nat)
    requires lo <= mid <= hi <= |b| && Tiled(b, lo, mid) && Tiled(b, mid, hi) && Tiled(b, lo, hi)
    ensures HasRoom(b, lo, hi, need) <==> HasRoom(b, lo, mid, need) || HasRoom(b, mid, hi, need)
    decreases mid - lo
  {
    hide InoOf, LenOf, NameLenOf, EntrySize, Slack;
    if lo < mid {
      RoomJoin(b, lo + LenOf(b, lo), mid, hi, need);
    }
  }

  lemma RoomOne(b: seq<byte>, off: nat, need: nat)
    requires off < |b| && Fits(b, off, |b|) && Tiled(b, off, off + LenOf(b, off))
    ensures HasRoom(b, off, off + LenOf(b, off), need) <==> Slack(b, off) >= need
  {
    hide InoOf, LenOf, NameLenOf, EntrySize, Slack;
  }

  /** The second loop of ext2_dir_add_entry: the first record with room. */
  method FindRoom(b: seq<byte>, need: nat) returns (found: bool, off: nat)
    requires Tiled(b, 0, |b|)
    ensures found ==> off < |b| && Standing(b, off) && Fits(b, off, |b|) && Slack(b, off) >= need && NoRoomBefore(b, off, need)
    ensures found <==> HasRoom(b, 0, |b|, need)
  {
    hide InoOf, LenOf, NameLenOf, EntryAt, EntrySize, LiveAt, Tiled, Live, Fits, Slack, HasRoom;
    StandingStart(b);
    EmptyRoom(b, need);
    off := 0;
    while off < |b|
      invariant Standing(b, off) && !HasRoom(b, 0, off, need)
      decreases |b| - off
    {
      StandingStep(b, off);
      RoomOne(b, off, need);
      var next := off + LenOf(b, off);
      RoomJoin(b, 0, off, next, need);
      RoomJoin(b, 0, next, |b|, need);
      if Slack(b, off) >= need {
        return true, off;
      }
      off := next;
    }
    found := false;
  }

  lemma EmptyRoom(b: seq<byte>, need: nat)
    ensures Tiled(b, 0, 0) && !HasRoom(b, 0, 0, need)
  {
  }

  /** Both ways of taking an entry out, together. */
  lemma RemoveFound(b: seq<byte>, name: seq<byte>, prev: int, off: nat)
    requires |b| < TWO16 && FoundAt(b, name, prev, off)
    ensures prev >= 0 ==> prev + HEADER <= |b| && LenOf(b, prev) + LenOf(b, off) < TWO16
    ensures Removed(b, Remove(b, prev, off), off, off + LenOf(b, off))
    ensures Tiled(b, off, off + LenOf(b, off)) && Live(b, off, off + LenOf(b, off)) == [EntryAt(b, off)]
    ensures EntryAt(b, off).name == name
  {
    hide InoOf, LenOf, NameLenOf, EntryAt, EntrySize, LiveAt, Tiled, Live, Matches, Absent, Remove, Removed;
    StandingStep(b, off);
    MatchesMeans(b, off, name);
    if prev < 0 {
      StandingAll(b, 0);
      RemoveFirst(b);
      RemoveAnyFirst(b, prev);
    } else {
      RemoveMerged(b, prev, off);
    }
  }

  lemma RemoveAnyFirst(b: seq<byte>, prev: int)
    requires |b| < TWO16 && Fits(b, 0, |b|) && prev < 0
    ensures Remove(b, prev, 0) == Remove(b, -1, 0)
  {
  }
}
