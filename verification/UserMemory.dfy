/** A process's memory as the kernel reaches it: virtual pages on physical frames (src/kernel/core/exec.c:44-71). */
module UserMemory {
  import opened Words

  const PAGE: nat := 4096

  type Frames = map<nat, seq<byte>>

  /** Every mapped page has a frame of its own; frame 0 is never used, since address 0 means unmapped. */
  ghost predicate WellMapped(pages: map<nat, nat>, frames: Frames) {
    && (forall v :: v in pages ==> pages[v] in frames && pages[v] > 0)
    && (forall f :: f in frames ==> |frames[f]| == PAGE)
    && (forall v, w :: v in pages && w in pages && pages[v] == pages[w] ==> v == w)
  }

  predicate Mapped(pages: map<nat, nat>, a: nat) {
    a / PAGE in pages
  }

  function ByteAt(pages: map<nat, nat>, frames: Frames, a: nat): byte
    requires WellMapped(pages, frames) && Mapped(pages, a)
  {
    frames[pages[a / PAGE]][a % PAGE]
  }

  ghost predicate Holds(pages: map<nat, nat>, frames: Frames, a: nat, b: byte)
    requires WellMapped(pages, frames)
  {
    Mapped(pages, a) && ByteAt(pages, frames, a) == b
  }

  /** The bytes of s are in memory from a on. */
  ghost predicate Stored(pages: map<nat, nat>, frames: Frames, a: nat, s: seq<byte>)
    requires WellMapped(pages, frames)
  {
    forall i :: 0 <= i < |s| ==> Holds(pages, frames, a + i, s[i])
  }

  /** Outside [lo, hi) nothing changed. */
  ghost predicate Outside(pages: map<nat, nat>, was: Frames, now: Frames, lo: nat, hi: nat)
    requires WellMapped(pages, was) && WellMapped(pages, now)
  {
    forall a: nat :: Mapped(pages, a) && !(lo <= a < hi) ==> ByteAt(pages, now, a) == ByteAt(pages, was, a)
  }

  /** Every page of [lo, hi) is mapped. */
  ghost predicate AllMapped(pages: map<nat, nat>, lo: nat, hi: nat) {
    forall a: nat :: lo <= a < hi ==> Mapped(pages, a)
  }

  /** Writing a chunk within one page. */
  lemma ChunkWritten(pages: map<nat, nat>, frames: Frames, a: nat, chunk: seq<byte>)
    requires WellMapped(pages, frames) && Mapped(pages, a) && a % PAGE + |chunk| <= PAGE
    ensures var f := pages[a / PAGE];
            var now := frames[f := Splice(frames[f], a % PAGE, chunk)];
            WellMapped(pages, now) && Stored(pages, now, a, chunk) && Outside(pages, frames, now, a, a + |chunk|)
  {
    var f := pages[a / PAGE];
    var now := frames[f := Splice(frames[f], a % PAGE, chunk)];
    forall i | 0 <= i < |chunk|
      ensures Holds(pages, now, a + i, chunk[i])
    {
      SamePage(a, i);
    }
    forall x: nat | Mapped(pages, x) && !(a <= x < a + |chunk|)
      ensures ByteAt(pages, now, x) == ByteAt(pages, frames, x)
    {
    }
  }

  lemma SamePage(a: nat, i: nat)
    requires a % PAGE + i < PAGE
    ensures (a + i) / PAGE == a / PAGE && (a + i) % PAGE == a % PAGE + i
  {
  }

  /** What is stored stays, if the bytes written lie elsewhere. */
  lemma StoredFrame(pages: map<nat, nat>, was: Frames, now: Frames, a: nat, s: seq<byte>, lo: nat, hi: nat)
    requires WellMapped(pages, was) && WellMapped(pages, now) && Outside(pages, was, now, lo, hi)
    requires Stored(pages, was, a, s) && (a + |s| <= lo || hi <= a)
    ensures Stored(pages, now, a, s)
  {
    forall i | 0 <= i < |s|
      ensures Holds(pages, now, a + i, s[i])
    {
      assert Holds(pages, was, a + i, s[i]);
    }
  }

  lemma StoredJoin(pages: map<nat, nat>, frames: Frames, a: nat, s: seq<byte>, t: seq<byte>)
    requires WellMapped(pages, frames) && Stored(pages, frames, a, s) && Stored(pages, frames, a + |s|, t)
    ensures Stored(pages, frames, a, s + t)
  {
    forall i | 0 <= i < |s + t|
      ensures Holds(pages, frames, a + i, (s + t)[i])
    {
      if i >= |s| {
        assert Holds(pages, frames, (a + |s|) + (i - |s|), t[i - |s|]);
      } else {
        assert Holds(pages, frames, a + i, s[i]);
      }
    }
  }

  lemma StoredPart(pages: map<nat, nat>, frames: Frames, a: nat, s: seq<byte>, lo: nat, hi: nat)
    requires WellMapped(pages, frames) && Stored(pages, frames, a, s) && lo <= hi <= |s|
    ensures Stored(pages, frames, a + lo, s[lo..hi])
  {
    forall i | 0 <= i < hi - lo
      ensures Holds(pages, frames, a + lo + i, s[lo..hi][i])
    {
      assert Holds(pages, frames, a + (lo + i), s[lo + i]);
    }
  }

  class AddressSpace {
    const pages: map<nat, nat>
    var frames: Frames
    ghost var refused: nat   // frames that could not be reached

    constructor (p: map<nat, nat>, f: Frames)
      requires WellMapped(p, f)
      ensures pages == p && frames == f && Valid()
    {
      pages, frames := p, f;
    }

    ghost predicate Valid()
      reads this
    {
      WellMapped(pages, frames)
    }

    /** copy_to_user_phys: chunk by chunk, up to the end of each page. A frame may fail to be mapped into the kernel. */
    method CopyOut(addr: nat, src: seq<byte>) returns (rc: int)
      requires Valid()
      modifies this
      ensures Valid() && rc <= 0
      ensures rc == 0 ==> Stored(pages, frames, addr, src)
      ensures Outside(pages, old(frames), frames, addr, addr + |src|)
      ensures refused >= old(refused) && (rc < 0 && AllMapped(pages, addr, addr + |src|) ==> refused > old(refused))
    {
      hide Stored, Outside, ByteAt, Holds;
      var done := 0;
      NothingStored(pages, frames, addr);
      while done < |src|
        invariant done <= |src| && Valid()
        invariant Stored(pages, frames, addr, src[..done])
        invariant Outside(pages, old(frames), frames, addr, addr + done) && refused == old(refused)
      {
        var at := addr + done;
        OutsideWider(pages, old(frames), frames, addr, at, addr + |src|);
        if at / PAGE !in pages {
          assert !Mapped(pages, at);
          return -14;
        }
        var frame, offset := pages[at / PAGE], at % PAGE;
        var chunk := PAGE - offset;
        if chunk > |src| - done {
          chunk := |src| - done;
        }
        var mapped: bool := *;
        if !mapped {
          refused := refused + 1;
          return -14;
        }
        ghost var was := frames;
        ChunkWritten(pages, frames, at, src[done..done + chunk]);
        FrameOf(pages, frames, at);
        frames := frames[frame := Splice(frames[frame], offset, src[done..done + chunk])];
        StoredFrame(pages, was, frames, addr, src[..done], at, at + chunk);
        StoredJoin(pages, frames, addr, src[..done], src[done..done + chunk]);
        assert src[..done] + src[done..done + chunk] == src[..done + chunk];
        OutsideJoin(pages, old(frames), was, frames, addr, at, at + chunk);
        done := done + chunk;
      }
      assert src[..|src|] == src;
      rc := 0;
    }
  }

  lemma NothingStored(pages: map<nat, nat>, frames: Frames, a: nat)
    requires WellMapped(pages, frames)
    ensures Stored(pages, frames, a, []) && Outside(pages, frames, frames, a, a)
  {
  }

  lemma FrameOf(pages: map<nat, nat>, frames: Frames, a: nat)
    requires WellMapped(pages, frames) && Mapped(pages, a)
    ensures pages[a / PAGE] in frames && |frames[pages[a / PAGE]]| == PAGE
  {
  }

  lemma OutsideWider(pages: map<nat, nat>, a: Frames, b: Frames, lo: nat, hi: nat, more: nat)
    requires WellMapped(pages, a) && WellMapped(pages, b) && Outside(pages, a, b, lo, hi) && hi <= more
    ensures Outside(pages, a, b, lo, more)
  {
    hide ByteAt, WellMapped;
  }

  lemma OutsideMore(pages: map<nat, nat>, a: Frames, b: Frames, lo: nat, hi: nat, low: nat, high: nat)
    requires WellMapped(pages, a) && WellMapped(pages, b) && Outside(pages, a, b, lo, hi) && low <= lo && hi <= high
    ensures Outside(pages, a, b, low, high) && (AllMapped(pages, low, high) ==> AllMapped(pages, lo, hi))
  {
    hide ByteAt, WellMapped, Mapped;
  }

  lemma OutsideBoth(pages: map<nat, nat>, a: Frames, b: Frames, c: Frames, lo: nat, hi: nat)
    requires WellMapped(pages, a) && WellMapped(pages, b) && WellMapped(pages, c)
    requires Outside(pages, a, b, lo, hi) && Outside(pages, b, c, lo, hi)
    ensures Outside(pages, a, c, lo, hi)
  {
    hide ByteAt, WellMapped;
  }

  lemma OutsideJoin(pages: map<nat, nat>, a: Frames, b: Frames, c: Frames, lo: nat, mid: nat, hi: nat)
    requires WellMapped(pages, a) && WellMapped(pages, b) && WellMapped(pages, c) && lo <= mid <= hi
    requires Outside(pages, a, b, lo, mid) && Outside(pages, b, c, mid, hi)
    ensures Outside(pages, a, c, lo, hi)
  {
    hide ByteAt, WellMapped;
  }
}
