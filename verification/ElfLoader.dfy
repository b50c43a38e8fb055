/** Loading the segments of an ELF file (src/kernel/fs/elf_loader.c:103-184, 217-238). */
module ElfLoader {
  import opened Errno
  import opened Words
  import opened UserMemory

  const USER_CODE_BASE: nat := 0x0804_8000
  const USER_SPACE_END: nat := 0x8000_0000
  const READ_CHUNK: nat := 512

  /** A program header; load says that it is of type PT_LOAD. */
  datatype Phdr = Phdr(load: bool, offset: nat, vaddr: nat, filesz: nat, memsz: nat) {
    predicate Valid() {
      offset < TWO32 && vaddr < TWO32 && filesz < TWO32 && memsz < TWO32
    }

    /** Where the segment goes, in 32-bit arithmetic. */
    function At(base: nat): (a: nat)
      ensures a < TWO32
    {
      (vaddr + base) % TWO32
    }

    function FirstPage(base: nat): nat {
      At(base) / PAGE
    }

    /** Page v belongs to the segment: it ends after the segment starts, and starts before the segment ends. */
    predicate Covers(base: nat, v: nat) {
      load && memsz > 0 && At(base) < (v + 1) * PAGE && v * PAGE < At(base) + memsz
    }
  }

  /** A segment that lies in user space and does not wrap around, or one that is not loaded at all. */
  predicate Placeable(ph: Phdr, base: nat) {
    ph.load && ph.memsz > 0 ==>
      USER_CODE_BASE <= ph.At(base) < USER_SPACE_END && ph.At(base) + ph.memsz + PAGE - 1 < TWO32
  }

  /** The pages of a segment, counted as map_segment_streaming does. */
  lemma CoversPages(ph: Phdr, base: nat, v: nat)
    requires ph.load && ph.memsz > 0
    ensures ph.Covers(base, v) <==> ph.FirstPage(base) <= v < (ph.At(base) + ph.memsz + PAGE - 1) / PAGE
  {
  }

  /** Every address of the segment is mapped. */
  ghost predicate AddressesMapped(pages: map<nat, nat>, ph: Phdr, base: nat) {
    var start := (ph.vaddr + base) % TWO32;
    forall a: nat :: start <= a < start + ph.memsz ==> Mapped(pages, a)
  }

  /** Every address of the segment has its byte: that of the file as far as p_filesz and the file go, then 0. */
  ghost predicate AddressesHold(file: seq<byte>, pages: map<nat, nat>, frames: Frames, ph: Phdr, base: nat)
    requires WellMapped(pages, frames)
  {
    var start := (ph.vaddr + base) % TWO32;
    forall a: nat :: start <= a < start + ph.memsz ==>
      && Mapped(pages, a)
      && ByteAt(pages, frames, a) == if a - start < ph.filesz && ph.offset + (a - start) < |file|
                                     then file[ph.offset + (a - start)] else 0
  }

  /** No address of the segment is in page v. */
  predicate NoAddressIn(ph: Phdr, base: nat, v: nat) {
    var start := (ph.vaddr + base) % TWO32;
    !ph.load || ph.memsz == 0 || (v + 1) * PAGE <= start || start + ph.memsz <= v * PAGE
  }

  lemma CoversAddress(ph: Phdr, base: nat, a: nat)
    requires ph.load && ph.At(base) <= a < ph.At(base) + ph.memsz
    ensures ph.Covers(base, a / PAGE)
  {
  }

  lemma HoldsAddress(file: seq<byte>, pages: map<nat, nat>, frames: Frames, ph: Phdr, base: nat, a: nat)
    requires WellMapped(pages, frames) && a / PAGE in pages
    requires frames[pages[a / PAGE]] == SegPage(file, ph, base, a / PAGE)
    ensures Holds(pages, frames, a, SegByte(file, ph, base, a))
  {
    assert a == a / PAGE * PAGE + a % PAGE;
  }

  /** What the pages hold, address by address. */
  lemma LoadedAddresses(file: seq<byte>, pages: map<nat, nat>, frames: Frames, ph: Phdr, base: nat)
    requires WellMapped(pages, frames) && ph.load && Loaded(file, pages, frames, ph, base)
    ensures AddressesHold(file, pages, frames, ph, base)
  {
    hide SegPage, WellMapped;
    var start := (ph.vaddr + base) % TWO32;
    forall a: nat | start <= a < start + ph.memsz
      ensures Mapped(pages, a) && ByteAt(pages, frames, a)
                                  == if a - start < ph.filesz && ph.offset + (a - start) < |file|
                                     then file[ph.offset + (a - start)] else 0
    {
      CoversAddress(ph, base, a);
      HoldsAddress(file, pages, frames, ph, base, a);
    }
  }

  lemma MappedAddresses(pages: map<nat, nat>, ph: Phdr, base: nat)
    requires ph.load && forall v :: ph.Covers(base, v) ==> v in pages
    ensures AddressesMapped(pages, ph, base)
  {
    hide Phdr.Covers;
    forall a: nat | ph.At(base) <= a < ph.At(base) + ph.memsz
      ensures Mapped(pages, a)
    {
      CoversAddress(ph, base, a);
    }
  }

  lemma NoAddressKept(p0: map<nat, nat>, f0: Frames, pages: map<nat, nat>, frames: Frames, ph: Phdr, base: nat)
    requires OthersKept(p0, f0, pages, frames, ph, base)
    ensures forall v :: NoAddressIn(ph, base, v) ==> PageKept(p0, f0, pages, frames, v)
  {
    hide PageKept;
    forall v | NoAddressIn(ph, base, v)
      ensures PageKept(p0, f0, pages, frames, v)
    {
      assert !ph.Covers(base, v);
    }
  }

  /** The byte that belongs at address a of the segment: from the file, or zero. */
  function SegByte(file: seq<byte>, ph: Phdr, base: nat, a: nat): byte {
    if ph.At(base) <= a < ph.At(base) + ph.filesz && ph.offset + (a - ph.At(base)) < |file|
    then file[ph.offset + (a - ph.At(base))] else 0
  }

  /** Page v of the segment as a whole. */
  function SegPage(file: seq<byte>, ph: Phdr, base: nat, v: nat): (s: seq<byte>)
    ensures |s| == PAGE
    ensures forall i :: 0 <= i < PAGE ==> s[i] == SegByte(file, ph, base, v * PAGE + i)
  {
    seq(PAGE, i requires 0 <= i < PAGE => SegByte(file, ph, base, v * PAGE + i))
  }

  /** How many file bytes lie before page v. */
  function Before(ph: Phdr, base: nat, v: nat): nat {
    if v * PAGE <= ph.At(base) then 0 else if v * PAGE - ph.At(base) < ph.filesz then v * PAGE - ph.At(base) else ph.filesz
  }

  /** Where the file bytes start in page v. */
  function StartIn(ph: Phdr, base: nat, v: nat): (s: nat)
    ensures s < PAGE
  {
    if v == ph.FirstPage(base) then ph.At(base) % PAGE else 0
  }

  /** How many file bytes go into page v. */
  function CountIn(ph: Phdr, base: nat, v: nat): nat {
    Min(ph.filesz - Before(ph, base, v), PAGE - StartIn(ph, base, v))
  }

  lemma NextBefore(ph: Phdr, base: nat, v: nat)
    requires ph.FirstPage(base) <= v
    ensures Before(ph, base, v) <= ph.filesz
    ensures Before(ph, base, v + 1) == Before(ph, base, v) + CountIn(ph, base, v)
  {
  }

  /** What the file holds of the n bytes at from: fewer, if it ends before. */
  function Held(file: seq<byte>, from: nat, n: nat): (s: seq<byte>)
    ensures |s| == if from >= |file| then 0 else Min(n, |file| - from)
  {
    if from >= |file| then [] else file[from..from + Min(n, |file| - from)]
  }

  /** Zeroes with the right part of the file make the page, however short the file is. */
  lemma PageIs(file: seq<byte>, ph: Phdr, base: nat, v: nat)
    requires ph.FirstPage(base) <= v
    ensures var from := ph.offset + Before(ph, base, v);
            Splice(Zeros(PAGE), StartIn(ph, base, v), Held(file, from, CountIn(ph, base, v))) == SegPage(file, ph, base, v)
  {
    var from, start, n := ph.offset + Before(ph, base, v), StartIn(ph, base, v), CountIn(ph, base, v);
    var l, r := Splice(Zeros(PAGE), start, Held(file, from, n)), SegPage(file, ph, base, v);
    forall i | 0 <= i < PAGE
      ensures l[i] == r[i]
    {
      SliceByte(ph, base, v, i);
    }
  }

  /** Byte i of page v is a file byte exactly when it lies in the slice. */
  lemma SliceByte(ph: Phdr, base: nat, v: nat, i: nat)
    requires ph.FirstPage(base) <= v && i < PAGE
    ensures var a, start := v * PAGE + i, StartIn(ph, base, v);
            && (ph.At(base) <= a < ph.At(base) + ph.filesz <==> start <= i < start + CountIn(ph, base, v))
            && (start <= i ==> a - ph.At(base) == Before(ph, base, v) + (i - start) || i >= start + CountIn(ph, base, v))
  {
  }

  // ----- The loader -----

  class Loader {
    const file: seq<byte>
    var pos: nat
    var pages: map<nat, nat>
    var frames: Frames
    ghost var short: bool         // a read came back empty before the end of the file
    ghost var denied: nat         // seeks, frames and mappings that were refused

    constructor (f: seq<byte>, p: map<nat, nat>, fr: Frames)
      requires WellMapped(p, fr)
      ensures Valid() && file == f && pages == p && frames == fr && !short
    {
      file, pos, pages, frames, short := f, 0, p, fr, false;
    }

    ghost predicate Valid()
      reads this
    {
      WellMapped(pages, frames)
    }

    /** vfs_read: some of what was asked for, or nothing at the end of the file or on an error. */
    method Read(len: nat) returns (out: seq<byte>)
      requires len > 0
      modifies this`pos, this`short
      ensures |out| <= len
      ensures out == [] ==> pos == old(pos) && short == (old(short) || pos < |file|)
      ensures out != [] ==> short == old(short) && pos == old(pos) + |out| <= |file| && out == file[old(pos)..pos]
    {
      var r: int := *;
      if r <= 0 || r > len || pos + r > |file| {
        short := short || pos < |file|;
        return [];
      }
      out := file[pos..pos + r];
      pos := pos + r;
    }

    /** Fill one frame: zeroes, then the n file bytes from start on, in chunks of any size. */
    method FillPage(start: nat, n: nat) returns (page: seq<byte>, total: nat)
      requires start + n <= PAGE
      modifies this`pos, this`short
      ensures |page| == PAGE && (old(short) ==> short) && total <= n
      ensures !short ==> total == |Held(file, old(pos), n)| && pos == old(pos) + total
      ensures !short ==> page == Splice(Zeros(PAGE), start, Held(file, old(pos), n))
    {
      hide Splice;
      page, total := Zeros(PAGE), 0;
      ghost var p0 := pos;
      SpliceNone(file, p0, start);
      while total < n
        invariant total <= n && |page| == PAGE && (old(short) ==> short)
        invariant !short ==> pos == p0 + total && (total > 0 ==> pos <= |file|)
        invariant !short ==> page == Splice(Zeros(PAGE), start, Held(file, p0, total))
      {
        var chunk := n - total;
        if chunk > READ_CHUNK {
          chunk := READ_CHUNK;
        }
        var buf := Read(chunk);
        if buf == [] {
          break;
        }
        if !short {
          SpliceMore(page, start, total, file, p0, buf);
        }
        page := Splice(page, start + total, buf);
        total := total + |buf|;
      }
    }

    /** The loop over the pages of a segment. */
    method MapPages(ph: Phdr, base: nat) returns (rc: int)
      requires Valid() && ph.Valid() && base < TWO32 && ph.load && ph.memsz > 0 && Placeable(ph, base)
               && pos == ph.offset
      modifies this
      ensures Valid() && rc <= 0 && (old(short) ==> short)
      ensures rc == 0 && !short ==> Loaded(file, pages, frames, ph, base)
      ensures rc == 0 ==> AddressesMapped(pages, ph, base)
      ensures OthersKept(old(pages), old(frames), pages, frames, ph, base)
      ensures denied >= old(denied) && (rc < 0 ==> denied > old(denied) && (rc == -ENOMEM || rc == -EIO))
    {
      hide SegPage, WellMapped, Before, StartIn, CountIn, Phdr.Covers, AddressesMapped, OthersKept;
      KeptStart(pages, frames, ph, base);
      var actual := ph.At(base);
      var first, limit := actual / PAGE, (actual + ph.memsz + PAGE - 1) / PAGE;
      var remaining: nat := ph.filesz;
      var v := first;
      BeforeFirst(ph, base);
      while v < limit
        invariant first <= v <= limit && Valid() && (old(short) ==> short)
        invariant !short ==> Before(ph, base, v) <= ph.filesz
        invariant !short ==> remaining == ph.filesz - |Held(file, ph.offset, Before(ph, base, v))|
        invariant !short ==> pos == ph.offset + |Held(file, ph.offset, Before(ph, base, v))|
        invariant forall w :: first <= w < v ==> w in pages
        invariant !short ==> forall w :: first <= w < v ==> pages[w] in frames && frames[pages[w]] == SegPage(file, ph, base, w)
        invariant OthersKept(old(pages), old(frames), pages, frames, ph, base) && denied == old(denied)
      {
        var choice: int := *;
        if choice <= 0 || choice in frames {
          denied := denied + 1;
          return -ENOMEM;
        }
        var f: nat := choice;
        var start := if v == first then actual % PAGE else 0;
        var n := if remaining > PAGE - start then PAGE - start else remaining;
        CountIs(ph, base, v);
        NextBefore(ph, base, v);
        ghost var p0 := pos;
        var page, got := FillPage(start, n);
        if !short {
          PageDone(file, ph, base, v, p0, start, n);
        }
        remaining := remaining - got;
        var mapped: bool := *;
        if !mapped {
          denied := denied + 1;
          return -EIO;
        }
        CoversPages(ph, base, v);
        MapOne(pages, frames, v, f, page);
        KeptOne(old(pages), old(frames), pages, frames, ph, base, v, f, page);
        frames := frames[f := page];
        pages := pages[v := f];
        v := v + 1;
      }
      forall w: nat
        ensures ph.Covers(base, w) <==> first <= w < limit
      {
        CoversPages(ph, base, w);
      }
      MappedAddresses(pages, ph, base);
      rc := 0;
    }

    /**
     * map_segment_streaming: a fresh frame for every page of the segment, so that every address of it is mapped. If no
     * read came back empty before the end of the file, each has its file byte or zero. Whatever happens, a page without
     * such an address keeps its contents.
     */
    method MapSegment(ph: Phdr, base: nat) returns (rc: int)
      requires Valid() && ph.Valid() && base < TWO32
      modifies this
      ensures Valid() && rc <= 0 && (old(short) ==> short)
      ensures rc == 0 && !short && ph.load && ph.memsz > 0 ==> Loaded(file, pages, frames, ph, base)
      ensures rc == 0 && ph.load ==> AddressesMapped(pages, ph, base)
      ensures rc == 0 && ph.load && !short ==> AddressesHold(file, pages, frames, ph, base)
      ensures OthersKept(old(pages), old(frames), pages, frames, ph, base)
      ensures forall v :: NoAddressIn(ph, base, v) ==> PageKept(old(pages), old(frames), pages, frames, v)
      ensures rc == 0 ==> Placeable(ph, base)
      ensures !Placeable(ph, base) ==>
                && rc == (if USER_CODE_BASE <= ph.At(base) < USER_SPACE_END then -EOVERFLOW else -EFAULT)
                && pages == old(pages) && frames == old(frames)
      ensures denied >= old(denied)
              && (rc < 0 && Placeable(ph, base) ==> denied > old(denied) && (rc == -ENOMEM || rc == -EIO))
      ensures !ph.load || ph.memsz == 0 ==>
                rc == 0 && pages == old(pages) && frames == old(frames) && short == old(short)
    {
      hide SegPage, WellMapped, Loaded, OthersKept, NoAddressIn, PageKept;
      KeptStart(pages, frames, ph, base);
      NoAddressKept(pages, frames, pages, frames, ph, base);
      if !ph.load || ph.memsz == 0 {
        return 0;
      }
      var actual := ph.At(base);
      if actual < USER_CODE_BASE || actual >= USER_SPACE_END {
        return -EFAULT;
      }
      if actual + ph.memsz + PAGE - 1 >= TWO32 {
        return -EOVERFLOW;
      }
      var sought: bool := *;
      if !sought {
        denied := denied + 1;
        return -EIO;
      }
      pos := ph.offset;
      rc := MapPages(ph, base);
      NoAddressKept(old(pages), old(frames), pages, frames, ph, base);
      if rc == 0 && !short {
        LoadedAddresses(file, pages, frames, ph, base);
      }
    }

    /**
     * elf_load_segments. If no read came back empty before the end of the file, every page that some segment covers holds what the last such
     * segment puts there; no other page changes. brk is the largest page-rounded end of a loadable segment.
     */
    method LoadSegments(phs: seq<Phdr>, base: nat) returns (rc: int, brk: nat)
      requires Valid() && base < TWO32 && forall i :: 0 <= i < |phs| ==> phs[i].Valid()
      modifies this
      ensures Valid() && rc <= 0
      ensures rc == 0 ==> ImageOf(file, phs, base, |phs|, old(pages), old(frames), pages, frames, short)
      ensures rc == 0 ==> forall i :: 0 <= i < |phs| ==> Placeable(phs[i], base)
      ensures rc < 0 && (forall i :: 0 <= i < |phs| ==> Placeable(phs[i], base)) ==> denied > old(denied)
      ensures rc == 0 ==> (forall i :: 0 <= i < |phs| && phs[i].load && FitsEnd(phs[i], base) ==> RoundedEnd(phs[i], base) <= brk)
      ensures rc == 0 ==> brk == 0 || exists i :: 0 <= i < |phs| && phs[i].load && FitsEnd(phs[i], base) && brk == RoundedEnd(phs[i], base)
    {
      hide SegPage, WellMapped, ImageOf, Loaded, OthersKept;
      brk := 0;
      var i := 0;
      ImageStart(file, phs, base, pages, frames, short);
      while i < |phs|
        invariant i <= |phs| && Valid() && denied >= old(denied)
        invariant forall k :: 0 <= k < i ==> Placeable(phs[k], base)
        invariant ImageOf(file, phs, base, i, old(pages), old(frames), pages, frames, short)
        invariant forall k :: 0 <= k < i && phs[k].load && FitsEnd(phs[k], base) ==> RoundedEnd(phs[k], base) <= brk
        invariant brk == 0 || exists k :: 0 <= k < i && phs[k].load && FitsEnd(phs[k], base) && brk == RoundedEnd(phs[k], base)
      {
        ghost var pg, fr, sh := pages, frames, short;
        rc := MapSegment(phs[i], base);
        if rc < 0 {
          return;
        }
        ImageStep(file, phs, base, i, old(pages), old(frames), pg, fr, sh, pages, frames, short);
        if phs[i].load {
          var end := phs[i].vaddr + base + phs[i].memsz + PAGE - 1;
          if end < TWO32 {
            var rounded := end / PAGE * PAGE;
            if rounded > brk {
              brk := rounded;
            }
          }
        }
        i := i + 1;
      }
      rc := 0;
    }
  }

  lemma SpliceNone(file: seq<byte>, p0: nat, start: nat)
    requires start <= PAGE
    ensures Zeros(PAGE) == Splice(Zeros(PAGE), start, Held(file, p0, 0))
  {
  }

  lemma SpliceMore(page: seq<byte>, start: nat, total: nat, file: seq<byte>, p0: nat, buf: seq<byte>)
    requires start + total + |buf| <= PAGE && p0 + total + |buf| <= |file|
    requires buf == file[p0 + total..p0 + total + |buf|] != []
    requires page == Splice(Zeros(PAGE), start, Held(file, p0, total))
    ensures Splice(page, start + total, buf) == Splice(Zeros(PAGE), start, Held(file, p0, total + |buf|))
  {
  }

  /** Every page of the segment is mapped and holds what it should. */
  ghost predicate Loaded(file: seq<byte>, pages: map<nat, nat>, frames: Frames, ph: Phdr, base: nat) {
    forall v :: ph.Covers(base, v) ==> v in pages && pages[v] in frames && frames[pages[v]] == SegPage(file, ph, base, v)
  }

  /** Pages outside the segment are mapped as before, with the same contents. */
  ghost predicate OthersKept(pages: map<nat, nat>, frames: Frames, pg: map<nat, nat>, fr: Frames, ph: Phdr, base: nat) {
    forall v :: !ph.Covers(base, v) ==> PageKept(pages, frames, pg, fr, v)
  }

  ghost predicate PageKept(pages: map<nat, nat>, frames: Frames, pg: map<nat, nat>, fr: Frames, v: nat) {
    && (v in pages <==> v in pg)
    && (v in pages && pages[v] in frames ==> pg[v] in fr && fr[pg[v]] == frames[pages[v]])
  }

  lemma KeptStart(pages: map<nat, nat>, frames: Frames, ph: Phdr, base: nat)
    ensures OthersKept(pages, frames, pages, frames, ph, base)
  {
  }

  lemma BeforeFirst(ph: Phdr, base: nat)
    ensures Before(ph, base, ph.FirstPage(base)) == 0
  {
  }

  lemma CountIs(ph: Phdr, base: nat, v: nat)
    requires ph.FirstPage(base) <= v
    ensures Before(ph, base, v) <= ph.filesz
    ensures StartIn(ph, base, v) == if v == ph.FirstPage(base) then ph.At(base) % PAGE else 0
    ensures var rest, start := ph.filesz - Before(ph, base, v), StartIn(ph, base, v);
            CountIn(ph, base, v) == if rest > PAGE - start then PAGE - start else rest
  {
  }

  /** Reading on from where the last page ended gives this page, and the position where the next one starts. */
  lemma PageDone(file: seq<byte>, ph: Phdr, base: nat, v: nat, p0: nat, start: nat, n: nat)
    requires ph.FirstPage(base) <= v && Before(ph, base, v) <= ph.filesz
    requires p0 == ph.offset + |Held(file, ph.offset, Before(ph, base, v))| && start == StartIn(ph, base, v)
    requires n == Min(ph.filesz - |Held(file, ph.offset, Before(ph, base, v))|, PAGE - start)
    ensures Splice(Zeros(PAGE), start, Held(file, p0, n)) == SegPage(file, ph, base, v)
    ensures p0 + |Held(file, p0, n)| == ph.offset + |Held(file, ph.offset, Before(ph, base, v + 1))|
  {
    hide SegPage, Before, StartIn;
    PageIs(file, ph, base, v);
    NextBefore(ph, base, v);
    assert Held(file, p0, n) == Held(file, ph.offset + Before(ph, base, v), CountIn(ph, base, v));
  }

  lemma MapOne(pages: map<nat, nat>, frames: Frames, v: nat, f: nat, page: seq<byte>)
    requires WellMapped(pages, frames) && f > 0 && f !in frames && |page| == PAGE
    ensures WellMapped(pages[v := f], frames[f := page])
    ensures forall w :: w in pages && w != v ==> pages[w] in frames && frames[f := page][pages[w]] == frames[pages[w]]
  {
  }

  lemma KeptOne(p0: map<nat, nat>, f0: Frames, pages: map<nat, nat>, frames: Frames, ph: Phdr, base: nat, v: nat,
      f: nat, page: seq<byte>)
    requires WellMapped(pages, frames) && f !in frames && ph.Covers(base, v)
             && OthersKept(p0, f0, pages, frames, ph, base)
    ensures OthersKept(p0, f0, pages[v := f], frames[f := page], ph, base)
  {
    forall w | !ph.Covers(base, w)
      ensures PageKept(p0, f0, pages[v := f], frames[f := page], w)
    {
      assert PageKept(p0, f0, pages, frames, w);
    }
  }

  // ----- All segments -----

  predicate FitsEnd(ph: Phdr, base: nat) {
    ph.vaddr + base + ph.memsz + PAGE - 1 < TWO32
  }

  function RoundedEnd(ph: Phdr, base: nat): nat {
    (ph.vaddr + base + ph.memsz + PAGE - 1) / PAGE * PAGE
  }

  /** The last of the first n segments that covers page v; -1 if none does. */
  function LastCover(phs: seq<Phdr>, base: nat, v: nat, n: nat): (j: int)
    requires n <= |phs|
    ensures -1 <= j < n && (j >= 0 ==> phs[j].Covers(base, v))
    ensures forall k :: j < k < n ==> !phs[k].Covers(base, v)
  {
    if n == 0 then -1 else if phs[n - 1].Covers(base, v) then n - 1 else LastCover(phs, base, v, n - 1)
  }

  /** Page v is as the first n segments should leave it; if a read came back empty, only the uncovered pages are known. */
  ghost predicate PageOk(file: seq<byte>, phs: seq<Phdr>, base: nat, n: nat, p0: map<nat, nat>, f0: Frames,
      pages: map<nat, nat>, frames: Frames, short: bool, v: nat)
    requires n <= |phs|
  {
    var j := LastCover(phs, base, v, n);
    if j < 0 then PageKept(p0, f0, pages, frames, v)
    else !short ==> v in pages && pages[v] in frames && frames[pages[v]] == SegPage(file, phs[j], base, v)
  }

  ghost predicate ImageOf(file: seq<byte>, phs: seq<Phdr>, base: nat, n: nat, p0: map<nat, nat>, f0: Frames,
      pages: map<nat, nat>, frames: Frames, short: bool)
    requires n <= |phs|
  {
    forall v: nat :: PageOk(file, phs, base, n, p0, f0, pages, frames, short, v)
  }

  lemma ImageStart(file: seq<byte>, phs: seq<Phdr>, base: nat, pages: map<nat, nat>, frames: Frames, short: bool)
    ensures ImageOf(file, phs, base, 0, pages, frames, pages, frames, short)
  {
  }

  lemma ImageStep(file: seq<byte>, phs: seq<Phdr>, base: nat, n: nat, p0: map<nat, nat>, f0: Frames,
                  pg: map<nat, nat>, fr: Frames, sh: bool, pages: map<nat, nat>, frames: Frames, short: bool)
    requires n < |phs| && ImageOf(file, phs, base, n, p0, f0, pg, fr, sh) && (sh ==> short)
    requires OthersKept(pg, fr, pages, frames, phs[n], base) && WellMapped(pg, fr)
    requires !short && phs[n].load && phs[n].memsz > 0 ==> Loaded(file, pages, frames, phs[n], base)
    ensures ImageOf(file, phs, base, n + 1, p0, f0, pages, frames, short)
  {
    hide SegPage;
    var m := n + 1;
    forall v: nat
      ensures PageOk(file, phs, base, m, p0, f0, pages, frames, short, v)
    {
      assert PageOk(file, phs, base, n, p0, f0, pg, fr, sh, v);
      if !phs[n].Covers(base, v) {
        assert PageKept(pg, fr, pages, frames, v);
      }
    }
  }

  /**
   * Segments on pages of their own are all intact: every address of segment i has its file byte, or zero from p_filesz
   * or the end of the file on, if no other segment has an address in the same page.
   */
  lemma DisjointIntact(file: seq<byte>, phs: seq<Phdr>, base: nat, p0: map<nat, nat>, f0: Frames, pages: map<nat, nat>,
      frames: Frames, i: nat, a: nat)
    requires ImageOf(file, phs, base, |phs|, p0, f0, pages, frames, false) && WellMapped(pages, frames)
    requires i < |phs| && phs[i].load
             && (phs[i].vaddr + base) % TWO32 <= a < (phs[i].vaddr + base) % TWO32 + phs[i].memsz
    requires forall j :: 0 <= j < |phs| && j != i ==> NoAddressIn(phs[j], base, a / PAGE)
    ensures var at := a - (phs[i].vaddr + base) % TWO32;
            Holds(pages, frames, a, if at < phs[i].filesz && phs[i].offset + at < |file| then file[phs[i].offset + at] else 0)
  {
    hide WellMapped, SegPage, PageKept;
    assert PageOk(file, phs, base, |phs|, p0, f0, pages, frames, false, a / PAGE);
    CoversAddress(phs[i], base, a);
    assert LastCover(phs, base, a / PAGE, |phs|) == i;
    HoldsAddress(file, pages, frames, phs[i], base, a);
  }

  /** A page without an address of any segment is as it was. */
  lemma ElsewhereKept(file: seq<byte>, phs: seq<Phdr>, base: nat, p0: map<nat, nat>, f0: Frames, pages: map<nat, nat>,
      frames: Frames, short: bool, v: nat)
    requires ImageOf(file, phs, base, |phs|, p0, f0, pages, frames, short)
    requires forall j :: 0 <= j < |phs| ==> NoAddressIn(phs[j], base, v)
    ensures PageKept(p0, f0, pages, frames, v)
  {
    assert PageOk(file, phs, base, |phs|, p0, f0, pages, frames, short, v);
    assert LastCover(phs, base, v, |phs|) == -1;
  }
}
