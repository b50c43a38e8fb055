/** The stack that execve hands to a new program (src/kernel/core/exec.c:110-218). */
module ExecStack {
  import opened Errno
  import opened Words
  import opened UserMemory

  const STACK_TOP: nat := 0x7FFF_F000       // USER_STACK_BASE - 4096
  const MAX_ARG_LEN: nat := 4096
  const MAX_EXEC_ARGS: nat := 64
  const MAX_EXEC_ENVS: nat := 32

  type CString = s: seq<byte> | 0 !in s && |s| < MAX_ARG_LEN witness []

  // ----- What goes where -----

  /** The strings one after the other, each with its zero byte. */
  function Blob(strs: seq<CString>): seq<byte> {
    if |strs| == 0 then [] else Blob(strs[..|strs| - 1]) + strs[|strs| - 1] + [0]
  }

  lemma BlobSnoc(strs: seq<CString>, s: CString)
    ensures Blob(strs + [s]) == Blob(strs) + s + [0]
  {
    assert (strs + [s])[..|strs|] == strs;
  }

  lemma {:induction false} BlobBound(strs: seq<CString>)
    ensures |Blob(strs)| <= MAX_ARG_LEN * |strs|
    decreases |strs|
  {
    if |strs| > 0 {
      BlobBound(strs[..|strs| - 1]);
    }
  }

  lemma {:induction false} BlobPrefix(strs: seq<CString>, i: nat)
    requires i < |strs|
    ensures |Blob(strs[..i])| + |strs[i]| + 1 <= |Blob(strs)|
    ensures Blob(strs)[|Blob(strs[..i])|..|Blob(strs[..i])| + |strs[i]| + 1] == strs[i] + [0]
    decreases |strs|
  {
    var n := |strs| - 1;
    if i == n {
      assert Blob(strs) == Blob(strs[..n]) + (strs[n] + [0]);
    } else {
      BlobPrefix(strs[..n], i);
      assert strs[..n][..i] == strs[..i];
      var k := |Blob(strs[..i])|;
      assert Blob(strs)[k..k + |strs[i]| + 1] == Blob(strs[..n])[k..k + |strs[i]| + 1];
    }
  }

  /** The addresses of the strings, when the first one is at base. */
  function Pointers(base: nat, strs: seq<CString>): (ps: seq<nat>)
    ensures |ps| == |strs|
    ensures forall i :: 0 <= i < |ps| ==> ps[i] == base + |Blob(strs[..i])|
  {
    seq(|strs|, i requires 0 <= i < |strs| => base + |Blob(strs[..i])|)
  }

  datatype Layout = Layout(argcAddr: nat, argvStart: nat, envpStart: nat, auxvAddr: nat, stringsAddr: nat)

  /** The address computation, with its two roundings. */
  function Place(argc: nat, envc: nat, stringsSize: nat, auxvCount: nat): Layout
    requires argc <= MAX_EXEC_ARGS && envc <= MAX_EXEC_ENVS && auxvCount <= 14
    requires stringsSize <= MAX_ARG_LEN * (argc + envc)
  {
    var strings := (STACK_TOP - stringsSize) / 4 * 4;
    var auxv := strings - auxvCount * 4;
    var envp := auxv - (envc + 1) * 4;
    var argv := envp - (argc + 1) * 4;
    var argcAddr := (argv - 4) / 16 * 16;
    var argvStart := argcAddr + 4;
    var envpStart := argvStart + (argc + 1) * 4;
    var auxvAddr := envpStart + (envc + 1) * 4;
    Layout(argcAddr, argvStart, envpStart, auxvAddr, auxvAddr + auxvCount * 4)
  }

  /**
   * The areas follow each other without overlap, from the last multiple of 16 that leaves room for them below the stack
   * top; below it there is room for the call frame.
   */
  lemma PlaceOk(argc: nat, envc: nat, stringsSize: nat, auxvCount: nat)
    requires argc <= MAX_EXEC_ARGS && envc <= MAX_EXEC_ENVS && auxvCount <= 14
    requires stringsSize <= MAX_ARG_LEN * (argc + envc)
    ensures var l := Place(argc, envc, stringsSize, auxvCount);
            && 16 <= l.argcAddr && l.argcAddr % 16 == 0 && l.argvStart == l.argcAddr + 4
            && l.envpStart == l.argvStart + 4 * (argc + 1) && l.auxvAddr == l.envpStart + 4 * (envc + 1)
            && l.stringsAddr == l.auxvAddr + 4 * auxvCount && l.stringsAddr + stringsSize <= STACK_TOP
  {
  }

  lemma PlaceSnug(argc: nat, envc: nat, stringsSize: nat, auxvCount: nat)
    requires argc <= MAX_EXEC_ARGS && envc <= MAX_EXEC_ENVS && auxvCount <= 14
    requires stringsSize <= MAX_ARG_LEN * (argc + envc)
    ensures Snug(Place(argc, envc, stringsSize, auxvCount).argcAddr, 3 + argc + envc + auxvCount, stringsSize)
  {
    var words, room := 3 + argc + envc + auxvCount, STACK_TOP - stringsSize;
    var low := room / 4 * 4 - 4 * words;
    PlaceStart(argc, envc, stringsSize, auxvCount, low);
    hide Place;
    RoundDown(room, room / 4 * 4, 4);
    RoundDown(low, low / 16 * 16, 16);
    LastMultiple(low, low / 16 * 16, room - 4 * words);
  }

  lemma PlaceStart(argc: nat, envc: nat, stringsSize: nat, auxvCount: nat, low: nat)
    requires argc <= MAX_EXEC_ARGS && envc <= MAX_EXEC_ENVS && auxvCount <= 14
    requires stringsSize <= MAX_ARG_LEN * (argc + envc)
    requires low == (STACK_TOP - stringsSize) / 4 * 4 - 4 * (3 + argc + envc + auxvCount)
    ensures Place(argc, envc, stringsSize, auxvCount).argcAddr == low / 16 * 16
  {
  }

  lemma RoundDown(x: nat, y: nat, m: nat)
    requires m == 4 || m == 16
    requires y == x / m * m
    ensures y <= x < y + m && y % m == 0
  {
    if m == 4 {
      assert y == x / 4 * 4;
    } else {
      assert y == x / 16 * 16;
    }
  }

  /** A multiple of 4 that is at most 3 below x is below the same multiples of 16 as x. */
  lemma LastMultiple(low: nat, a: nat, x: nat)
    requires low % 4 == 0 && low <= x < low + 4 && a % 16 == 0 && a <= low < a + 16
    ensures x < a + 16
  {
  }

  /** The last multiple of 16 from which so many words and bytes fit below the stack top. */
  predicate Snug(a: nat, words: nat, bytes: nat) {
    a % 16 == 0 && a + 4 * words + bytes <= 0x7FFF_F000 < a + 16 + 4 * words + bytes
  }

  // ----- Words in memory -----

  function Encode(ws: seq<nat>): (s: seq<byte>)
    requires forall i :: 0 <= i < |ws| ==> ws[i] < TWO32
    ensures |s| == 4 * |ws|
  {
    if |ws| == 0 then [] else Encode(ws[..|ws| - 1]) + PutU32(ws[|ws| - 1])
  }

  lemma EncodeSnoc(ws: seq<nat>, w: nat)
    requires (forall i :: 0 <= i < |ws| ==> ws[i] < TWO32) && w < TWO32
    ensures Encode(ws + [w]) == Encode(ws) + PutU32(w)
  {
    assert (ws + [w])[..|ws|] == ws;
  }

  lemma {:induction false} EncodeAt(ws: seq<nat>, i: nat)
    requires (forall j :: 0 <= j < |ws| ==> ws[j] < TWO32) && i < |ws|
    ensures Encode(ws)[4 * i..4 * i + 4] == PutU32(ws[i])
    decreases |ws|
  {
    hide PutU32;
    var n := |ws| - 1;
    if i < n {
      EncodeAt(ws[..n], i);
      assert Encode(ws)[4 * i..4 * i + 4] == Encode(ws[..n])[4 * i..4 * i + 4];
    }
  }

  lemma {:induction false} EncodeConcat(a: seq<nat>, b: seq<nat>)
    requires forall i :: 0 <= i < |a| ==> a[i] < TWO32
    requires forall i :: 0 <= i < |b| ==> b[i] < TWO32
    ensures Encode(a + b) == Encode(a) + Encode(b)
    decreases |b|
  {
    hide PutU32;
    if |b| == 0 {
      assert a + b == a;
    } else {
      var n := |b| - 1;
      assert (a + b)[..|a + b| - 1] == a + b[..n];
      EncodeConcat(a, b[..n]);
    }
  }

  ghost predicate WordIn(pages: map<nat, nat>, frames: Frames, a: nat, w: nat)
    requires WellMapped(pages, frames) && w < TWO32
  {
    Stored(pages, frames, a, PutU32(w))
  }

  /** A reader takes bytes from a on up to the first zero byte, at most n. */
  ghost function ReadString(pages: map<nat, nat>, frames: Frames, a: nat, n: nat): seq<byte>
    requires WellMapped(pages, frames)
    decreases n
  {
    if n == 0 || !Mapped(pages, a) || ByteAt(pages, frames, a) == 0 then []
    else [ByteAt(pages, frames, a)] + ReadString(pages, frames, a + 1, n - 1)
  }

  /** A reader takes the word at a; -1 if it is not there. */
  ghost function ReadWord(pages: map<nat, nat>, frames: Frames, a: nat): int
    requires WellMapped(pages, frames)
  {
    if Mapped(pages, a) && Mapped(pages, a + 1) && Mapped(pages, a + 2) && Mapped(pages, a + 3) then
      GetU32([ByteAt(pages, frames, a), ByteAt(pages, frames, a + 1), ByteAt(pages, frames, a + 2), ByteAt(pages, frames, a + 3)], 0)
    else -1
  }

  lemma ReadWordIs(pages: map<nat, nat>, frames: Frames, a: nat, w: nat)
    requires WellMapped(pages, frames) && w < TWO32 && WordIn(pages, frames, a, w)
    ensures ReadWord(pages, frames, a) == w
  {
    hide ByteAt, WellMapped, Mapped, GetU32;
    var s := PutU32(w);
    assert Holds(pages, frames, a + 0, s[0]) && Holds(pages, frames, a + 1, s[1]);
    assert Holds(pages, frames, a + 2, s[2]) && Holds(pages, frames, a + 3, s[3]);
    var t := [ByteAt(pages, frames, a), ByteAt(pages, frames, a + 1), ByteAt(pages, frames, a + 2), ByteAt(pages, frames, a + 3)];
    assert t == s && t[0..0 + 4] == s;
    U32At(t, 0, w);
  }

  lemma {:induction false} ReadStringIs(pages: map<nat, nat>, frames: Frames, a: nat, s: seq<byte>, n: nat)
    requires WellMapped(pages, frames) && 0 !in s && |s| < n && Stored(pages, frames, a, s + [0])
    ensures ReadString(pages, frames, a, n) == s
    decreases n
  {
    hide ByteAt, WellMapped, Mapped;
    var t := s + [0];
    assert Holds(pages, frames, a + 0, t[0]);
    if |s| > 0 {
      assert s[0] in s;
      StoredPart(pages, frames, a, t, 1, |t|);
      assert t[1..] == s[1..] + [0];
      assert forall x :: x in s[1..] ==> x in s;
      ReadStringIs(pages, frames, a + 1, s[1..], n - 1);
    }
  }

  // ----- Filling the stack -----

  predicate AllWords(ws: seq<nat>) {
    forall i :: 0 <= i < |ws| ==> ws[i] < TWO32
  }

  /** The words from argc on, and the strings, are in memory as far as they have been written. */
  ghost predicate Filled(pages: map<nat, nat>, frames: Frames, l: Layout, words: seq<nat>, blob: seq<byte>) {
    && WellMapped(pages, frames) && AllWords(words)
    && Stored(pages, frames, l.argcAddr, Encode(words)) && Stored(pages, frames, l.stringsAddr, blob)
  }

  lemma FillWord(pages: map<nat, nat>, was: Frames, now: Frames, l: Layout, words: seq<nat>, blob: seq<byte>, w: nat)
    requires Filled(pages, was, l, words, blob) && WellMapped(pages, now) && w < TWO32
    requires l.argcAddr + 4 * |words| + 4 <= l.stringsAddr
    requires Stored(pages, now, l.argcAddr + 4 * |words|, PutU32(w))
    requires Outside(pages, was, now, l.argcAddr + 4 * |words|, l.argcAddr + 4 * |words| + 4)
    ensures Filled(pages, now, l, words + [w], blob)
  {
    hide Stored, Outside, Encode, PutU32, WellMapped;
    var at := l.argcAddr + 4 * |words|;
    StoredFrame(pages, was, now, l.argcAddr, Encode(words), at, at + 4);
    StoredFrame(pages, was, now, l.stringsAddr, blob, at, at + 4);
    EncodeSnoc(words, w);
    StoredJoin(pages, now, l.argcAddr, Encode(words), PutU32(w));
  }

  lemma FillBytes(pages: map<nat, nat>, was: Frames, now: Frames, l: Layout, words: seq<nat>, blob: seq<byte>,
      more: seq<byte>)
    requires Filled(pages, was, l, words, blob) && WellMapped(pages, now) && l.argcAddr + 4 * |words| <= l.stringsAddr
    requires Stored(pages, now, l.stringsAddr + |blob|, more)
    requires Outside(pages, was, now, l.stringsAddr + |blob|, l.stringsAddr + |blob| + |more|)
    ensures Filled(pages, now, l, words, blob + more)
  {
    hide Stored, Outside, Encode, WellMapped;
    var at := l.stringsAddr + |blob|;
    StoredFrame(pages, was, now, l.argcAddr, Encode(words), at, at + |more|);
    StoredFrame(pages, was, now, l.stringsAddr, blob, at, at + |more|);
    StoredJoin(pages, now, l.stringsAddr, blob, more);
  }

  /** Nothing outside [lo, hi) changed. */
  ghost predicate Touched(pages: map<nat, nat>, was: Frames, now: Frames, lo: nat, hi: nat) {
    WellMapped(pages, was) && WellMapped(pages, now) && Outside(pages, was, now, lo, hi)
  }

  lemma TouchedMore(pages: map<nat, nat>, was: Frames, now: Frames, lo: nat, hi: nat, low: nat, high: nat)
    requires Touched(pages, was, now, lo, hi) && low <= lo && hi <= high
    ensures Touched(pages, was, now, low, high) && (AllMapped(pages, low, high) ==> AllMapped(pages, lo, hi))
  {
    hide WellMapped, Outside, AllMapped;
    OutsideMore(pages, was, now, lo, hi, low, high);
  }

  lemma TouchedTwice(pages: map<nat, nat>, a: Frames, b: Frames, c: Frames, lo: nat, hi: nat)
    requires Touched(pages, a, b, lo, hi) && Touched(pages, b, c, lo, hi)
    ensures Touched(pages, a, c, lo, hi)
  {
    hide WellMapped, Outside;
    OutsideBoth(pages, a, b, c, lo, hi);
  }

  lemma TouchedBy(pages: map<nat, nat>, was: Frames, now: Frames, lo: nat, hi: nat)
    requires WellMapped(pages, was) && WellMapped(pages, now) && Outside(pages, was, now, lo, hi)
    ensures Touched(pages, was, now, lo, hi)
  {
  }

  lemma TouchedNone(pages: map<nat, nat>, frames: Frames, lo: nat, hi: nat)
    requires WellMapped(pages, frames)
    ensures Touched(pages, frames, frames, lo, hi)
  {
  }

  /** Store one string and the pointer to it. */
  method PutString(mem: AddressSpace, ghost l: Layout, ghost words: seq<nat>, ghost blob: seq<byte>, at: nat,
      strPtr: nat, s: CString) returns (rc: int)
    requires Filled(mem.pages, mem.frames, l, words, blob)
    requires at == l.argcAddr + 4 * |words| && at + 4 <= l.stringsAddr && strPtr == l.stringsAddr + |blob|
             && strPtr < TWO32
    modifies mem
    ensures mem.Valid() && rc <= 0
    ensures rc == 0 ==> Filled(mem.pages, mem.frames, l, words + [strPtr], blob + s + [0])
    ensures Touched(mem.pages, old(mem.frames), mem.frames, l.argcAddr, strPtr + |s| + 1)
    ensures mem.refused >= old(mem.refused)
            && (rc < 0 && AllMapped(mem.pages, l.argcAddr, strPtr + |s| + 1) ==> mem.refused > old(mem.refused))
  {
    hide Stored, Outside, Encode, WellMapped, PutU32, AllMapped;
    rc := mem.CopyOut(strPtr, s + [0]);
    TouchedMore(mem.pages, old(mem.frames), mem.frames, strPtr, strPtr + |s| + 1, l.argcAddr, strPtr + |s| + 1);
    if rc < 0 {
      return;
    }
    FillBytes(mem.pages, old(mem.frames), mem.frames, l, words, blob, s + [0]);
    assert blob + (s + [0]) == blob + s + [0];
    ghost var was := mem.frames;
    rc := mem.CopyOut(at, PutU32(strPtr));
    TouchedMore(mem.pages, was, mem.frames, at, at + 4, l.argcAddr, strPtr + |s| + 1);
    TouchedTwice(mem.pages, old(mem.frames), was, mem.frames, l.argcAddr, strPtr + |s| + 1);
    if rc == 0 {
      FillWord(mem.pages, was, mem.frames, l, words, blob + s + [0], strPtr);
    }
  }

  method PutWord(mem: AddressSpace, ghost l: Layout, ghost words: seq<nat>, ghost blob: seq<byte>, at: nat,
      w: nat) returns (rc: int)
    requires Filled(mem.pages, mem.frames, l, words, blob)
    requires at == l.argcAddr + 4 * |words| && at + 4 <= l.stringsAddr && w < TWO32
    modifies mem
    ensures mem.Valid() && rc <= 0
    ensures rc == 0 ==> Filled(mem.pages, mem.frames, l, words + [w], blob)
    ensures Touched(mem.pages, old(mem.frames), mem.frames, l.argcAddr, l.stringsAddr)
    ensures mem.refused >= old(mem.refused)
            && (rc < 0 && AllMapped(mem.pages, l.argcAddr, l.stringsAddr) ==> mem.refused > old(mem.refused))
  {
    hide Stored, Outside, Encode, WellMapped, PutU32, AllMapped;
    rc := mem.CopyOut(at, PutU32(w));
    TouchedMore(mem.pages, old(mem.frames), mem.frames, at, at + 4, l.argcAddr, l.stringsAddr);
    if rc == 0 {
      FillWord(mem.pages, old(mem.frames), mem.frames, l, words, blob, w);
    }
  }

  /** Store the strings, the pointers to them, and the null pointer after those. */
  method PutVector(mem: AddressSpace, ghost l: Layout, ghost words: seq<nat>, ghost before: seq<CString>, at: nat,
      strPtr: nat, strs: seq<CString>)
    returns (rc: int, next: nat)
    requires Filled(mem.pages, mem.frames, l, words, Blob(before))
    requires at == l.argcAddr + 4 * |words| && at + 4 * (|strs| + 1) <= l.stringsAddr
    requires strPtr == l.stringsAddr + |Blob(before)| && l.stringsAddr + |Blob(before + strs)| < TWO32
    modifies mem
    ensures mem.Valid() && rc <= 0
    ensures rc == 0 ==> next == l.stringsAddr + |Blob(before + strs)|
    ensures rc == 0 ==> Filled(mem.pages, mem.frames, l, words + Pointers(strPtr, strs) + [0], Blob(before + strs))
    ensures Touched(mem.pages, old(mem.frames), mem.frames, l.argcAddr, l.stringsAddr + |Blob(before + strs)|)
    ensures mem.refused >= old(mem.refused)
            && (rc < 0 && AllMapped(mem.pages, l.argcAddr, l.stringsAddr + |Blob(before + strs)|) ==> mem.refused > old(mem.refused))
  {
    hide Filled, Blob, Pointers, WellMapped, Touched, AllMapped;
    FilledMeans(mem.pages, mem.frames, l, words, Blob(before));
    ghost var end := l.stringsAddr + |Blob(before + strs)|;
    TouchedNone(mem.pages, mem.frames, l.argcAddr, end);
    next := strPtr;
    var i := 0;
    PointersStart(strPtr, strs);
    assert before + strs[..0] == before && words + Pointers(strPtr, strs[..0]) == words;
    while i < |strs|
      invariant i <= |strs| && mem.Valid()
      invariant next == l.stringsAddr + |Blob(before + strs[..i])|
      invariant |Pointers(strPtr, strs[..i])| == i
      invariant Filled(mem.pages, mem.frames, l, words + Pointers(strPtr, strs[..i]), Blob(before + strs[..i]))
      invariant Touched(mem.pages, old(mem.frames), mem.frames, l.argcAddr, end) && mem.refused >= old(mem.refused)
    {
      BlobStep(before, strs, i);
      PointersStep(strPtr, before, strs, i);
      ghost var was := mem.frames;
      rc := PutString(mem, l, words + Pointers(strPtr, strs[..i]), Blob(before + strs[..i]), at + 4 * i, next, strs[i]);
      TouchedMore(mem.pages, was, mem.frames, l.argcAddr, next + |strs[i]| + 1, l.argcAddr, end);
      TouchedTwice(mem.pages, old(mem.frames), was, mem.frames, l.argcAddr, end);
      if rc < 0 {
        return;
      }
      WordsStep(words, Pointers(strPtr, strs[..i]), next);
      next := next + |strs[i]| + 1;
      i := i + 1;
    }
    assert strs[..i] == strs;
    ghost var was := mem.frames;
    rc := PutWord(mem, l, words + Pointers(strPtr, strs), Blob(before + strs), at + 4 * |strs|, 0);
    TouchedMore(mem.pages, was, mem.frames, l.argcAddr, l.stringsAddr, l.argcAddr, end);
    TouchedTwice(mem.pages, old(mem.frames), was, mem.frames, l.argcAddr, end);
  }

  lemma FilledMeans(pages: map<nat, nat>, frames: Frames, l: Layout, words: seq<nat>, blob: seq<byte>)
    requires Filled(pages, frames, l, words, blob)
    ensures WellMapped(pages, frames)
  {
  }

  lemma PointersStart(base: nat, strs: seq<CString>)
    ensures Pointers(base, strs[..0]) == []
  {
  }

  lemma WordsStep(words: seq<nat>, ps: seq<nat>, p: nat)
    ensures words + ps + [p] == words + (ps + [p])
  {
  }

  lemma BlobStep(before: seq<CString>, strs: seq<CString>, i: nat)
    requires i < |strs|
    ensures Blob(before + strs[..i + 1]) == Blob(before + strs[..i]) + strs[i] + [0]
    ensures |Blob(before + strs[..i])| + |strs[i]| + 1 <= |Blob(before + strs)|
  {
    var all := before + strs;
    assert before + strs[..i + 1] == (before + strs[..i]) + [strs[i]];
    BlobSnoc(before + strs[..i], strs[i]);
    BlobPrefix(all, |before| + i);
    assert all[..|before| + i] == before + strs[..i];
  }

  lemma {:induction false} BlobConcat(a: seq<CString>, b: seq<CString>)
    ensures Blob(a + b) == Blob(a) + Blob(b)
    decreases |b|
  {
    if |b| == 0 {
      assert a + b == a;
    } else {
      var n := |b| - 1;
      assert (a + b)[..|a + b| - 1] == a + b[..n];
      BlobConcat(a, b[..n]);
    }
  }

  lemma PointersStep(base: nat, before: seq<CString>, strs: seq<CString>, i: nat)
    requires i < |strs|
    ensures |Pointers(base, strs[..i])| == i
    ensures Pointers(base, strs[..i + 1]) == Pointers(base, strs[..i]) + [base + |Blob(before + strs[..i])| - |Blob(before)|]
  {
    BlobConcat(before, strs[..i]);
    hide Blob;
    var l, r := Pointers(base, strs[..i + 1]), Pointers(base, strs[..i]) + [base + |Blob(strs[..i])|];
    forall k | 0 <= k <= i
      ensures l[k] == r[k]
    {
      assert strs[..i + 1][..k] == strs[..k];
      assert k < i ==> strs[..i][..k] == strs[..k];
    }
  }

  // ----- The whole stack -----

  /** The seven pairs for the dynamic linker. */
  function Auxv(phdr: nat, phnum: nat, base: nat, entry: nat): (ws: seq<nat>)
    requires phdr < TWO32 && phnum < TWO32 && base < TWO32 && entry < TWO32
    ensures |ws| == 14 && AllWords(ws)
  {
    [3, phdr, 4, 32, 5, phnum, 6, PAGE, 7, base, 9, entry, 0, 0]
  }

  /** argc, the argument pointers and the environment pointers. */
  function Vectors(base: nat, argv: seq<CString>, envp: seq<CString>): (ws: seq<nat>)
    ensures |ws| == 3 + |argv| + |envp|
  {
    [|argv|] + Pointers(base, argv) + [0] + Pointers(base + |Blob(argv)|, envp) + [0]
  }

  function StackWords(base: nat, argv: seq<CString>, envp: seq<CString>, auxv: seq<nat>): seq<nat> {
    Vectors(base, argv, envp) + auxv
  }

  /** The image is complete: argc, the vectors, auxv, and the strings. */
  ghost predicate StackImage(pages: map<nat, nat>, frames: Frames, l: Layout, argv: seq<CString>, envp: seq<CString>,
      auxv: seq<nat>) {
    && l == Placed(argv, envp, |auxv|)
    && Filled(pages, frames, l, StackWords(l.stringsAddr, argv, envp, auxv), Blob(argv + envp))
  }

  function Placed(argv: seq<CString>, envp: seq<CString>, auxvCount: nat): Layout {
    if |argv| <= MAX_EXEC_ARGS && |envp| <= MAX_EXEC_ENVS && auxvCount <= 14 then
      BlobBound(argv + envp);
      Place(|argv|, |envp|, |Blob(argv + envp)|, auxvCount)
    else Layout(0, 0, 0, 0, 0)
  }

  /** The lowest address that is written: argc, or the call frame 16 bytes below it. */
  function LowestFor(argv: seq<CString>, envp: seq<CString>, dynamic: bool): nat {
    var a := Placed(argv, envp, if dynamic then 14 else 0).argcAddr;
    if dynamic || a < 16 then a else a - 16
  }

  /** The call frame for a static program: a null return address, then the arguments of main. */
  ghost predicate CallFrame(pages: map<nat, nat>, frames: Frames, esp: nat, argc: nat, argv: nat, envp: nat)
    requires WellMapped(pages, frames) && argc < TWO32 && argv < TWO32 && envp < TWO32
  {
    WordIn(pages, frames, esp, 0) && WordIn(pages, frames, esp + 4, argc) && WordIn(pages, frames, esp + 8, argv) && WordIn(pages, frames, esp + 12, envp)
  }

  /** The loops that add up the string lengths. */
  method StringsSize(strs: seq<CString>) returns (size: nat)
    ensures size == |Blob(strs)|
  {
    size := 0;
    var i := 0;
    assert Blob(strs[..0]) == [];
    while i < |strs|
      invariant i <= |strs| && size == |Blob(strs[..i])|
    {
      assert strs[..i + 1] == strs[..i] + [strs[i]];
      BlobSnoc(strs[..i], strs[i]);
      size := size + |strs[i]| + 1;
      i := i + 1;
    }
    assert strs[..i] == strs;
  }

  lemma FilledStart(pages: map<nat, nat>, frames: Frames, l: Layout)
    requires WellMapped(pages, frames)
    ensures Filled(pages, frames, l, [], [])
  {
  }

  lemma {:induction false} ExtendWords(pages: map<nat, nat>, was: Frames, now: Frames, l: Layout, words: seq<nat>,
      blob: seq<byte>, more: seq<nat>)
    requires Filled(pages, was, l, words, blob) && WellMapped(pages, now) && AllWords(more)
    requires l.argcAddr + 4 * |words| + 4 * |more| <= l.stringsAddr
    requires Stored(pages, now, l.argcAddr + 4 * |words|, Encode(more))
    requires Outside(pages, was, now, l.argcAddr + 4 * |words|, l.argcAddr + 4 * |words| + 4 * |more|)
    ensures Filled(pages, now, l, words + more, blob)
  {
    hide Stored, Outside, Encode, WellMapped;
    var at := l.argcAddr + 4 * |words|;
    StoredFrame(pages, was, now, l.argcAddr, Encode(words), at, at + 4 * |more|);
    StoredFrame(pages, was, now, l.stringsAddr, blob, at, at + 4 * |more|);
    EncodeConcat(words, more);
    StoredJoin(pages, now, l.argcAddr, Encode(words), Encode(more));
  }

  /** Writing below the image leaves the image alone. */
  lemma FilledFrame(pages: map<nat, nat>, was: Frames, now: Frames, l: Layout, words: seq<nat>, blob: seq<byte>,
      lo: nat, hi: nat)
    requires Filled(pages, was, l, words, blob) && WellMapped(pages, now) && Outside(pages, was, now, lo, hi)
    requires hi <= l.argcAddr <= l.stringsAddr
    ensures Filled(pages, now, l, words, blob)
  {
    hide Stored, Outside, Encode, WellMapped;
    StoredFrame(pages, was, now, l.argcAddr, Encode(words), lo, hi);
    StoredFrame(pages, was, now, l.stringsAddr, blob, lo, hi);
  }

  /** The four words of the call frame. */
  method PutCallFrame(mem: AddressSpace, ghost l: Layout, ghost words: seq<nat>, ghost blob: seq<byte>, esp: nat,
      argc: nat, argv: nat, envp: nat)
    returns (rc: int)
    requires Filled(mem.pages, mem.frames, l, words, blob) && esp + 16 <= l.argcAddr <= l.stringsAddr
    requires argc < TWO32 && argv < TWO32 && envp < TWO32
    modifies mem
    ensures mem.Valid() && rc <= 0
    ensures rc == 0 ==> Filled(mem.pages, mem.frames, l, words, blob) && CallFrame(mem.pages, mem.frames, esp, argc, argv, envp)
    ensures Touched(mem.pages, old(mem.frames), mem.frames, esp, esp + 16)
    ensures mem.refused >= old(mem.refused)
            && (rc < 0 && AllMapped(mem.pages, esp, esp + 16) ==> mem.refused > old(mem.refused))
  {
    hide Stored, Outside, Encode, WellMapped, PutU32, Touched, AllMapped;
    var ws := [0, argc, argv, envp];
    var i := 0;
    TouchedNone(mem.pages, mem.frames, esp, esp + 16);
    while i < 4
      invariant 0 <= i <= 4 && Filled(mem.pages, mem.frames, l, words, blob)
      invariant Touched(mem.pages, old(mem.frames), mem.frames, esp, esp + 16) && mem.refused >= old(mem.refused)
      invariant forall k :: 0 <= k < i ==> WordIn(mem.pages, mem.frames, esp + 4 * k, ws[k])
    {
      ghost var was := mem.frames;
      rc := mem.CopyOut(esp + 4 * i, PutU32(ws[i]));
      TouchedBy(mem.pages, was, mem.frames, esp + 4 * i, esp + 4 * i + 4);
      TouchedMore(mem.pages, was, mem.frames, esp + 4 * i, esp + 4 * i + 4, esp, esp + 16);
      TouchedTwice(mem.pages, old(mem.frames), was, mem.frames, esp, esp + 16);
      if rc < 0 {
        return;
      }
      FilledFrame(mem.pages, was, mem.frames, l, words, blob, esp + 4 * i, esp + 4 * i + 4);
      forall k | 0 <= k < i
        ensures WordIn(mem.pages, mem.frames, esp + 4 * k, ws[k])
      {
        assert WordIn(mem.pages, was, esp + 4 * k, ws[k]);
        StoredFrame(mem.pages, was, mem.frames, esp + 4 * k, PutU32(ws[k]), esp + 4 * i, esp + 4 * i + 4);
      }
      i := i + 1;
    }
    assert WordIn(mem.pages, mem.frames, esp + 4 * 0, ws[0]) && WordIn(mem.pages, mem.frames, esp + 4 * 1, ws[1]);
    assert WordIn(mem.pages, mem.frames, esp + 4 * 2, ws[2]) && WordIn(mem.pages, mem.frames, esp + 4 * 3, ws[3]);
    rc := 0;
  }

  /** The argc word, then both vectors with their strings. */
  method PutVectors(mem: AddressSpace, l: Layout, argv: seq<CString>, envp: seq<CString>) returns (rc: int)
    requires mem.Valid() && |argv| < TWO32 && l.argvStart == l.argcAddr + 4
             && l.envpStart == l.argvStart + 4 * (|argv| + 1)
    requires l.envpStart + 4 * (|envp| + 1) <= l.stringsAddr && l.stringsAddr + |Blob(argv + envp)| < TWO32
    modifies mem
    ensures mem.Valid() && rc <= 0
    ensures rc == 0 ==> Filled(mem.pages, mem.frames, l, Vectors(l.stringsAddr, argv, envp), Blob(argv + envp))
    ensures Touched(mem.pages, old(mem.frames), mem.frames, l.argcAddr, l.stringsAddr + |Blob(argv + envp)|)
    ensures mem.refused >= old(mem.refused)
            && (rc < 0 && AllMapped(mem.pages, l.argcAddr, l.stringsAddr + |Blob(argv + envp)|) ==> mem.refused > old(mem.refused))
  {
    hide Filled, Blob, Pointers, WellMapped, Stored, Outside, Encode, Touched, AllMapped;
    FilledStart(mem.pages, mem.frames, l);
    ghost var f0, lo, hi := mem.frames, l.argcAddr, l.stringsAddr + |Blob(argv + envp)|;
    rc := PutWord(mem, l, [], [], l.argcAddr, |argv|);
    TouchedMore(mem.pages, f0, mem.frames, lo, l.stringsAddr, lo, hi);
    if rc < 0 {
      return;
    }
    assert [] + [|argv|] == [|argv|];
    EmptyBlob();
    BlobConcat(argv, envp);
    assert [] + argv == argv;
    var next;
    ghost var f1 := mem.frames;
    rc, next := PutVector(mem, l, [|argv|], [], l.argvStart, l.stringsAddr, argv);
    TouchedMore(mem.pages, f1, mem.frames, lo, l.stringsAddr + |Blob(argv)|, lo, hi);
    TouchedTwice(mem.pages, f0, f1, mem.frames, lo, hi);
    if rc < 0 {
      return;
    }
    ghost var w1 := [|argv|] + Pointers(l.stringsAddr, argv) + [0];
    PointersLength(l.stringsAddr, argv);
    ghost var f2 := mem.frames;
    rc, next := PutVector(mem, l, w1, argv, l.envpStart, next, envp);
    TouchedTwice(mem.pages, f0, f2, mem.frames, lo, hi);
  }

  /**
   * setup_exec_user_stack: the image is complete, and the stack pointer is a multiple of 16. A dynamically linked program
   * (interpBase not 0) starts at argc; a static one at a call frame below it.
   */
  method SetupStack(mem: AddressSpace, argv: seq<CString>, envp: seq<CString>, phdr: nat, phnum: nat, interpBase: nat,
      entry: nat)
    returns (rc: int, esp: nat)
    requires mem.Valid() && |argv| <= MAX_EXEC_ARGS && |envp| <= MAX_EXEC_ENVS
    requires phdr < TWO32 && phnum < TWO32 && interpBase < TWO32 && entry < TWO32
    modifies mem
    ensures mem.Valid() && (rc == 0 || rc == -EFAULT)
    ensures rc == 0 ==>
              var auxv := if interpBase != 0 then Auxv(phdr, phnum, interpBase, entry) else [];
              var l := Placed(argv, envp, |auxv|);
              && StackImage(mem.pages, mem.frames, l, argv, envp, auxv)
              && esp % 16 == 0 && l.argvStart < TWO32 && l.envpStart < TWO32
              && (if interpBase != 0 then esp == l.argcAddr
                  else esp == l.argcAddr - 16 && CallFrame(mem.pages, mem.frames, esp, |argv|, l.argvStart, l.envpStart))
    ensures rc == 0 && interpBase != 0 ==>
              Snug(esp, 17 + |argv| + |envp|, |Blob(argv + envp)|)
              && StartsDynamic(mem.pages, mem.frames, esp, argv, envp, phdr, phnum, interpBase, entry)
    ensures rc == 0 && interpBase == 0 ==>
              Snug(esp + 16, 3 + |argv| + |envp|, |Blob(argv + envp)|) && StartsStatic(mem.pages, mem.frames, esp, argv, envp)
    ensures var lo := LowestFor(argv, envp, interpBase != 0);
            && Touched(mem.pages, old(mem.frames), mem.frames, lo, STACK_TOP)
            && (rc < 0 && AllMapped(mem.pages, lo, STACK_TOP) ==> mem.refused > old(mem.refused))
  {
    hide Filled, Blob, Vectors, WellMapped, Stored, Outside, Encode, Place, CallFrame, Touched, AllMapped, Snug,
         StartsDynamic, StartsStatic;
    var a := StringsSize(argv);
    var e := StringsSize(envp);
    BlobConcat(argv, envp);
    BlobBound(argv + envp);
    var auxv := if interpBase != 0 then Auxv(phdr, phnum, interpBase, entry) else [];
    var l := Place(|argv|, |envp|, a + e, |auxv|);
    PlaceOk(|argv|, |envp|, a + e, |auxv|);
    PlaceSnug(|argv|, |envp|, a + e, |auxv|);
    esp := 0;
    ghost var lo, hi, end := LowestFor(argv, envp, interpBase != 0), STACK_TOP, l.stringsAddr + |Blob(argv + envp)|;
    ghost var f0 := mem.frames;
    rc := PutVectors(mem, l, argv, envp);
    TouchedMore(mem.pages, f0, mem.frames, l.argcAddr, end, lo, hi);
    if rc < 0 {
      return -EFAULT, 0;
    }
    ghost var w2 := Vectors(l.stringsAddr, argv, envp);
    if interpBase != 0 {
      ghost var was := mem.frames;
      rc := mem.CopyOut(l.auxvAddr, Encode(auxv));
      TouchedBy(mem.pages, was, mem.frames, l.auxvAddr, l.auxvAddr + 4 * |auxv|);
      TouchedMore(mem.pages, was, mem.frames, l.auxvAddr, l.auxvAddr + 4 * |auxv|, lo, hi);
      TouchedTwice(mem.pages, f0, was, mem.frames, lo, hi);
      if rc < 0 {
        return -EFAULT, 0;
      }
      ExtendWords(mem.pages, was, mem.frames, l, w2, Blob(argv + envp), auxv);
      esp := l.argcAddr;
      DynamicStart(mem.pages, mem.frames, l, argv, envp, phdr, phnum, interpBase, entry);
    } else {
      assert w2 + auxv == w2;
      esp := (l.argcAddr - 16) / 16 * 16;
      ghost var was := mem.frames;
      rc := PutCallFrame(mem, l, w2, Blob(argv + envp), esp, |argv|, l.argvStart, l.envpStart);
      TouchedMore(mem.pages, was, mem.frames, esp, esp + 16, lo, hi);
      TouchedTwice(mem.pages, f0, was, mem.frames, lo, hi);
      if rc < 0 {
        return -EFAULT, 0;
      }
      StaticStart(mem.pages, mem.frames, l, argv, envp, esp);
    }
  }

  lemma EmptyBlob()
    ensures Blob([]) == []
  {
  }

  lemma PointersLength(base: nat, strs: seq<CString>)
    ensures |Pointers(base, strs)| == |strs|
  {
  }

  // ----- Reading it back -----

  lemma WordOf(pages: map<nat, nat>, frames: Frames, l: Layout, words: seq<nat>, blob: seq<byte>, i: nat)
    requires Filled(pages, frames, l, words, blob) && i < |words|
    ensures ReadWord(pages, frames, l.argcAddr + 4 * i) == words[i]
  {
    hide Stored, WellMapped, PutU32, ReadWord;
    StoredPart(pages, frames, l.argcAddr, Encode(words), 4 * i, 4 * i + 4);
    EncodeAt(words, i);
    ReadWordIs(pages, frames, l.argcAddr + 4 * i, words[i]);
  }

  /** Following the pointer to string i. */
  lemma StringOf(pages: map<nat, nat>, frames: Frames, l: Layout, words: seq<nat>, strs: seq<CString>, i: nat)
    requires Filled(pages, frames, l, words, Blob(strs)) && i < |strs|
    ensures ReadString(pages, frames, l.stringsAddr + |Blob(strs[..i])|, MAX_ARG_LEN) == strs[i]
  {
    hide Stored, WellMapped, Encode, ReadString, Blob;
    BlobPrefix(strs, i);
    var k := |Blob(strs[..i])|;
    StoredPart(pages, frames, l.stringsAddr, Blob(strs), k, k + |strs[i]| + 1);
    ReadStringIs(pages, frames, l.stringsAddr + k, strs[i], MAX_ARG_LEN);
  }

  lemma FixedWords(base: nat, argv: seq<CString>, envp: seq<CString>, auxv: seq<nat>)
    ensures var ws := StackWords(base, argv, envp, auxv);
            |ws| == 3 + |argv| + |envp| + |auxv| && ws[0] == |argv| && ws[1 + |argv|] == 0 && ws[2 + |argv| + |envp|] == 0
  {
    hide Blob;
  }

  lemma ArgWord(base: nat, argv: seq<CString>, envp: seq<CString>, auxv: seq<nat>, i: nat)
    requires i < |argv|
    ensures |StackWords(base, argv, envp, auxv)| == 3 + |argv| + |envp| + |auxv|
    ensures StackWords(base, argv, envp, auxv)[1 + i] == base + |Blob((argv + envp)[..i])|
  {
    hide Blob;
    assert (argv + envp)[..i] == argv[..i];
    assert StackWords(base, argv, envp, auxv)[1 + i] == Pointers(base, argv)[i];
  }

  lemma EnvWord(base: nat, argv: seq<CString>, envp: seq<CString>, auxv: seq<nat>, i: nat)
    requires i < |envp|
    ensures |StackWords(base, argv, envp, auxv)| == 3 + |argv| + |envp| + |auxv|
    ensures StackWords(base, argv, envp, auxv)[2 + |argv| + i] == base + |Blob((argv + envp)[..|argv| + i])|
  {
    hide Blob;
    assert (argv + envp)[..|argv| + i] == argv + envp[..i];
    BlobConcat(argv, envp[..i]);
    assert StackWords(base, argv, envp, auxv)[2 + |argv| + i] == Pointers(base + |Blob(argv)|, envp)[i];
  }

  lemma AuxWord(base: nat, argv: seq<CString>, envp: seq<CString>, auxv: seq<nat>, i: nat)
    requires i < |auxv|
    ensures |StackWords(base, argv, envp, auxv)| == 3 + |argv| + |envp| + |auxv|
    ensures StackWords(base, argv, envp, auxv)[3 + |argv| + |envp| + i] == auxv[i]
  {
    hide Blob, Vectors;
  }

  /** What a program finds when it follows its initial stack. */
  ghost predicate Recovers(pages: map<nat, nat>, frames: Frames, l: Layout, argv: seq<CString>, envp: seq<CString>,
      auxv: seq<nat>)
    requires WellMapped(pages, frames)
  {
    && ReadWord(pages, frames, l.argcAddr) == |argv|
    && (forall i :: 0 <= i < |argv| ==> Finds(pages, frames, l.argvStart + 4 * i, argv[i]))
    && ReadWord(pages, frames, l.argvStart + 4 * |argv|) == 0
    && (forall i :: 0 <= i < |envp| ==> Finds(pages, frames, l.envpStart + 4 * i, envp[i]))
    && ReadWord(pages, frames, l.envpStart + 4 * |envp|) == 0
    && (forall i :: 0 <= i < |auxv| ==> ReadWord(pages, frames, l.auxvAddr + 4 * i) == auxv[i])
  }

  /** The word at a is the address of the string s. */
  ghost predicate Finds(pages: map<nat, nat>, frames: Frames, a: nat, s: seq<byte>)
    requires WellMapped(pages, frames)
  {
    var p := ReadWord(pages, frames, a);
    p >= 0 && ReadString(pages, frames, p, MAX_ARG_LEN) == s
  }

  /** The initial stack round trip: a reader that follows the pointers recovers exactly the given strings. */
  lemma RoundTrip(pages: map<nat, nat>, frames: Frames, l: Layout, argv: seq<CString>, envp: seq<CString>,
      auxv: seq<nat>)
    requires |argv| <= MAX_EXEC_ARGS && |envp| <= MAX_EXEC_ENVS && |auxv| <= 14
    requires StackImage(pages, frames, l, argv, envp, auxv)
    ensures WellMapped(pages, frames) && Recovers(pages, frames, l, argv, envp, auxv)
    ensures l.argcAddr % 16 == 0 && l.stringsAddr + |Blob(argv + envp)| <= STACK_TOP
  {
    hide WellMapped, Filled, ReadWord, ReadString, Blob, StackWords, Place;
    BlobBound(argv + envp);
    PlaceOk(|argv|, |envp|, |Blob(argv + envp)|, |auxv|);
    var words, strs := StackWords(l.stringsAddr, argv, envp, auxv), argv + envp;
    FilledMeans(pages, frames, l, words, Blob(strs));
    FixedWords(l.stringsAddr, argv, envp, auxv);
    WordOf(pages, frames, l, words, Blob(strs), 0);
    WordOf(pages, frames, l, words, Blob(strs), 1 + |argv|);
    WordOf(pages, frames, l, words, Blob(strs), 2 + |argv| + |envp|);
    forall i | 0 <= i < |argv|
      ensures Finds(pages, frames, l.argvStart + 4 * i, argv[i])
    {
      ArgWord(l.stringsAddr, argv, envp, auxv, i);
      WordOf(pages, frames, l, words, Blob(strs), 1 + i);
      StringOf(pages, frames, l, words, strs, i);
    }
    forall i | 0 <= i < |envp|
      ensures Finds(pages, frames, l.envpStart + 4 * i, envp[i])
    {
      EnvWord(l.stringsAddr, argv, envp, auxv, i);
      WordOf(pages, frames, l, words, Blob(strs), 2 + |argv| + i);
      StringOf(pages, frames, l, words, strs, |argv| + i);
    }
    forall i | 0 <= i < |auxv|
      ensures ReadWord(pages, frames, l.auxvAddr + 4 * i) == auxv[i]
    {
      AuxWord(l.stringsAddr, argv, envp, auxv, i);
      WordOf(pages, frames, l, words, Blob(strs), 3 + |argv| + |envp| + i);
    }
  }

  // ----- What a program finds from its stack pointer on -----

  /** The strings that the words from a on point to, then a null pointer. */
  ghost predicate FindsAll(pages: map<nat, nat>, frames: Frames, a: nat, strs: seq<CString>)
    requires WellMapped(pages, frames)
  {
    (forall i :: 0 <= i < |strs| ==> Finds(pages, frames, a + 4 * i, strs[i])) && ReadWord(pages, frames, a + 4 * |strs|) == 0
  }

  /** Walking the pairs from a on, n at most, up to tag 0: the value beside the tag; -1 if it does not occur. */
  ghost function AuxValue(pages: map<nat, nat>, frames: Frames, a: nat, tag: nat, n: nat): int
    requires WellMapped(pages, frames)
    decreases n
  {
    if n == 0 || ReadWord(pages, frames, a) <= 0 then -1
    else if ReadWord(pages, frames, a) == tag then ReadWord(pages, frames, a + 4)
    else AuxValue(pages, frames, a + 8, tag, n - 1)
  }

  /** How many pairs there are before tag 0. */
  ghost function AuxPairs(pages: map<nat, nat>, frames: Frames, a: nat, n: nat): nat
    requires WellMapped(pages, frames)
    decreases n
  {
    if n == 0 || ReadWord(pages, frames, a) <= 0 then 0 else 1 + AuxPairs(pages, frames, a + 8, n - 1)
  }

  /** Six pairs: AT_PHDR, AT_PHENT, AT_PHNUM, AT_PAGESZ, AT_BASE and AT_ENTRY, and no other tag. */
  ghost predicate AuxThere(pages: map<nat, nat>, frames: Frames, a: nat, phdr: nat, phnum: nat, base: nat, entry: nat)
    requires WellMapped(pages, frames)
  {
    && (forall n :: n >= 7 ==> AuxPairs(pages, frames, a, n) == 6)
    && ReadWord(pages, frames, a + 48) == 0
    && forall tag, n :: n >= 7 ==>
         AuxValue(pages, frames, a, tag, n)
           == if tag == 3 then phdr else if tag == 4 then 32 else if tag == 5 then phnum else if tag == 6 then 4096
              else if tag == 7 then base else if tag == 9 then entry else -1
  }

  /** A dynamically linked program: argc, the arguments, the environment and the pairs, from esp on. */
  ghost predicate StartsDynamic(pages: map<nat, nat>, frames: Frames, esp: nat, argv: seq<CString>, envp: seq<CString>,
      phdr: nat, phnum: nat, base: nat, entry: nat) {
    && WellMapped(pages, frames) && ReadWord(pages, frames, esp) == |argv|
    && FindsAll(pages, frames, esp + 4, argv)
    && FindsAll(pages, frames, esp + 8 + 4 * |argv|, envp)
    && AuxThere(pages, frames, esp + 12 + 4 * |argv| + 4 * |envp|, phdr, phnum, base, entry)
  }

  /** A static program: a null return address, argc, and the addresses of the argument and environment vectors. */
  ghost predicate StartsStatic(pages: map<nat, nat>, frames: Frames, esp: nat, argv: seq<CString>, envp: seq<CString>) {
    && WellMapped(pages, frames) && ReadWord(pages, frames, esp) == 0 && ReadWord(pages, frames, esp + 4) == |argv|
    && var a, e := ReadWord(pages, frames, esp + 8), ReadWord(pages, frames, esp + 12);
       a >= 0 && e >= 0 && FindsAll(pages, frames, a, argv) && FindsAll(pages, frames, e, envp)
  }

  /** The pairs still to come, from word k of the fourteen on. */
  lemma AuxWalk(pages: map<nat, nat>, frames: Frames, a: nat, ws: seq<nat>, tag: nat, n: nat)
    requires WellMapped(pages, frames) && |ws| == 14 && n >= 7
    requires forall i :: 0 <= i < 14 ==> ReadWord(pages, frames, a + 4 * i) == ws[i]
    requires ws[0] > 0 && ws[2] > 0 && ws[4] > 0 && ws[6] > 0 && ws[8] > 0 && ws[10] > 0 && ws[12] == 0
    ensures AuxPairs(pages, frames, a, n) == 6
    ensures AuxValue(pages, frames, a, tag, n)
              == if tag == ws[0] then ws[1] else if tag == ws[2] then ws[3] else if tag == ws[4] then ws[5]
                 else if tag == ws[6] then ws[7] else if tag == ws[8] then ws[9] else if tag == ws[10] then ws[11] else -1
  {
    hide WellMapped, ReadWord;
    AuxStep(pages, frames, a, ws, 0, tag, n);
    AuxStep(pages, frames, a, ws, 1, tag, n - 1);
    AuxStep(pages, frames, a, ws, 2, tag, n - 2);
    AuxStep(pages, frames, a, ws, 3, tag, n - 3);
    AuxStep(pages, frames, a, ws, 4, tag, n - 4);
    AuxStep(pages, frames, a, ws, 5, tag, n - 5);
    AuxEnd(pages, frames, a, ws, tag, n - 6);
  }

  lemma AuxStep(pages: map<nat, nat>, frames: Frames, a: nat, ws: seq<nat>, k: nat, tag: nat, n: nat)
    requires WellMapped(pages, frames) && |ws| == 14 && k < 6 && n > 0 && ws[2 * k] > 0
    requires forall i :: 0 <= i < 14 ==> ReadWord(pages, frames, a + 4 * i) == ws[i]
    ensures AuxPairs(pages, frames, a + 8 * k, n) == 1 + AuxPairs(pages, frames, a + 8 * (k + 1), n - 1)
    ensures AuxValue(pages, frames, a + 8 * k, tag, n)
              == if tag == ws[2 * k] then ws[2 * k + 1] else AuxValue(pages, frames, a + 8 * (k + 1), tag, n - 1)
  {
    hide WellMapped, ReadWord;
    assert ReadWord(pages, frames, a + 4 * (2 * k)) == ws[2 * k];
    assert ReadWord(pages, frames, a + 4 * (2 * k + 1)) == ws[2 * k + 1];
    assert a + 4 * (2 * k) == a + 8 * k && a + 4 * (2 * k + 1) == a + 8 * k + 4 && a + 8 * (k + 1) == a + 8 * k + 8;
  }

  lemma AuxEnd(pages: map<nat, nat>, frames: Frames, a: nat, ws: seq<nat>, tag: nat, n: nat)
    requires WellMapped(pages, frames) && |ws| == 14 && ws[12] == 0
    requires forall i :: 0 <= i < 14 ==> ReadWord(pages, frames, a + 4 * i) == ws[i]
    ensures AuxPairs(pages, frames, a + 8 * 6, n) == 0 && AuxValue(pages, frames, a + 8 * 6, tag, n) == -1
  {
    hide WellMapped, ReadWord;
    assert ReadWord(pages, frames, a + 4 * 12) == ws[12];
  }

  lemma AuxFound(pages: map<nat, nat>, frames: Frames, a: nat, phdr: nat, phnum: nat, base: nat, entry: nat)
    requires WellMapped(pages, frames) && phdr < TWO32 && phnum < TWO32 && base < TWO32 && entry < TWO32
    requires var ws := Auxv(phdr, phnum, base, entry); forall i :: 0 <= i < 14 ==> ReadWord(pages, frames, a + 4 * i) == ws[i]
    ensures AuxThere(pages, frames, a, phdr, phnum, base, entry)
  {
    hide WellMapped, ReadWord, AuxValue, AuxPairs;
    var ws := Auxv(phdr, phnum, base, entry);
    assert ReadWord(pages, frames, a + 4 * 12) == ws[12];
    forall n: nat | n >= 7
      ensures AuxPairs(pages, frames, a, n) == 6
    {
      AuxWalk(pages, frames, a, ws, 0, n);
    }
    forall tag: nat, n: nat | n >= 7
      ensures AuxValue(pages, frames, a, tag, n)
                == if tag == 3 then phdr else if tag == 4 then 32 else if tag == 5 then phnum else if tag == 6 then 4096
                   else if tag == 7 then base else if tag == 9 then entry else -1
    {
      AuxWalk(pages, frames, a, ws, tag, n);
    }
  }

  lemma DynamicStart(pages: map<nat, nat>, frames: Frames, l: Layout, argv: seq<CString>, envp: seq<CString>, phdr: nat,
      phnum: nat, base: nat, entry: nat)
    requires |argv| <= MAX_EXEC_ARGS && |envp| <= MAX_EXEC_ENVS
    requires phdr < TWO32 && phnum < TWO32 && base < TWO32 && entry < TWO32
    requires StackImage(pages, frames, l, argv, envp, Auxv(phdr, phnum, base, entry))
    ensures StartsDynamic(pages, frames, l.argcAddr, argv, envp, phdr, phnum, base, entry)
  {
    hide WellMapped, Filled, ReadWord, Blob, StackWords, Place, Finds, Auxv, AuxThere;
    BlobBound(argv + envp);
    PlaceOk(|argv|, |envp|, |Blob(argv + envp)|, 14);
    RoundTrip(pages, frames, l, argv, envp, Auxv(phdr, phnum, base, entry));
    AuxFound(pages, frames, l.auxvAddr, phdr, phnum, base, entry);
  }

  lemma StaticStart(pages: map<nat, nat>, frames: Frames, l: Layout, argv: seq<CString>, envp: seq<CString>, esp: nat)
    requires |argv| <= MAX_EXEC_ARGS && |envp| <= MAX_EXEC_ENVS && WellMapped(pages, frames)
    requires StackImage(pages, frames, l, argv, envp, []) && l.argvStart < TWO32 && l.envpStart < TWO32
    requires CallFrame(pages, frames, esp, |argv|, l.argvStart, l.envpStart)
    ensures StartsStatic(pages, frames, esp, argv, envp)
  {
    hide WellMapped, Filled, ReadWord, Blob, StackWords, Place, Finds, WordIn;
    RoundTrip(pages, frames, l, argv, envp, []);
    ReadWordIs(pages, frames, esp, 0);
    ReadWordIs(pages, frames, esp + 4, |argv|);
    ReadWordIs(pages, frames, esp + 8, l.argvStart);
    ReadWordIs(pages, frames, esp + 12, l.envpStart);
  }
}
