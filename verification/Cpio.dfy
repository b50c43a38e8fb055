/** The initramfs archive in cpio newc format, and its parser (src/kernel/fs/cpio_parse.c). */
module Cpio {
  import opened Words

  const HEADER: nat := 110
  const MAGIC: seq<byte> := [48, 55, 48, 55, 48, 49]                                  // "070701"
  const TRAILER: seq<byte> := [84, 82, 65, 73, 76, 69, 82, 33, 33, 33]                // "TRAILER!!!"
  const DOT: byte := 46
  const SLASH: byte := 47
  const MAX_PATH: nat := 255

  // ----- Hexadecimal fields -----

  /** The value of a hexadecimal digit; any other character counts as 0. */
  function Digit(c: byte): (d: nat)
    ensures d < 16
  {
    var n := c as int;
    if 48 <= n <= 57 then n - 48 else if 97 <= n <= 102 then n - 87 else if 65 <= n <= 70 then n - 55 else 0
  }

  function HexValue(s: seq<byte>): nat {
    if |s| == 0 then 0 else 16 * HexValue(s[..|s| - 1]) + Digit(s[|s| - 1])
  }

  function Pow16(n: nat): (p: nat)
    ensures p > 0
  {
    if n == 0 then 1 else 16 * Pow16(n - 1)
  }

  lemma {:induction false} HexBound(s: seq<byte>)
    ensures HexValue(s) < Pow16(|s|)
    decreases |s|
  {
    hide Digit;
    if |s| > 0 {
      HexBound(s[..|s| - 1]);
      DigitBound(s[|s| - 1]);
    }
  }

  lemma DigitBound(c: byte)
    ensures Digit(c) < 16
  {
  }

  /** parse_hex8: the accumulator never overflows its 32 bits. */
  method ParseHex8(s: seq<byte>) returns (val: nat)
    requires |s| == 8
    ensures val == HexValue(s) < TWO32
  {
    hide Digit;
    val := 0;
    var i := 0;
    while i < 8
      invariant 0 <= i <= 8 && val == HexValue(s[..i])
    {
      assert s[..i + 1][..i] == s[..i];
      val := 16 * val + Digit(s[i]);
      i := i + 1;
    }
    assert s[..8] == s;
    HexBound(s);
    assert Pow16(4) == 65536;
    assert Pow16(8) == TWO32;
  }

  /** n in eight digits. */
  function HexOf(n: nat, k: nat): (s: seq<byte>)
    ensures |s| == k
  {
    if k == 0 then [] else HexOf(n / 16, k - 1) + [DigitOf(n % 16)]
  }

  function DigitOf(d: nat): byte
    requires d < 16
  {
    if d < 10 then ToByte(48 + d) else ToByte(87 + d)
  }

  lemma DigitRoundTrip(d: nat)
    requires d < 16
    ensures Digit(DigitOf(d)) == d
  {
    ToByteInverse(if d < 10 then 48 + d else 87 + d);
    hide ToByte;
  }

  lemma {:induction false} HexRoundTrip(n: nat, k: nat)
    requires n < Pow16(k)
    ensures HexValue(HexOf(n, k)) == n
    decreases k
  {
    hide Digit, DigitOf;
    if k > 0 {
      HexRoundTrip(n / 16, k - 1);
      DigitRoundTrip(n % 16);
      assert HexOf(n, k)[..k - 1] == HexOf(n / 16, k - 1);
    }
  }

  function UpperOf(c: byte): byte {
    if 97 <= c as int <= 102 then ToByte(c as int - 32) else c
  }

  /** The same digits in upper case. */
  function Upper(s: seq<byte>): (r: seq<byte>)
    ensures |r| == |s|
  {
    if |s| == 0 then [] else Upper(s[..|s| - 1]) + [UpperOf(s[|s| - 1])]
  }

  lemma UpperDigit(c: byte)
    ensures Digit(UpperOf(c)) == Digit(c)
  {
    if 97 <= c as int <= 102 {
      ToByteInverse(c as int - 32);
    }
    hide ToByte;
  }

  lemma {:induction false} CaseBlind(s: seq<byte>)
    ensures HexValue(Upper(s)) == HexValue(s)
    decreases |s|
  {
    hide Digit, UpperOf;
    if |s| > 0 {
      CaseBlind(s[..|s| - 1]);
      UpperDigit(s[|s| - 1]);
      assert Upper(s)[..|s| - 1] == Upper(s[..|s| - 1]);
    }
  }

  /** A character that is no digit is read as one 0. */
  lemma NoDigit(s: seq<byte>, c: byte)
    requires !(48 <= c as int <= 57) && !(65 <= c as int <= 70) && !(97 <= c as int <= 102)
    ensures HexValue(s + [c]) == 16 * HexValue(s)
  {
    assert (s + [c])[..|s|] == s;
  }

  // ----- One entry -----

  function Pad4(n: nat): (p: nat)
    ensures n <= p < n + 4 && p % 4 == 0
  {
    (n + 3) / 4 * 4
  }

  /** Byte i of the archive; past the end, zero. */
  function Peek(data: seq<byte>, i: nat): byte {
    if i < |data| then data[i] else 0
  }

  /** What is handed to the file system. */
  datatype Staged =
    | Directory(path: seq<byte>, perm: nat)
    | Regular(path: seq<byte>, perm: nat, content: seq<byte>)

  datatype Verdict =
    | End                                 // no further header, or the trailer
    | Malformed
    | Skip(next: nat)                     // the root itself, or neither directory nor file
    | Stage(what: Staged, next: nat)

  /** There is a zero byte among the first n from at on. */
  predicate Terminated(data: seq<byte>, at: nat, n: nat) {
    exists i :: at <= i < at + n && i < |data| && data[i] == 0
  }

  /** kstrcmp with the trailer's name. */
  predicate IsTrailer(data: seq<byte>, at: nat) {
    at + 10 < |data| && data[at..at + 10] == TRAILER && data[at + 10] == 0
  }

  predicate IsRoot(data: seq<byte>, at: nat) {
    Peek(data, at) == DOT && (Peek(data, at + 1) == 0 || (Peek(data, at + 1) == SLASH && Peek(data, at + 2) == 0))
  }

  /** What the path loop still appends when it has i characters and reads at position at. */
  function PathRest(data: seq<byte>, at: nat, i: nat): (p: seq<byte>)
    requires 1 <= i <= MAX_PATH
    ensures i + |p| <= MAX_PATH
    decreases |data| - at
  {
    if Peek(data, at) == 0 || i >= MAX_PATH then []
    else if Peek(data, at) == SLASH && i == 1 then PathRest(data, at + 1, i)
    else [data[at]] + PathRest(data, at + 1, i + 1)
  }

  function PathOf(data: seq<byte>, at: nat): seq<byte> {
    [SLASH] + PathRest(data, at + 1, 1)
  }

  /** One turn of the parser's loop. */
  function Look(data: seq<byte>, pos: nat): Verdict
    requires pos <= |data|
  {
    if |data| - pos < HEADER || data[pos..pos + 6] != MAGIC then End
    else
      var mode := HexValue(data[pos + 14..pos + 22]);
      var filesize := HexValue(data[pos + 54..pos + 62]);
      var namesize := HexValue(data[pos + 94..pos + 102]);
      var name := pos + HEADER;
      var namePadded := Pad4(HEADER + namesize);
      if namesize == 0 || namesize > 256 || namePadded > |data| - pos || !Terminated(data, name, namesize) then Malformed
      else if Pad4(filesize) > |data| - pos - namePadded then Malformed
      else
        var next := pos + namePadded + Pad4(filesize);
        if IsTrailer(data, name) then End
        else if IsRoot(data, name) then Skip(next)
        else if mode / 4096 % 16 == 4 then Stage(Directory(PathOf(data, name), mode % 512), next)
        else if mode / 4096 % 16 == 8 then
          Stage(Regular(PathOf(data, name), mode % 512, data[pos + namePadded..pos + namePadded + filesize]), next)
        else Skip(next)
  }

  /** The next position is past this one, within the archive, and as well aligned. */
  lemma LookAdvances(data: seq<byte>, pos: nat)
    requires pos <= |data|
    ensures var v := Look(data, pos);
            v.Skip? || v.Stage? ==> pos + HEADER < v.next <= |data| && (pos % 4 == 0 ==> v.next % 4 == 0)
  {
    hide HexValue, Terminated, IsTrailer, IsRoot, PathOf, Pad4;
    if |data| - pos >= HEADER {
      Multiples(pos, Pad4(HEADER + HexValue(data[pos + 94..pos + 102])), Pad4(HexValue(data[pos + 54..pos + 62])));
    }
  }

  lemma Multiples(a: nat, b: nat, c: nat)
    requires b % 4 == 0 && c % 4 == 0
    ensures a % 4 == 0 ==> (a + b + c) % 4 == 0
  {
  }

  datatype Outcome = Outcome(ok: bool, staged: seq<Staged>)

  /** All that is staged from pos on. */
  function Parse(data: seq<byte>, pos: nat): Outcome
    requires pos <= |data|
    decreases |data| - pos
  {
    LookAdvances(data, pos);
    match Look(data, pos)
    case End => Outcome(true, [])
    case Malformed => Outcome(false, [])
    case Skip(next) => Parse(data, next)
    case Stage(what, next) => var rest := Parse(data, next); Outcome(rest.ok, [what] + rest.staged)
  }

  // ----- The parser -----

  /** The scan for a zero byte in the name. */
  method HasTerminator(data: seq<byte>, at: nat, n: nat) returns (ok: bool)
    requires at + n <= |data|
    ensures ok == Terminated(data, at, n)
  {
    var i := 0;
    while i < n
      invariant i <= n && forall k :: at <= k < at + i ==> data[k] != 0
    {
      if data[at + i] == 0 {
        return true;
      }
      i := i + 1;
    }
    ok := false;
  }

  /** The loop that fills the path buffer. */
  method BuildPath(data: seq<byte>, at: nat) returns (path: seq<byte>)
    ensures path == PathOf(data, at) && |path| <= MAX_PATH
  {
    path := [SLASH];
    var j := at + 1;
    while Peek(data, j) != 0 && |path| < MAX_PATH
      invariant 1 <= |path| <= MAX_PATH && path + PathRest(data, j, |path|) == PathOf(data, at)
      decreases |data| - j
    {
      if Peek(data, j) == SLASH && |path| == 1 {
        j := j + 1;
      } else {
        assert path + ([data[j]] + PathRest(data, j + 1, |path| + 1)) == (path + [data[j]]) + PathRest(data, j + 1, |path| + 1);
        path := path + [Peek(data, j)];
        j := j + 1;
      }
    }
  }

  /** One turn of the loop of initramfs_load. */
  method LookAt(data: seq<byte>, pos: nat) returns (v: Verdict)
    requires pos <= |data|
    ensures v == Look(data, pos)
  {
    hide HexValue, Terminated, IsTrailer, IsRoot, PathOf;
    if |data| - pos < HEADER {
      return End;
    }
    if data[pos..pos + 6] != MAGIC {
      return End;
    }
    var mode := ParseHex8(data[pos + 14..pos + 22]);
    var filesize := ParseHex8(data[pos + 54..pos + 62]);
    var namesize := ParseHex8(data[pos + 94..pos + 102]);
    if namesize == 0 || namesize > 256 {
      return Malformed;
    }
    var namePadded := Pad4(HEADER + namesize);
    if namePadded > |data| - pos {
      return Malformed;
    }
    var name := pos + HEADER;
    var terminated := HasTerminator(data, name, namesize);
    if !terminated {
      return Malformed;
    }
    var fileData := pos + namePadded;
    if filesize > |data| - fileData || Pad4(filesize) > |data| - fileData {
      return Malformed;
    }
    var next := fileData + Pad4(filesize);
    if IsTrailer(data, name) {
      return End;
    }
    if IsRoot(data, name) {
      return Skip(next);
    }
    var path := BuildPath(data, name);
    if mode / 4096 % 16 == 4 {
      return Stage(Directory(path, mode % 512), next);
    }
    if mode / 4096 % 16 == 8 {
      return Stage(Regular(path, mode % 512, data[fileData..fileData + filesize]), next);
    }
    return Skip(next);
  }

  /** The regular files that could be opened. */
  function Opened(staged: seq<Staged>, opens: seq<byte> -> bool): nat {
    if |staged| == 0 then 0
    else Opened(staged[..|staged| - 1], opens)
         + if staged[|staged| - 1].Regular? && opens(staged[|staged| - 1].path) then 1 else 0
  }

  lemma OpenedNone(opens: seq<byte> -> bool)
    ensures Opened([], opens) == 0
  {
  }

  lemma OpenedSnoc(staged: seq<Staged>, what: Staged, opens: seq<byte> -> bool)
    ensures Opened(staged + [what], opens) == Opened(staged, opens) + if what.Regular? && opens(what.path) then 1 else 0
  {
    assert (staged + [what])[..|staged|] == staged;
  }

  /** The turns of the loop up to position pos have staged this much of the whole. */
  ghost predicate Reached(data: seq<byte>, pos: nat, staged: seq<Staged>) {
    pos <= |data| && Parse(data, 0) == Outcome(Parse(data, pos).ok, staged + Parse(data, pos).staged)
  }

  lemma ReachedStart(data: seq<byte>)
    ensures Reached(data, 0, [])
  {
    assert [] + Parse(data, 0).staged == Parse(data, 0).staged;
  }

  lemma ReachedNext(data: seq<byte>, pos: nat, staged: seq<Staged>)
    requires Reached(data, pos, staged)
    ensures var v := Look(data, pos);
            && (v.End? ==> Parse(data, 0) == Outcome(true, staged))
            && (v.Malformed? ==> Parse(data, 0) == Outcome(false, staged))
            && (v.Skip? ==> Reached(data, v.next, staged))
            && (v.Stage? ==> Reached(data, v.next, staged + [v.what]))
  {
    hide Look;
    LookAdvances(data, pos);
    match Look(data, pos)
    case Stage(what, next) =>
      var rest := Parse(data, next).staged;
      assert staged + ([what] + rest) == (staged + [what]) + rest;
    case _ =>
  }

  /**
   * initramfs_load: stages exactly what Parse says and counts the files that opened. The cursor stays a multiple of 4
   * within the archive and moves on by more than a header every turn, so the loop ends.
   */
  method Load(data: seq<byte>, opens: seq<byte> -> bool) returns (rc: int, staged: seq<Staged>)
    ensures |data| < HEADER ==> rc == -22 && staged == []
    ensures |data| >= HEADER ==> staged == Parse(data, 0).staged
    ensures |data| >= HEADER ==> rc == if Parse(data, 0).ok then Opened(staged, opens) else -22
  {
    hide Look, Parse, Reached, Opened;
    OpenedNone(opens);
    rc, staged := 0, [];
    if |data| < HEADER {
      return -22, [];
    }
    var pos := 0;
    ReachedStart(data);
    while true
      invariant pos <= |data| && pos % 4 == 0 && rc == Opened(staged, opens) && Reached(data, pos, staged)
      decreases |data| - pos
    {
      var v := LookAt(data, pos);
      LookAdvances(data, pos);
      ReachedNext(data, pos, staged);
      match v
      case End => break;
      case Malformed =>
        rc := -22;
        return;
      case Skip(next) => pos := next;
      case Stage(what, next) =>
        OpenedSnoc(staged, what, opens);
        staged := staged + [what];
        if what.Regular? && opens(what.path) {
          rc := rc + 1;
        }
        pos := next;
    }
  }

  // ----- Round trip -----

  /** What an archive may hold: the root itself, and anything named relative to it. */
  datatype Item =
    | Root(slash: bool, mode: nat, content: seq<byte>)
    | Item(rel: seq<byte>, mode: nat, content: seq<byte>)
  {
    predicate Valid() {
      && mode < TWO32 && |content| < TWO32
      && (Item? ==> 0 < |rel| <= 253 && 0 !in rel && rel[0] != SLASH)
    }

    /** "." or "./" for the root, otherwise "./" and the name. */
    function Name(): seq<byte> {
      if Root? then (if slash then [DOT, SLASH] else [DOT]) else [DOT, SLASH] + rel
    }

    /** What should be staged for it: nothing for the root, nor for what is neither directory nor regular file. */
    function Means(): (staged: seq<Staged>)
      ensures |staged| <= 1
    {
      if Root? then []
      else if mode / 4096 % 16 == 4 then [Directory([SLASH] + rel, mode % 512)]
      else if mode / 4096 % 16 == 8 then [Regular([SLASH] + rel, mode % 512, content)] else []
    }
  }

  /** b is a header with these three fields, the name with its zero byte, and the content, each padded to 4. */
  predicate Member(b: seq<byte>, name: seq<byte>, mode: nat, content: seq<byte>) {
    var namePadded := Pad4(HEADER + |name| + 1);
    && |b| == namePadded + Pad4(|content|)
    && b[..6] == MAGIC && HexValue(b[14..22]) == mode && HexValue(b[54..62]) == |content| && HexValue(b[94..102]) == |name| + 1
    && b[HEADER..HEADER + |name|] == name && b[HEADER + |name|] == 0
    && b[namePadded..namePadded + |content|] == content
  }

  /** An archive: the members in order, the trailer, and whatever follows. */
  ghost predicate Archive(data: seq<byte>, items: seq<Item>)
    decreases |items|
  {
    if |items| == 0 then exists n :: 0 <= n <= |data| && Member(data[..n], TRAILER, 0, [])
    else exists n :: 0 <= n <= |data| && Member(data[..n], items[0].Name(), items[0].mode, items[0].content) && Archive(data[n..], items[1..])
  }

  function Meaning(items: seq<Item>): seq<Staged> {
    if |items| == 0 then [] else items[0].Means() + Meaning(items[1..])
  }

  /** The fields of a member that starts at pos. */
  lemma MemberFields(data: seq<byte>, pos: nat, b: seq<byte>, name: seq<byte>, mode: nat, content: seq<byte>)
    requires pos + |b| <= |data| && data[pos..pos + |b|] == b && Member(b, name, mode, content)
    ensures |data| - pos >= HEADER && data[pos..pos + 6] == MAGIC
    ensures HexValue(data[pos + 14..pos + 22]) == mode && HexValue(data[pos + 54..pos + 62]) == |content|
    ensures HexValue(data[pos + 94..pos + 102]) == |name| + 1
    ensures var np := Pad4(HEADER + |name| + 1);
            && |b| == np + Pad4(|content|)
            && data[pos + np..pos + np + |content|] == content
            && data[pos + HEADER..pos + HEADER + |name|] == name && data[pos + HEADER + |name|] == 0
  {
    hide HexValue;
    var np := Pad4(HEADER + |name| + 1);
    SubSlice(data, pos, b, 0, 6);
    SubSlice(data, pos, b, 14, 22);
    SubSlice(data, pos, b, 54, 62);
    SubSlice(data, pos, b, 94, 102);
    SubSlice(data, pos, b, HEADER, HEADER + |name|);
    SubSlice(data, pos, b, np, np + |content|);
    assert data[pos + HEADER + |name|] == b[HEADER + |name|];
  }

  lemma SubSlice(data: seq<byte>, pos: nat, b: seq<byte>, lo: nat, hi: nat)
    requires pos + |b| <= |data| && data[pos..pos + |b|] == b && lo <= hi <= |b|
    ensures data[pos + lo..pos + hi] == b[lo..hi]
  {
    var l, r := data[pos + lo..pos + hi], b[lo..hi];
    forall i | 0 <= i < hi - lo
      ensures l[i] == r[i]
    {
      assert b[lo + i] == data[pos..pos + |b|][lo + i];
    }
  }

  lemma {:induction false} PathRestIs(data: seq<byte>, at: nat, i: nat, s: seq<byte>)
    requires 1 <= i && i + |s| <= MAX_PATH && 0 !in s && at + |s| < |data| && data[at..at + |s|] == s
             && data[at + |s|] == 0
    requires i == 1 && |s| > 0 ==> s[0] != SLASH
    ensures PathRest(data, at, i) == s
    decreases |s|
  {
    if |s| > 0 {
      assert data[at] == s[0] && s[0] in s;
      assert data[at + 1..at + 1 + (|s| - 1)] == s[1..];
      assert forall x :: x in s[1..] ==> x in s;
      PathRestIs(data, at + 1, i + 1, s[1..]);
    }
  }

  lemma {:induction false} SlashesSkipped(data: seq<byte>, at: nat, k: nat)
    requires at + k <= |data| && forall i :: at <= i < at + k ==> data[i] == SLASH
    ensures PathRest(data, at, 1) == PathRest(data, at + k, 1)
    decreases k
  {
    if k > 0 {
      SlashesSkipped(data, at + 1, k - 1);
    }
  }

  /** Any name: its first character is dropped, whatever it is, and the slashes after it make one. */
  lemma NamePath(data: seq<byte>, at: nat, name: seq<byte>, k: nat)
    requires 0 < |name| <= 255 && 0 !in name && at + |name| < |data| && data[at..at + |name|] == name
             && data[at + |name|] == 0
    requires 1 + k <= |name| && (forall i :: 1 <= i < 1 + k ==> name[i] == SLASH) && (1 + k < |name| ==> name[1 + k] != SLASH)
    ensures PathOf(data, at) == [SLASH] + name[1 + k..]
  {
    hide PathRest;
    forall i | at + 1 <= i < at + 1 + k
      ensures data[i] == SLASH
    {
      assert data[i] == name[i - at];
    }
    SlashesSkipped(data, at + 1, k);
    SubSlice(data, at, name, 1 + k, |name|);
    assert forall x :: x in name[1 + k..] ==> x in name;
    PathRestIs(data, at + 1 + k, 1, name[1 + k..]);
  }

  lemma ItemPath(data: seq<byte>, at: nat, it: Item)
    requires it.Valid() && it.Item? && at + |it.Name()| < |data| && data[at..at + |it.Name()|] == it.Name()
             && data[at + |it.Name()|] == 0
    ensures PathOf(data, at) == [SLASH] + it.rel && !IsRoot(data, at) && !IsTrailer(data, at)
    ensures Terminated(data, at, |it.Name()| + 1)
  {
    hide PathOf, IsRoot, IsTrailer;
    var name := it.Name();
    assert it.rel[0] in it.rel;
    NameStart(data, at, it.rel);
    assert name[2..] == it.rel && name[1] == SLASH && name[2] == it.rel[0];
    NamePath(data, at, name, 1);
    OtherName(data, at, it.rel[0]);
  }

  lemma OtherName(data: seq<byte>, at: nat, c: byte)
    requires at + 2 < |data| && data[at] == DOT && data[at + 1] == SLASH && data[at + 2] == c != 0
    ensures !IsRoot(data, at) && !IsTrailer(data, at)
  {
    assert at + 10 < |data| ==> data[at..at + 10][0] == data[at];
  }

  /** The root is recognised by its name. */
  lemma RootName(data: seq<byte>, at: nat, it: Item)
    requires it.Root? && at + |it.Name()| < |data| && data[at..at + |it.Name()|] == it.Name()
             && data[at + |it.Name()|] == 0
    ensures IsRoot(data, at) && !IsTrailer(data, at) && Terminated(data, at, |it.Name()| + 1)
  {
    var name := it.Name();
    assert data[at] == data[at..at + |name|][0] == name[0] == DOT;
    if it.slash {
      assert data[at + 1] == data[at..at + |name|][1] == name[1] == SLASH;
    }
  }

  /** The first characters of "./" and rel. */
  lemma NameStart(data: seq<byte>, at: nat, rel: seq<byte>)
    requires |rel| > 0 && at + 2 + |rel| <= |data| && data[at..at + 2 + |rel|] == [DOT, SLASH] + rel
    ensures data[at] == DOT && data[at + 1] == SLASH && data[at + 2] == rel[0]
  {
    var name := [DOT, SLASH] + rel;
    assert name[0] == DOT && name[1] == SLASH && name[2] == rel[0];
  }

  /** The parser sees a member for what it is; a root member, or one of another type, is passed over. */
  lemma LookItem(data: seq<byte>, pos: nat, n: nat, it: Item)
    requires it.Valid() && pos + n <= |data| && Member(data[pos..pos + n], it.Name(), it.mode, it.content)
    ensures Look(data, pos) == if it.Means() == [] then Skip(pos + n) else Stage(it.Means()[0], pos + n)
  {
    hide HexValue, PathOf, IsRoot, IsTrailer, Terminated;
    MemberFields(data, pos, data[pos..pos + n], it.Name(), it.mode, it.content);
    if it.Root? {
      RootName(data, pos + HEADER, it);
    } else {
      ItemPath(data, pos + HEADER, it);
    }
  }

  lemma LookTrailer(data: seq<byte>, pos: nat, n: nat)
    requires pos + n <= |data| && Member(data[pos..pos + n], TRAILER, 0, [])
    ensures Look(data, pos) == End
  {
    hide HexValue, PathOf, IsRoot;
    MemberFields(data, pos, data[pos..pos + n], TRAILER, 0, []);
    assert data[pos + HEADER + 10] == 0;
  }

  /** Every archive of such items is staged item by item: paths, permissions and contents. */
  lemma {:induction false} RoundTrip(data: seq<byte>, pos: nat, items: seq<Item>)
    requires pos <= |data| && (forall i :: 0 <= i < |items| ==> items[i].Valid()) && Archive(data[pos..], items)
    ensures Parse(data, pos) == Outcome(true, Meaning(items))
    decreases |items|
  {
    hide Look, Member;
    if |items| == 0 {
      var n :| 0 <= n <= |data| - pos && Member(data[pos..][..n], TRAILER, 0, []);
      assert data[pos..][..n] == data[pos..pos + n];
      LookTrailer(data, pos, n);
    } else {
      var n :| 0 <= n <= |data| - pos && Member(data[pos..][..n], items[0].Name(), items[0].mode, items[0].content)
               && Archive(data[pos..][n..], items[1..]);
      assert data[pos..][..n] == data[pos..pos + n] && data[pos..][n..] == data[pos + n..];
      LookItem(data, pos, n, items[0]);
      RoundTrip(data, pos + n, items[1..]);
    }
  }

  // ----- Such archives exist -----

  /** A member as cpio writes it; every other header field is zero. */
  function Serialise(name: seq<byte>, mode: nat, content: seq<byte>): seq<byte>
    requires |name| < 256 && mode < TWO32 && |content| < TWO32
  {
    var h := MAGIC + HexOf(0, 8) + HexOf(mode, 8) + HexOf(0, 32) + HexOf(|content|, 8) + HexOf(0, 32) + HexOf(|name| + 1, 8) + HexOf(0, 8);
    h + name + [0] + Zeros(Pad4(HEADER + |name| + 1) - (HEADER + |name| + 1)) + content + Zeros(Pad4(|content|) - |content|)
  }

  lemma SerialiseIsMember(name: seq<byte>, mode: nat, content: seq<byte>)
    requires |name| < 256 && mode < TWO32 && |content| < TWO32
    ensures Member(Serialise(name, mode, content), name, mode, content)
  {
    hide HexValue, HexOf, Pad4;
    var b := Serialise(name, mode, content);
    assert Pow16(4) == 65536;
    assert Pow16(8) == TWO32;
    HexRoundTrip(mode, 8);
    HexRoundTrip(|content|, 8);
    HexRoundTrip(|name| + 1, 8);
    assert b[14..22] == HexOf(mode, 8);
    assert b[54..62] == HexOf(|content|, 8);
    assert b[94..102] == HexOf(|name| + 1, 8);
  }

  function Pack(items: seq<Item>): seq<byte>
    requires forall i :: 0 <= i < |items| ==> items[i].Valid()
  {
    if |items| == 0 then Serialise(TRAILER, 0, [])
    else
      assert items[0].Valid();
      Serialise(items[0].Name(), items[0].mode, items[0].content) + Pack(items[1..])
  }

  /** Packing and parsing give the items back. */
  lemma {:induction false} PackIsArchive(items: seq<Item>)
    requires forall i :: 0 <= i < |items| ==> items[i].Valid()
    ensures Archive(Pack(items), items)
    decreases |items|
  {
    hide Serialise, Member;
    var data := Pack(items);
    if |items| == 0 {
      SerialiseIsMember(TRAILER, 0, []);
      assert data[..|data|] == data;
    } else {
      var b := Serialise(items[0].Name(), items[0].mode, items[0].content);
      SerialiseIsMember(items[0].Name(), items[0].mode, items[0].content);
      PackIsArchive(items[1..]);
      assert data[..|b|] == b && data[|b|..] == Pack(items[1..]);
    }
  }

  lemma PackRoundTrip(items: seq<Item>)
    requires forall i :: 0 <= i < |items| ==> items[i].Valid()
    ensures Parse(Pack(items), 0) == Outcome(true, Meaning(items))
  {
    PackIsArchive(items);
    assert Pack(items)[0..] == Pack(items);
    hide Parse, Pack;
    RoundTrip(Pack(items), 0, items);
  }
}
