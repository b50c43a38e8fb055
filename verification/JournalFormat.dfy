/** The on-disk transaction header of the journal (include/kernel/journal.h). */
module JournalFormat {
  import opened Words
  import Crc32

  const MAGIC: nat := 0x4A4F5552
  const BLOCK_SIZE: nat := 4096
  const MAX_PER_TXN: nat := 8
  const DEFAULT_BLOCKS: nat := 32

  /** Offset of the crc field: the bytes before it are the covered prefix. */
  const CRC_OFFSET: nat := 48

  type Block = b: seq<byte> | |b| == BLOCK_SIZE witness Zeros(BLOCK_SIZE)

  type U32 = n: nat | n < TWO32

  function ZeroBlock(): Block {
    Zeros(BLOCK_SIZE)
  }

  /** A logged transaction: block i of it goes to targets[i]. */
  datatype Txn = Txn(id: U32, targets: seq<U32>, data: seq<Block>) {
    predicate Valid() {
      |targets| == |data| <= MAX_PER_TXN
    }
  }

  /** The target array of the header: unused entries are zero. */
  function TargetWords(targets: seq<U32>): (s: seq<byte>)
    requires |targets| <= MAX_PER_TXN
    ensures |s| == 4 * MAX_PER_TXN
  {
    PutWords(targets + seq(MAX_PER_TXN - |targets|, _ => 0))
  }

  function PutWords(words: seq<U32>): (s: seq<byte>)
    ensures |s| == 4 * |words|
  {
    if |words| == 0 then [] else PutU32(words[0]) + PutWords(words[1..])
  }

  function HeaderPrefix(id: U32, committed: U32, targets: seq<U32>): (s: seq<byte>)
    requires |targets| <= MAX_PER_TXN
    ensures |s| == CRC_OFFSET
  {
    PutU32(MAGIC) + PutU32(id) + PutU32(|targets|) + PutU32(committed) + TargetWords(targets)
  }

  function PutCrc(c: bv32): (s: seq<byte>)
    ensures |s| == 4
  {
    [(c & 0xFF) as bv8, ((c >> 8) & 0xFF) as bv8, ((c >> 16) & 0xFF) as bv8, ((c >> 24) & 0xFF) as bv8]
  }

  function GetCrc(s: seq<byte>, off: nat): bv32
    requires off + 4 <= |s|
  {
    (s[off] as bv32) | ((s[off + 1] as bv32) << 8) | ((s[off + 2] as bv32) << 16) | ((s[off + 3] as bv32) << 24)
  }

  lemma CrcBytes(c: bv32, b0: byte, b1: byte, b2: byte, b3: byte)
    requires b0 == (c & 0xFF) as bv8 && b1 == ((c >> 8) & 0xFF) as bv8
    requires b2 == ((c >> 16) & 0xFF) as bv8 && b3 == ((c >> 24) & 0xFF) as bv8
    ensures (b0 as bv32) | ((b1 as bv32) << 8) | ((b2 as bv32) << 16) | ((b3 as bv32) << 24) == c
  {
  }

  lemma CrcRoundTrip(s: seq<byte>, off: nat, c: bv32)
    requires off + 4 <= |s| && s[off..off + 4] == PutCrc(c)
    ensures GetCrc(s, off) == c
  {
    var t := s[off..off + 4];
    assert s[off] == t[0] && s[off + 1] == t[1] && s[off + 2] == t[2] && s[off + 3] == t[3];
    CrcBytes(c, s[off], s[off + 1], s[off + 2], s[off + 3]);
  }

  /** The header block that journal_commit writes, with its CRC filled in. */
  function Header(id: U32, committed: U32, targets: seq<U32>): Block
    requires |targets| <= MAX_PER_TXN
  {
    var prefix := HeaderPrefix(id, committed, targets);
    prefix + PutCrc(Crc32.Crc(prefix)) + Zeros(BLOCK_SIZE - CRC_OFFSET - 4)
  }

  /** What journal_replay decides from a header block. */
  datatype Verdict =
    | Ignore                        // no committed transaction here
    | Discard                       // damaged: clear the slot
    | Redo(targets: seq<U32>)       // write these targets again

  function GetWords(b: seq<byte>, off: nat, n: nat): (words: seq<U32>)
    requires off + 4 * n <= |b|
    ensures |words| == n
    decreases n
  {
    if n == 0 then [] else [GetU32(b, off)] + GetWords(b, off + 4, n - 1)
  }

  function Judge(b: Block): (v: Verdict)
    ensures v.Redo? ==> 1 <= |v.targets| <= MAX_PER_TXN
  {
    if GetU32(b, 0) != MAGIC || GetU32(b, 12) != 1 then Ignore
    else if Crc32.Crc(b[..CRC_OFFSET]) != GetCrc(b, CRC_OFFSET) then Discard
    else
      var n := GetU32(b, 8);
      if n == 0 || n > MAX_PER_TXN then Discard else Redo(GetWords(b, 16, n))
  }

  /** The checks of journal_replay on the header slot. */
  method Examine(hdr: Block) returns (v: Verdict)
    ensures v == Judge(hdr)
  {
    hide Crc32.Crc, GetU32, GetCrc, GetWords;
    if GetU32(hdr, 0) != MAGIC || GetU32(hdr, 12) != 1 {
      return Ignore;
    }
    var got := Crc32.JournalCrc(hdr[..CRC_OFFSET]);
    if got != GetCrc(hdr, CRC_OFFSET) {
      return Discard;
    }
    var n := GetU32(hdr, 8);
    if n == 0 || n > MAX_PER_TXN {
      return Discard;
    }
    v := Redo(GetWords(hdr, 16, n));
  }

  /** What replay does with a header slot, by the bytes of struct journal_txn_header. */
  lemma JudgeIff(b: Block)
    ensures Judge(b).Ignore? <==> GetU32(b, 0) != 0x4A4F5552 || GetU32(b, 12) != 1
    ensures Judge(b).Redo? <==>
              && GetU32(b, 0) == 0x4A4F5552 && GetU32(b, 12) == 1 && 1 <= GetU32(b, 8) <= 8
              && GetCrc(b, 48) == Crc32.Rfc1952(b[..48])
    ensures Judge(b).Redo? ==>
              && |Judge(b).targets| == GetU32(b, 8)
              && forall i :: 0 <= i < |Judge(b).targets| ==> Judge(b).targets[i] == GetU32(b, 16 + 4 * i)
  {
    hide Crc32.Crc, Crc32.Rfc1952, GetU32, GetCrc, GetWords;
    Crc32.CrcIsRfc1952(b[..48]);
    if Judge(b).Redo? {
      forall i | 0 <= i < |Judge(b).targets|
        ensures Judge(b).targets[i] == GetU32(b, 16 + 4 * i)
      {
        WordsGot(b, 16, GetU32(b, 8), i);
      }
    }
  }

  lemma {:induction false} WordsGot(b: seq<byte>, off: nat, n: nat, i: nat)
    requires off + 4 * n <= |b| && i < n
    ensures GetWords(b, off, n)[i] == GetU32(b, off + 4 * i)
    decreases n
  {
    hide GetU32;
    if i > 0 {
      WordsGot(b, off + 4, n - 1, i - 1);
    }
  }

  lemma {:induction false} WordsRoundTrip(b: seq<byte>, off: nat, words: seq<U32>, n: nat)
    requires n <= |words| && off + 4 * |words| <= |b|
    requires b[off..off + 4 * |words|] == PutWords(words)
    ensures GetWords(b, off, n) == words[..n]
    decreases n
  {
    hide PutU32, GetU32;
    if n > 0 {
      var all := PutWords(words);
      assert b[off..off + 4] == all[..4] == PutU32(words[0]);
      U32At(b, off, words[0]);
      assert b[off + 4..off + 4 + 4 * |words[1..]|] == all[4..] == PutWords(words[1..]);
      WordsRoundTrip(b, off + 4, words[1..], n - 1);
      assert words[..n] == [words[0]] + words[1..][..n - 1];
    }
  }

  /** Where the parts of a block put together from seven parts lie. */
  lemma SevenParts(m: seq<byte>, i: seq<byte>, n: seq<byte>, c: seq<byte>, t: seq<byte>, crc: seq<byte>, z: seq<byte>)
    requires |m| == |i| == |n| == |c| == |crc| == 4 && |t| == 32
    ensures var b := (m + i + n + c + t) + crc + z;
            && b[0..4] == m && b[4..8] == i && b[8..12] == n && b[12..16] == c && b[16..48] == t
            && b[..48] == m + i + n + c + t && b[48..52] == crc
  {
  }

  lemma HeaderParts(id: U32, committed: U32, targets: seq<U32>)
    requires |targets| <= MAX_PER_TXN
    ensures var b := Header(id, committed, targets);
            var prefix := HeaderPrefix(id, committed, targets);
            && b[0..4] == PutU32(MAGIC) && b[4..8] == PutU32(id)
            && b[8..12] == PutU32(|targets|) && b[12..16] == PutU32(committed)
            && b[16..48] == TargetWords(targets)
            && b[..CRC_OFFSET] == prefix && b[CRC_OFFSET..CRC_OFFSET + 4] == PutCrc(Crc32.Crc(prefix))
  {
    SevenParts(PutU32(MAGIC), PutU32(id), PutU32(|targets|), PutU32(committed), TargetWords(targets),
               PutCrc(Crc32.Crc(HeaderPrefix(id, committed, targets))), Zeros(BLOCK_SIZE - CRC_OFFSET - 4));
  }

  lemma ReadFields(b: Block, id: U32, committed: U32, n: U32)
    requires b[0..4] == PutU32(MAGIC) && b[4..8] == PutU32(id)
    requires b[8..12] == PutU32(n) && b[12..16] == PutU32(committed)
    ensures GetU32(b, 0) == MAGIC && GetU32(b, 4) == id && GetU32(b, 8) == n && GetU32(b, 12) == committed
  {
    U32At(b, 0, MAGIC);
    U32At(b, 4, id);
    U32At(b, 8, n);
    U32At(b, 12, committed);
  }

  lemma ReadTargets(b: Block, targets: seq<U32>)
    requires |targets| <= MAX_PER_TXN
    requires b[16..48] == TargetWords(targets)
    ensures GetWords(b, 16, |targets|) == targets
  {
    var words := targets + seq(MAX_PER_TXN - |targets|, _ => 0);
    WordsRoundTrip(b, 16, words, |targets|);
    assert words[..|targets|] == targets;
  }

  /**
   * The words of a header, as struct journal_txn_header has them: magic, id, number of blocks, committed, eight targets
   * and the CRC of all these; zeroes after that.
   */
  lemma HeaderWords(id: U32, committed: U32, targets: seq<U32>, i: nat)
    requires |targets| <= MAX_PER_TXN && i < MAX_PER_TXN
    ensures var b := Header(id, committed, targets);
            && GetU32(b, 0) == 0x4A4F5552 && GetU32(b, 4) == id && GetU32(b, 8) == |targets| && GetU32(b, 12) == committed
            && GetU32(b, 16 + 4 * i) == (if i < |targets| then targets[i] else 0)
            && GetCrc(b, 48) == Crc32.Crc(b[..48]) && forall k :: 52 <= k < BLOCK_SIZE ==> b[k] == 0
  {
    hide Crc32.Crc, PutU32, GetU32;
    var b := Header(id, committed, targets);
    HeaderParts(id, committed, targets);
    ReadFields(b, id, committed, |targets|);
    CrcRoundTrip(b, CRC_OFFSET, Crc32.Crc(HeaderPrefix(id, committed, targets)));
    var words := targets + seq(MAX_PER_TXN - |targets|, _ => 0);
    WordAt(b, 16, words, i);
  }

  lemma {:induction false} WordAt(b: seq<byte>, off: nat, words: seq<U32>, i: nat)
    requires i < |words| && off + 4 * |words| <= |b| && b[off..off + 4 * |words|] == PutWords(words)
    ensures GetU32(b, off + 4 * i) == words[i]
    decreases i
  {
    hide PutU32, GetU32;
    var all := PutWords(words);
    if i == 0 {
      assert b[off..off + 4] == all[..4] == PutU32(words[0]);
      U32At(b, off, words[0]);
    } else {
      assert b[off + 4..off + 4 + 4 * |words[1..]|] == all[4..] == PutWords(words[1..]);
      WordAt(b, off + 4, words[1..], i - 1);
    }
  }

  /** A committed header is understood as exactly the transaction it was written for. */
  lemma JudgeCommitted(id: U32, targets: seq<U32>)
    requires |targets| <= MAX_PER_TXN
    ensures Judge(Header(id, 1, targets)) == if |targets| == 0 then Discard else Redo(targets)
  {
    hide Header, HeaderPrefix, GetCrc, PutCrc, PutU32, GetU32, TargetWords, GetWords, Crc32.Crc;
    var b := Header(id, 1, targets);
    HeaderParts(id, 1, targets);
    ReadFields(b, id, 1, |targets|);
    ReadTargets(b, targets);
    CrcRoundTrip(b, CRC_OFFSET, Crc32.Crc(HeaderPrefix(id, 1, targets)));
  }

  /** A pending header is never replayed. */
  lemma JudgePending(id: U32, targets: seq<U32>)
    requires |targets| <= MAX_PER_TXN
    ensures Judge(Header(id, 0, targets)) == Ignore
  {
    hide Header, HeaderPrefix, GetCrc, PutCrc, PutU32, GetU32, TargetWords, GetWords, Crc32.Crc;
    HeaderParts(id, 0, targets);
    ReadFields(Header(id, 0, targets), id, 0, |targets|);
  }

  /** Nor is a cleared slot. */
  lemma JudgeZero()
    ensures Judge(ZeroBlock()) == Ignore
  {
    var z := ZeroBlock();
    assert GetU16(z, 0) == 0 && GetU16(z, 2) == 0;
  }

  /**
   * A committed header damaged only within four consecutive bytes of the covered prefix,
   * its stored CRC intact, is never replayed.
   */
  lemma DamagedHeaderNotReplayed(id: U32, targets: seq<U32>, b: Block, i: nat)
    requires |targets| <= MAX_PER_TXN
    requires b != Header(id, 1, targets)
    requires b[CRC_OFFSET..] == Header(id, 1, targets)[CRC_OFFSET..]
    requires Crc32.DifferOnlyIn(b[..CRC_OFFSET], Header(id, 1, targets)[..CRC_OFFSET], i)
    ensures !Judge(b).Redo?
  {
    hide Header, HeaderPrefix, Judge, GetCrc, PutCrc, PutU32, TargetWords, Crc32.Crc;
    var h, prefix := Header(id, 1, targets), HeaderPrefix(id, 1, targets);
    HeaderParts(id, 1, targets);
    SameFrom(b, h, CRC_OFFSET, 4);
    CrcRoundTrip(b, CRC_OFFSET, Crc32.Crc(prefix));
    DifferBefore(b, h, CRC_OFFSET);
    Crc32.BurstDetected(b[..CRC_OFFSET], prefix, i);
    CrcMismatch(b);
  }

  lemma DifferBefore(b: seq<byte>, h: seq<byte>, off: nat)
    requires off <= |b| && off <= |h| && b != h && b[off..] == h[off..]
    ensures b[..off] != h[..off]
  {
    assert b == b[..off] + b[off..] && h == h[..off] + h[off..];
  }

  lemma SameFrom(b: seq<byte>, h: seq<byte>, off: nat, n: nat)
    requires off + n <= |b| && off <= |h| && b[off..] == h[off..]
    ensures off + n <= |h| && b[off..off + n] == h[off..off + n]
  {
    assert |b| - off == |h| - off;
    assert b[off..off + n] == b[off..][..n] && h[off..off + n] == h[off..][..n];
  }

  lemma CrcMismatch(b: Block)
    requires Crc32.Crc(b[..CRC_OFFSET]) != GetCrc(b, CRC_OFFSET)
    ensures !Judge(b).Redo?
  {
    hide GetWords, GetU32, GetCrc;
  }
}
