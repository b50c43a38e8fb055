/** Allocation bitmaps of ext2 (src/kernel/fs/ext2.c): one bit per block or inode, counted and changed one at a time. */
module Ext2Bitmap {
  import opened Words

  /** 1u << k, for a bit within a byte. */
  function Mask(k: nat): byte
    requires k < 8
  {
    if k == 0 then 1 else if k == 1 then 2 else if k == 2 then 4 else if k == 3 then 8
    else if k == 4 then 16 else if k == 5 then 32 else if k == 6 then 64 else 128
  }

  /** Bit k of one byte: whether it is set, and the byte with and without it. */
  predicate Has(b: byte, k: nat)
    requires k < 8
  {
    b & Mask(k) != 0
  }

  function With(b: byte, k: nat): byte
    requires k < 8
  {
    b | Mask(k)
  }

  function Minus(b: byte, k: nat): byte
    requires k < 8
  {
    b & !Mask(k)
  }

  predicate TestBit(bm: seq<byte>, bit: nat)
    requires bit < 8 * |bm|
  {
    Has(bm[bit / 8], bit % 8)
  }

  function SetBit(bm: seq<byte>, bit: nat): (r: seq<byte>)
    requires bit < 8 * |bm|
    ensures |r| == |bm|
  {
    bm[bit / 8 := With(bm[bit / 8], bit % 8)]
  }

  function ClearBit(bm: seq<byte>, bit: nat): (r: seq<byte>)
    requires bit < 8 * |bm|
    ensures |r| == |bm|
  {
    bm[bit / 8 := Minus(bm[bit / 8], bit % 8)]
  }

  lemma MaskBits(b: byte, j: nat, k: nat)
    requires j < 8 && k < 8
    ensures Has(With(b, j), k) <==> j == k || Has(b, k)
    ensures Has(Minus(b, j), k) <==> j != k && Has(b, k)
  {
  }

  /** Bits are the same if and only if their bytes and their places in them are. */
  lemma SameBit(a: nat, b: nat)
    ensures a == b <==> a / 8 == b / 8 && a % 8 == b % 8
  {
  }

  /** Setting a bit sets that bit and no other. */
  lemma SetBitTests(bm: seq<byte>, bit: nat, c: nat)
    requires bit < 8 * |bm| && c < 8 * |bm|
    ensures TestBit(SetBit(bm, bit), c) <==> c == bit || TestBit(bm, c)
  {
    hide Has, With;
    SameBit(bit, c);
    MaskBits(bm[c / 8], bit % 8, c % 8);
  }

  /** Clearing a bit clears that bit and no other. */
  lemma ClearBitTests(bm: seq<byte>, bit: nat, c: nat)
    requires bit < 8 * |bm| && c < 8 * |bm|
    ensures TestBit(ClearBit(bm, bit), c) <==> c != bit && TestBit(bm, c)
  {
    hide Has, Minus;
    SameBit(bit, c);
    MaskBits(bm[c / 8], bit % 8, c % 8);
  }

  /** The number of clear bits among the first n. */
  function CountClear(bm: seq<byte>, n: nat): (count: nat)
    requires n <= 8 * |bm|
    ensures count <= n
  {
    if n == 0 then 0 else CountClear(bm, n - 1) + if TestBit(bm, n - 1) then 0 else 1
  }

  lemma {:induction false} CountAfterSet(bm: seq<byte>, bit: nat, n: nat)
    requires bit < 8 * |bm| && n <= 8 * |bm| && !TestBit(bm, bit)
    ensures CountClear(SetBit(bm, bit), n) == CountClear(bm, n) - if bit < n then 1 else 0
    decreases n
  {
    hide TestBit, SetBit;
    if n > 0 {
      CountAfterSet(bm, bit, n - 1);
      SetBitTests(bm, bit, n - 1);
    }
  }

  lemma {:induction false} CountAfterClear(bm: seq<byte>, bit: nat, n: nat)
    requires bit < 8 * |bm| && n <= 8 * |bm| && TestBit(bm, bit)
    ensures CountClear(ClearBit(bm, bit), n) == CountClear(bm, n) + if bit < n then 1 else 0
    decreases n
  {
    hide TestBit, ClearBit;
    if n > 0 {
      CountAfterClear(bm, bit, n - 1);
      ClearBitTests(bm, bit, n - 1);
    }
  }

  /** No clear bit, no free count: a scan with a non-zero count finds one. */
  lemma {:induction false} CountZeroIfFull(bm: seq<byte>, n: nat)
    requires n <= 8 * |bm|
    requires forall i :: 0 <= i < n ==> TestBit(bm, i)
    ensures CountClear(bm, n) == 0
    decreases n
  {
    hide TestBit;
    if n > 0 {
      CountZeroIfFull(bm, n - 1);
    }
  }

  /** A clear bit shows in the count. */
  lemma {:induction false} CountPositive(bm: seq<byte>, bit: nat, n: nat)
    requires bit < n <= 8 * |bm| && !TestBit(bm, bit)
    ensures CountClear(bm, n) > 0
    decreases n
  {
    hide TestBit;
    if bit < n - 1 {
      CountPositive(bm, bit, n - 1);
    }
  }
}
