/** The CRC that guards the journal header (src/kernel/fs/journal.c), and how much damage it is sure to notice. */
module Crc32 {
  import opened Words

  // ----- Shift registers in general: over any type of register -----

  function Iterate<T>(f: T -> T, x: T, n: nat): T
    decreases n
  {
    if n == 0 then x else f(Iterate(f, x, n - 1))
  }

  /** The register after the bytes of s, from register c. */
  function Fold<T, B>(step: (T, B) -> T, c: T, s: seq<B>): T
    decreases |s|
  {
    if |s| == 0 then c else Fold(step, step(c, s[0]), s[1..])
  }

  ghost predicate Injective<T(!new)>(f: T -> T) {
    forall a, b :: f(a) == f(b) ==> a == b
  }

  ghost predicate Linear<T(!new)>(f: T -> T, op: (T, T) -> T) {
    forall a, b :: f(op(a, b)) == op(f(a), f(b))
  }

  lemma {:induction false} IterateLinear<T(!new)>(f: T -> T, op: (T, T) -> T, x: T, y: T, n: nat)
    requires Linear(f, op)
    ensures Iterate(f, op(x, y), n) == op(Iterate(f, x, n), Iterate(f, y, n))
    decreases n
  {
    if n > 0 {
      IterateLinear(f, op, x, y, n - 1);
    }
  }

  lemma {:induction false} IterateInjective<T(!new)>(f: T -> T, x: T, y: T, n: nat)
    requires Injective(f)
    requires Iterate(f, x, n) == Iterate(f, y, n)
    ensures x == y
    decreases n
  {
    if n > 0 {
      IterateInjective(f, x, y, n - 1);
    }
  }

  lemma {:induction false} FoldConcat<T, B>(step: (T, B) -> T, c: T, s: seq<B>, t: seq<B>)
    ensures Fold(step, c, s + t) == Fold(step, Fold(step, c, s), t)
    decreases |s|
  {
    if |s| == 0 {
      assert s + t == t;
    } else {
      assert (s + t)[1..] == s[1..] + t;
      FoldConcat(step, step(c, s[0]), s[1..], t);
    }
  }

  /** Equal bytes keep different registers different. */
  lemma {:induction false} FoldInjective<T(!new), B(!new)>(step: (T, B) -> T, x: T, y: T, s: seq<B>)
    requires InjectiveStep(step)
    requires Fold(step, x, s) == Fold(step, y, s)
    ensures x == y
    decreases |s|
  {
    if |s| > 0 {
      FoldInjective(step, step(x, s[0]), step(y, s[0]), s[1..]);
    }
  }

  lemma {:induction false} FoldSame<T(!new), B(!new)>(step: (T, B) -> T, other: (T, B) -> T, c: T, s: seq<B>)
    requires forall a, k :: step(a, k) == other(a, k)
    ensures Fold(step, c, s) == Fold(other, c, s)
    decreases |s|
  {
    if |s| > 0 {
      FoldSame(step, other, step(c, s[0]), s[1..]);
    }
  }

  ghost predicate InjectiveStep<T(!new), B(!new)>(step: (T, B) -> T) {
    forall a, b, k :: step(a, k) == step(b, k) ==> a == b
  }

  ghost predicate Associative<T(!new)>(op: (T, T) -> T) {
    forall a, b, c :: op(op(a, b), c) == op(a, op(b, c))
  }

  ghost predicate Cancels<T(!new)>(op: (T, T) -> T) {
    forall c, a, b :: op(c, a) == op(c, b) ==> a == b
  }

  /** A step mixes a byte into the lowest lane and shifts. */
  ghost predicate MixesLane<T(!new), B(!new)>(step: (T, B) -> T, f: T -> T, op: (T, T) -> T, low: B -> T) {
    forall c, b :: step(c, b) == f(op(c, low(b)))
  }

  /** Every shift moves a byte from the higher to the lower lane. */
  ghost predicate MovesDown<T(!new), B(!new)>(f: T -> T, high: B -> T, low: B -> T) {
    forall b :: f(high(b)) == low(b)
  }

  /** Four bytes put together, each in a lane of its own. */
  function Pack<T, B>(op: (T, T) -> T, l0: B -> T, l1: B -> T, l2: B -> T, l3: B -> T, w: seq<B>): T
    requires |w| == 4
  {
    op(l0(w[0]), op(l1(w[1]), op(l2(w[2]), l3(w[3]))))
  }

  /** Four bytes at once: each could have been mixed in at the start, in its own lane. */
  lemma FoldFour<T(!new), B(!new)>(
    step: (T, B) -> T, f: T -> T, op: (T, T) -> T, l0: B -> T, l1: B -> T, l2: B -> T, l3: B -> T, c: T, w: seq<B>)
    requires |w| == 4
    requires Linear(f, op) && Associative(op) && MixesLane(step, f, op, l0)
    requires MovesDown(f, l1, l0) && MovesDown(f, l2, l1) && MovesDown(f, l3, l2)
    ensures Fold(step, c, w) == Iterate(f, op(c, Pack(op, l0, l1, l2, l3, w)), 4)
  {
    var y0 := op(c, l0(w[0]));
    var y1 := op(y0, l1(w[1]));
    var y2 := op(y1, l2(w[2]));
    var y3 := op(y2, l3(w[3]));
    var c1, c2, c3, c4 := f(y0), f(f(y1)), f(f(f(y2))), f(f(f(f(y3))));
    assert step(c, w[0]) == c1;
    assert step(c1, w[1]) == c2 by {
      assert f(y1) == op(f(y0), f(l1(w[1])));
    }
    assert step(c2, w[2]) == c3 by {
      assert f(y2) == op(f(y1), f(l2(w[2])));
      assert f(f(y2)) == op(f(f(y1)), f(l1(w[2])));
    }
    assert step(c3, w[3]) == c4 by {
      assert f(y3) == op(f(y2), f(l3(w[3])));
      assert f(f(y3)) == op(f(f(y2)), f(l2(w[3])));
      assert f(f(f(y3))) == op(f(f(f(y2))), f(l1(w[3])));
    }
    var t1, t2, t3 := w[1..], w[1..][1..], w[1..][1..][1..];
    assert t1[0] == w[1] && t2[0] == w[2] && t3[0] == w[3] && t3[1..] == [];
    assert Fold(step, c, w) == Fold(step, c1, t1) == Fold(step, c2, t2) == Fold(step, c3, t3) == Fold(step, c4, []);
    assert Iterate(f, y3, 0) == y3;
    assert Iterate(f, y3, 1) == f(y3);
    assert Iterate(f, y3, 2) == f(f(y3));
    assert Iterate(f, y3, 3) == f(f(f(y3)));
    assert y3 == op(c, Pack(op, l0, l1, l2, l3, w)) by {
      assert y2 == op(y0, op(l1(w[1]), l2(w[2])));
      assert y3 == op(y1, op(l2(w[2]), l3(w[3])));
      assert y3 == op(y0, op(l1(w[1]), op(l2(w[2]), l3(w[3]))));
    }
  }

  /** Four bytes that leave the register as four others do make up the same word. */
  lemma WindowPacked<T(!new), B(!new)>(
    step: (T, B) -> T, f: T -> T, op: (T, T) -> T, l0: B -> T, l1: B -> T, l2: B -> T, l3: B -> T,
    c: T, w: seq<B>, v: seq<B>)
    requires |w| == |v| == 4
    requires Linear(f, op) && Associative(op) && Cancels(op) && Injective(f) && MixesLane(step, f, op, l0)
    requires MovesDown(f, l1, l0) && MovesDown(f, l2, l1) && MovesDown(f, l3, l2)
    requires Fold(step, c, w) == Fold(step, c, v)
    ensures Pack(op, l0, l1, l2, l3, w) == Pack(op, l0, l1, l2, l3, v)
  {
    FoldFour(step, f, op, l0, l1, l2, l3, c, w);
    FoldFour(step, f, op, l0, l1, l2, l3, c, v);
    IterateInjective(f, op(c, Pack(op, l0, l1, l2, l3, w)), op(c, Pack(op, l0, l1, l2, l3, v)), 4);
  }

  lemma {:induction false} IterateSum<T>(f: T -> T, x: T, m: nat, n: nat)
    ensures Iterate(f, x, m + n) == Iterate(f, Iterate(f, x, m), n)
    decreases n
  {
    if n > 0 {
      IterateSum(f, x, m, n - 1);
    }
  }

  lemma IterateTwice<T>(f: T -> T, x: T, y: T, z: T, n: nat)
    requires Iterate(f, x, n) == y && Iterate(f, y, n) == z
    ensures Iterate(f, x, n + n) == z
  {
    IterateSum(f, x, n, n);
  }

  /** What linearity gives for a register split in two. */
  lemma SplitStep<T(!new)>(f: T -> T, op: (T, T) -> T, x: T, low: T, high: T)
    requires Linear(f, op) && x == op(low, high)
    ensures f(x) == op(f(low), f(high))
  {
  }

  /** Two messages of the same length agree except, perhaps, on the four bytes from i on. */
  ghost predicate DifferOnlyIn<B>(s: seq<B>, t: seq<B>, i: nat) {
    |s| == |t| && i + 4 <= |s| && s[..i] == t[..i] && s[i + 4..] == t[i + 4..]
  }

  /** A damaged window that changes the register leaves it changed. */
  lemma WindowSurvives<T(!new), B(!new)>(step: (T, B) -> T, c: T, s: seq<B>, t: seq<B>, i: nat)
    requires DifferOnlyIn(s, t, i)
    requires InjectiveStep(step)
    requires Fold(step, c, s) == Fold(step, c, t)
    ensures var mid := Fold(step, c, s[..i]);
            Fold(step, mid, s[i..i + 4]) == Fold(step, mid, t[i..i + 4])
  {
    var head, w, v, tail := s[..i], s[i..i + 4], t[i..i + 4], s[i + 4..];
    assert s == head + (w + tail) && t == head + (v + tail);
    var mid := Fold(step, c, head);
    FoldConcat(step, c, head, w + tail);
    FoldConcat(step, c, head, v + tail);
    FoldConcat(step, mid, w, tail);
    FoldConcat(step, mid, v, tail);
    FoldInjective(step, Fold(step, mid, w), Fold(step, mid, v), tail);
  }

  // ----- The CRC-32 register -----

  const POLY: bv32 := 0xEDB88320

  /** One shift of the reflected register. */
  function Shift(c: bv32): bv32 {
    if c & 1 == 1 then (c >> 1) ^ POLY else c >> 1
  }

  /** The eight shifts made for every byte. */
  function Shift8(c: bv32): bv32 {
    Iterate(Shift, c, 8)
  }

  function Mix(c: bv32, b: byte): bv32 {
    c ^ (b as bv32)
  }

  function Step(c: bv32, b: byte): bv32 {
    Shift8(Mix(c, b))
  }

  function Crc(s: seq<byte>): bv32 {
    !Fold(Step, 0xFFFF_FFFF, s)
  }

  /** The inner loop of journal_crc. */
  method ShiftByte(c: bv32) returns (crc: bv32)
    ensures crc == Shift8(c)
  {
    crc := c;
    for b := 0 to 8
      invariant crc == Iterate(Shift, c, b)
    {
      var mask: bv32 := -(crc & 1);
      MaskIsShift(crc, mask);
      crc := (crc >> 1) ^ (POLY & mask);
    }
  }

  lemma MaskIsShift(c: bv32, mask: bv32)
    requires mask == -(c & 1)
    ensures (c >> 1) ^ (POLY & mask) == Shift(c)
  {
    LowBit(c);
    if c & 1 == 0 {
      assert mask == 0;
      MaskNone(POLY);
      XorZero(c >> 1);
    } else {
      assert mask == 0xFFFF_FFFF;
      MaskAll(POLY);
    }
  }

  lemma MaskNone(p: bv32)
    ensures p & 0 == 0
  {
  }

  lemma MaskAll(p: bv32)
    ensures p & 0xFFFF_FFFF == p
  {
  }

  lemma XorZero(x: bv32)
    ensures x ^ 0 == x && 0 ^ x == x
  {
  }

  /** journal_crc, over the covered bytes of a header. */
  method JournalCrc(bytes: seq<byte>) returns (crc: bv32)
    ensures crc == Crc(bytes)
  {
    crc := 0xFFFF_FFFF;
    for i := 0 to |bytes|
      invariant Fold(Step, crc, bytes[i..]) == Fold(Step, 0xFFFF_FFFF, bytes)
    {
      assert bytes[i..][1..] == bytes[i + 1..];
      crc := ShiftByte(Mix(crc, bytes[i]));
    }
    crc := !crc;
  }

  // ----- The register is linear and injective -----

  function Xor(x: bv32, y: bv32): bv32 {
    x ^ y
  }

  lemma LowBit(x: bv32)
    ensures x & 1 == 0 || x & 1 == 1
  {
  }

  lemma XorLow(x: bv32, y: bv32)
    ensures (x ^ y) >> 1 == (x >> 1) ^ (y >> 1)
    ensures (x ^ y) & 1 == (x & 1) ^ (y & 1)
  {
  }

  lemma XorCommutes(x: bv32, y: bv32)
    ensures x ^ y == y ^ x
  {
  }

  lemma XorAssociates(x: bv32, y: bv32, p: bv32)
    ensures x ^ (y ^ p) == (x ^ y) ^ p
  {
  }

  lemma XorCancelsBoth(x: bv32, y: bv32, p: bv32)
    ensures (x ^ p) ^ (y ^ p) == x ^ y
  {
  }

  lemma ShiftLinearEven(x: bv32, y: bv32)
    requires x & 1 == 0
    ensures Shift(x ^ y) == Shift(x) ^ Shift(y)
  {
    XorLow(x, y);
    XorZero(y & 1);
    assert (x ^ y) & 1 == y & 1;
    if y & 1 == 1 {
      XorAssociates(x >> 1, y >> 1, POLY);
    }
  }

  lemma ShiftLinearOdd(x: bv32, y: bv32)
    requires x & 1 == 1 && y & 1 == 1
    ensures Shift(x ^ y) == Shift(x) ^ Shift(y)
  {
    XorLow(x, y);
    XorCancelsBoth(x >> 1, y >> 1, POLY);
  }

  lemma ShiftLinear(x: bv32, y: bv32)
    ensures Shift(Xor(x, y)) == Xor(Shift(x), Shift(y))
  {
    LowBit(x);
    LowBit(y);
    if x & 1 == 0 {
      ShiftLinearEven(x, y);
    } else if y & 1 == 0 {
      ShiftLinearEven(y, x);
      XorCommutes(x, y);
      XorCommutes(Shift(x), Shift(y));
    } else {
      ShiftLinearOdd(x, y);
    }
  }

  lemma Shift8Linear()
    ensures Linear(Shift8, Xor)
  {
    forall a, b
      ensures Shift(Xor(a, b)) == Xor(Shift(a), Shift(b))
    {
      ShiftLinear(a, b);
    }
    forall a, b
      ensures Shift8(Xor(a, b)) == Xor(Shift8(a), Shift8(b))
    {
      IterateLinear(Shift, Xor, a, b, 8);
    }
  }

  lemma ShiftInjective(x: bv32, y: bv32)
    requires Shift(x) == Shift(y)
    ensures x == y
  {
  }

  lemma Shift8Injective()
    ensures Injective(Shift8)
  {
    forall a, b | Shift(a) == Shift(b)
      ensures a == b
    {
      ShiftInjective(a, b);
    }
    forall a, b | Shift8(a) == Shift8(b)
      ensures a == b
    {
      IterateInjective(Shift, a, b, 8);
    }
  }

  lemma MixInjective(x: bv32, y: bv32, b: byte)
    requires Mix(x, b) == Mix(y, b)
    ensures x == y
  {
  }

  lemma StepInjective()
    ensures InjectiveStep(Step)
  {
    Shift8Injective();
    forall x, y, b | Step(x, b) == Step(y, b)
      ensures x == y
    {
      MixInjective(x, y, b);
    }
  }

  lemma TwoZerosShiftOut(x: bv32)
    requires x & 3 == 0
    ensures Iterate(Shift, x, 2) == x >> 2
  {
    assert Iterate(Shift, x, 0) == x;
    assert Iterate(Shift, x, 1) == Shift(x) == x >> 1;
    assert Shift(x >> 1) == x >> 2;
  }

  lemma FourZerosShiftOut(x: bv32)
    requires x & 15 == 0
    ensures Iterate(Shift, x, 4) == x >> 4
  {
    TwoZerosShiftOut(x);
    TwoZerosShiftOut(x >> 2);
    IterateTwice(Shift, x, x >> 2, x >> 4, 2);
  }

  /** A zero low byte just shifts out. */
  lemma ZeroByteShiftsOut(x: bv32)
    requires x & 0xFF == 0
    ensures Shift8(x) == x >> 8
  {
    FourZerosShiftOut(x);
    FourZerosShiftOut(x >> 4);
    IterateTwice(Shift, x, x >> 4, x >> 8, 4);
  }

  // ----- Section 8 of RFC 1952: the table-driven form -----

  /** Entry n of make_crc_table. */
  function TableEntry(n: byte): bv32 {
    Iterate(Shift, n as bv32, 8)
  }

  function LowByte(c: bv32): byte {
    (c & 0xFF) as bv8
  }

  /** The body of the loop of update_crc. */
  function TableStep(c: bv32, b: byte): bv32 {
    Xor(TableEntry(LowByte(Mix(c, b))), c >> 8)
  }

  lemma SplitLowByte(c: bv32, b: byte)
    ensures Mix(c, b) == Xor(LowByte(Mix(c, b)) as bv32, Mix(c, b) & 0xFFFF_FF00)
    ensures (Mix(c, b) & 0xFFFF_FF00) & 0xFF == 0
    ensures (Mix(c, b) & 0xFFFF_FF00) >> 8 == c >> 8
  {
  }

  lemma TableStepAgrees(c: bv32, b: byte)
    ensures Step(c, b) == TableStep(c, b)
  {
    var low, high := LowByte(Mix(c, b)) as bv32, Mix(c, b) & 0xFFFF_FF00;
    SplitLowByte(c, b);
    Shift8Linear();
    SplitStep(Shift8, Xor, Mix(c, b), low, high);
    ZeroByteShiftsOut(high);
  }

  /** crc() of RFC 1952: update_crc started from 0, complementing on the way in and out. */
  function Rfc1952(s: seq<byte>): bv32 {
    Xor(Fold(TableStep, Xor(0, 0xFFFF_FFFF), s), 0xFFFF_FFFF)
  }

  /** Two entries of the table, and the CRC of one letter, as the standard has them. */
  lemma KnownAnswers()
    ensures TableEntry(1) == 0x7707_3096 && TableEntry(128) == 0xEDB8_8320
    ensures Crc([]) == 0 && Crc([97]) == 0xE8B7_BE43
  {
    Eight(1);
    Eight(128);
    var c := Mix(0xFFFF_FFFF, 97);
    Eight(c);
    assert [97][1..] == [];
    assert Fold(Step, 0xFFFF_FFFF, [97]) == Fold(Step, Step(0xFFFF_FFFF, 97), []);
  }

  lemma Eight(c: bv32)
    ensures Shift8(c) == Shift(Shift(Shift(Shift(Shift(Shift(Shift(Shift(c))))))))
  {
    hide Shift;
    var a := Shift(Shift(Shift(Shift(c))));
    assert Iterate(Shift, c, 8) == Iterate(Shift, a, 4);
  }

  lemma ComplementIsXor(c: bv32)
    ensures !c == Xor(c, 0xFFFF_FFFF)
  {
  }

  /** The journal's CRC is the CRC-32 of section 8 of RFC 1952. */
  lemma CrcIsRfc1952(s: seq<byte>)
    ensures Crc(s) == Rfc1952(s)
  {
    forall c, b
      ensures Step(c, b) == TableStep(c, b)
    {
      TableStepAgrees(c, b);
    }
    FoldSame(Step, TableStep, 0xFFFF_FFFF, s);
    ComplementIsXor(Fold(Step, 0xFFFF_FFFF, s));
    assert Xor(0, 0xFFFF_FFFF) == 0xFFFF_FFFF;
  }

  // ----- Damage confined to four consecutive bytes is always noticed -----

  function Lane0(b: byte): bv32 { b as bv32 }
  function Lane1(b: byte): bv32 { (b as bv32) << 8 }
  function Lane2(b: byte): bv32 { (b as bv32) << 16 }
  function Lane3(b: byte): bv32 { (b as bv32) << 24 }

  lemma LaneBits(b: byte)
    ensures Lane1(b) & 0xFF == 0 && Lane1(b) >> 8 == Lane0(b)
    ensures Lane2(b) & 0xFF == 0 && Lane2(b) >> 8 == Lane1(b)
    ensures Lane3(b) & 0xFF == 0 && Lane3(b) >> 8 == Lane2(b)
  {
  }

  lemma LaneShift(b: byte)
    ensures Shift8(Lane1(b)) == Lane0(b)
    ensures Shift8(Lane2(b)) == Lane1(b)
    ensures Shift8(Lane3(b)) == Lane2(b)
  {
    LaneBits(b);
    ZeroByteShiftsOut(Lane1(b));
    ZeroByteShiftsOut(Lane2(b));
    ZeroByteShiftsOut(Lane3(b));
  }

  lemma StepMixesLane(c: bv32, b: byte)
    ensures Step(c, b) == Shift8(Xor(c, Lane0(b)))
  {
  }

  lemma StepMixesLanes()
    ensures MixesLane(Step, Shift8, Xor, Lane0)
  {
    forall c, b
      ensures Step(c, b) == Shift8(Xor(c, Lane0(b)))
    {
      StepMixesLane(c, b);
    }
  }

  lemma LanesMoveDown()
    ensures MovesDown(Shift8, Lane1, Lane0) && MovesDown(Shift8, Lane2, Lane1) && MovesDown(Shift8, Lane3, Lane2)
  {
    forall b: byte
      ensures Shift8(Lane1(b)) == Lane0(b)
      ensures Shift8(Lane2(b)) == Lane1(b)
      ensures Shift8(Lane3(b)) == Lane2(b)
    {
      LaneShift(b);
    }
  }

  lemma XorAssociative()
    ensures Associative(Xor)
  {
    forall a, b, c
      ensures Xor(Xor(a, b), c) == Xor(a, Xor(b, c))
    {
      XorAssociates(a, b, c);
    }
  }

  lemma XorCancellative()
    ensures Cancels(Xor)
  {
    forall c, a, b | Xor(c, a) == Xor(c, b)
      ensures a == b
    {
      XorCancels(c, a, b);
    }
  }

  lemma XorCancels(c: bv32, x: bv32, y: bv32)
    requires c ^ x == c ^ y
    ensures x == y
  {
  }

  function Word(b0: byte, b1: byte, b2: byte, b3: byte): bv32 {
    Xor(Lane0(b0), Xor(Lane1(b1), Xor(Lane2(b2), Lane3(b3))))
  }

  lemma WordInjective(a0: byte, a1: byte, a2: byte, a3: byte, b0: byte, b1: byte, b2: byte, b3: byte)
    requires Word(a0, a1, a2, a3) == Word(b0, b1, b2, b3)
    ensures a0 == b0 && a1 == b1 && a2 == b2 && a3 == b3
  {
  }

  lemma PackIsWord(w: seq<byte>)
    requires |w| == 4
    ensures Pack(Xor, Lane0, Lane1, Lane2, Lane3, w) == Word(w[0], w[1], w[2], w[3])
  {
  }

  lemma PackInjective(w: seq<byte>, v: seq<byte>)
    requires |w| == |v| == 4
    requires Pack(Xor, Lane0, Lane1, Lane2, Lane3, w) == Pack(Xor, Lane0, Lane1, Lane2, Lane3, v)
    ensures w == v
  {
    PackIsWord(w);
    PackIsWord(v);
    WordInjective(w[0], w[1], w[2], w[3], v[0], v[1], v[2], v[3]);
  }

  lemma WindowDetected(c: bv32, w: seq<byte>, v: seq<byte>)
    requires |w| == |v| == 4
    requires Fold(Step, c, w) == Fold(Step, c, v)
    ensures w == v
  {
    Shift8Linear();
    Shift8Injective();
    StepMixesLanes();
    LanesMoveDown();
    XorAssociative();
    XorCancellative();
    WindowPacked(Step, Shift8, Xor, Lane0, Lane1, Lane2, Lane3, c, w, v);
    PackInjective(w, v);
  }

  lemma CrcFixesRegister(s: seq<byte>, t: seq<byte>)
    requires Crc(s) == Crc(t)
    ensures Fold(Step, 0xFFFF_FFFF, s) == Fold(Step, 0xFFFF_FFFF, t)
  {
  }

  /** Damage confined to a window is confined to nothing if the window is undamaged. */
  lemma SameWindow(s: seq<byte>, t: seq<byte>, i: nat)
    requires DifferOnlyIn(s, t, i)
    requires s[i..i + 4] == t[i..i + 4]
    ensures s == t
  {
    assert s == s[..i] + s[i..i + 4] + s[i + 4..];
    assert t == t[..i] + t[i..i + 4] + t[i + 4..];
  }

  /** Messages that differ at most within four consecutive bytes have the same CRC only if they are equal. */
  lemma BurstDetected(s: seq<byte>, t: seq<byte>, i: nat)
    requires DifferOnlyIn(s, t, i)
    ensures Crc(s) == Crc(t) <==> s == t
  {
    if Crc(s) == Crc(t) {
      CrcFixesRegister(s, t);
      StepInjective();
      WindowSurvives(Step, 0xFFFF_FFFF, s, t, i);
      WindowDetected(Fold(Step, 0xFFFF_FFFF, s[..i]), s[i..i + 4], t[i..i + 4]);
      SameWindow(s, t, i);
    }
  }
}
