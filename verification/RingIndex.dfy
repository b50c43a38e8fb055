/** Index arithmetic of the ring buffer (include/kernel/ringbuf.h:22-39): masking with size - 1 in 32-bit words. */
module RingIndex {
  import opened Words

  function Pow2(k: nat): (p: nat)
    ensures p > 0
  {
    if k == 0 then 1 else 2 * Pow2(k - 1)
  }

  /** Bitwise and of two numbers. */
  function And(a: nat, b: nat): nat
    decreases a
  {
    if a == 0 || b == 0 then 0 else (a % 2) * (b % 2) + 2 * And(a / 2, b / 2)
  }

  /** Binary digit k of x. */
  function Bit(x: nat, k: nat): nat
    decreases k
  {
    if k == 0 then x % 2 else Bit(x / 2, k - 1)
  }

  /** A digit is set in both or it is not set in the result. */
  lemma {:induction false} AndBits(a: nat, b: nat, k: nat)
    ensures Bit(And(a, b), k) == Bit(a, k) * Bit(b, k)
    decreases k
  {
    if a == 0 || b == 0 {
      NoBits(k);
    } else if k > 0 {
      AndBits(a / 2, b / 2, k - 1);
      assert And(a, b) / 2 == And(a / 2, b / 2);
    }
  }

  lemma {:induction false} NoBits(k: nat)
    ensures Bit(0, k) == 0
    decreases k
  {
    if k > 0 {
      NoBits(k - 1);
    }
  }

  /** A difference or sum as a 32-bit unsigned word holds it. */
  function Word(x: int): (w: nat)
    ensures w < TWO32
  {
    x % TWO32
  }

  lemma ModUnique(x: int, m: nat, q: int, r: int)
    requires m > 0 && x == q * m + r && 0 <= r < m
    ensures x % m == r
  {
    var a := x / m;
    assert x == a * m + x % m;
    if a < q {
      MulBelow(a, q, m);
      assert false;
    } else if q < a {
      MulBelow(q, a, m);
      assert false;
    }
  }

  lemma DoubleMod(x: nat, p: nat)
    requires p > 0
    ensures x % (2 * p) == 2 * ((x / 2) % p) + x % 2
  {
    var h := x / 2;
    var q, r := h / p, h % p;
    assert h == q * p + r && x == 2 * h + x % 2;
    assert q * (2 * p) == 2 * (q * p);
    ModUnique(x, 2 * p, q, 2 * r + x % 2);
  }

  /** Masking with 2^k - 1 is reduction modulo 2^k. */
  lemma {:induction false} AndIsMod(x: nat, k: nat)
    ensures And(x, Pow2(k) - 1) == x % Pow2(k)
    decreases k
  {
    if k == 0 {
      ModUnique(x, 1, x, 0);
    } else if x == 0 {
      ModUnique(0, Pow2(k), 0, 0);
    } else {
      var p := Pow2(k - 1);
      AndIsMod(x / 2, k - 1);
      DoubleMod(x, p);
    }
  }

  /** & rb->mask, on a 32-bit word. */
  function Mask(size: nat, x: int): nat
    requires size > 0
  {
    And(Word(x), size - 1)
  }

  lemma {:induction false} Pow2Split(k: nat, n: nat)
    requires k <= n
    ensures Pow2(n) == Pow2(n - k) * Pow2(k)
    decreases k
  {
    if k > 0 {
      Pow2Split(k - 1, n - 1);
      DoubleProduct(Pow2(n - k), Pow2(k - 1));
    }
  }

  lemma DoubleProduct(a: nat, b: nat)
    ensures 2 * (a * b) == a * (2 * b)
  {
  }

  lemma Pow32()
    ensures Pow2(32) == TWO32
  {
    assert Pow2(8) == 256;
    Pow2Split(8, 16);
    Pow2Split(16, 32);
  }

  /** Since the size divides 2^32, wrapping at 32 bits first makes no difference. */
  lemma MaskWord(x: int, k: nat)
    requires k < 32
    ensures And(Word(x), Pow2(k) - 1) == x % Pow2(k)
  {
    Pow32();
    Pow2Split(k, 32);
    AndIsMod(Word(x), k);
    ModOfMod(x, Pow2(32 - k), Pow2(k));
  }

  lemma ModOfMod(x: int, n: nat, p: nat)
    requires n > 0 && p > 0 && n * p > 0
    ensures (x % (n * p)) % p == x % p
  {
    var q, r := x / (n * p), x % (n * p);
    assert x == q * (n * p) + r;
    ModAdd(q, n, p, r, x);
  }

  lemma ModAdd(q: int, n: nat, p: nat, r: nat, x: int)
    requires p > 0 && x == q * (n * p) + r
    ensures r % p == x % p
  {
    var a, c := r / p, r % p;
    assert r == a * p + c;
    assert q * (n * p) == (q * n) * p;
    assert x == (q * n + a) * p + c;
    ModUnique(x, p, q * n + a, c);
  }

  lemma ModStep(x: int, m: nat)
    requires m > 0
    ensures (x % m + 1) % m == (x + 1) % m
    ensures 0 <= x % m < m
  {
    var q, r := x / m, x % m;
    if r + 1 < m {
      ModUnique(x + 1, m, q, r + 1);
      ModUnique(r + 1, m, 0, r + 1);
    } else {
      assert x + 1 == q * m + m == (q + 1) * m;
      ModUnique(x + 1, m, q + 1, 0);
      ModUnique(m, m, 1, 0);
    }
  }

  /** The distance between two counters can be read off their slots. */
  lemma Distance(a: int, b: int, m: nat)
    requires m > 0 && a <= b < a + m
    ensures (b % m - a % m) % m == b - a
  {
    var p, q := a / m, b / m;
    assert a == p * m + a % m && b == q * m + b % m;
    assert b % m - a % m == (p - q) * m + (b - a);
    ModUnique(b % m - a % m, m, p - q, b - a);
  }

  /** Counters less than m apart use different slots. */
  lemma SlotsDiffer(a: int, b: int, m: nat)
    requires m > 0 && a < b < a + m
    ensures a % m != b % m
  {
    Distance(a, b, m);
    ModUnique(0, m, 0, 0);
  }
}
