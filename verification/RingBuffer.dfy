/** The ring buffer as a bounded queue (include/kernel/ringbuf.h). */
module RingBuffer {
  import opened Words
  import opened RingIndex

  /** The n bytes from slot tail on, around the ring. */
  function Around(data: seq<byte>, tail: nat, n: nat): (s: seq<byte>)
    requires |data| > 0
    ensures |s| == n
    ensures forall i :: 0 <= i < n ==> s[i] == data[Slot(tail + i, |data|)]
  {
    seq(n, i requires 0 <= i < n => data[Slot(tail + i, |data|)])
  }

  function Slot(i: int, m: nat): (s: nat)
    requires m > 0
    ensures s < m
  {
    i % m
  }

  /** Writing the slot after the last byte appends. */
  lemma AroundPush(data: seq<byte>, tail: nat, n: nat, c: byte)
    requires n < |data|
    ensures Around(data[Slot(tail + n, |data|) := c], tail, n + 1) == Around(data, tail, n) + [c]
  {
    var m := |data|;
    var at := Slot(tail + n, m);
    var r := Around(data[at := c], tail, n + 1);
    forall i | 0 <= i < n
      ensures r[i] == data[Slot(tail + i, m)]
    {
      SlotsDiffer(tail + i, tail + n, m);
    }
    assert r == Around(data, tail, n) + [c];
  }

  /** Moving the tail forward drops from the front. */
  lemma AroundDrop(data: seq<byte>, tail: nat, n: nat, k: nat)
    requires |data| > 0 && k <= n
    ensures Around(data, Slot(tail + k, |data|), n - k) == Around(data, tail, n)[k..]
  {
    hide Slot;
    var m := |data|;
    var l, r := Around(data, Slot(tail + k, m), n - k), Around(data, tail, n)[k..];
    forall i | 0 <= i < n - k
      ensures l[i] == r[i]
    {
      ModShift(tail + k, i, m);
      assert tail + k + i == tail + (k + i);
    }
  }

  lemma ModShift(x: int, i: int, m: nat)
    requires m > 0
    ensures Slot(Slot(x, m) + i, m) == Slot(x + i, m)
  {
    var q, r := x / m, x % m;
    var a, b := (r + i) / m, (r + i) % m;
    assert r + i == a * m + b;
    assert x + i == (q + a) * m + b;
    ModUnique(x + i, m, q + a, b);
  }

  /** The head is where the next byte goes. */
  lemma HeadSlot(head: nat, tail: nat, m: nat)
    requires head < m && tail < m
    ensures Slot(tail + Slot(head - tail, m), m) == head
  {
    var d := Slot(head - tail, m);
    if head >= tail {
      ModUnique(head - tail, m, 0, head - tail);
      ModUnique(tail + d, m, 0, head);
    } else {
      ModUnique(head - tail, m, -1, head - tail + m);
      ModUnique(tail + d, m, 1, head);
    }
  }

  /** The bytes that can be read and those that can be written always make size - 1. */
  lemma ReadableWritable(head: nat, tail: nat, k: nat)
    requires k < 32
    ensures And(Word(head - tail), Pow2(k) - 1) + And(Word(tail - head - 1), Pow2(k) - 1) == Pow2(k) - 1
  {
    MaskWord(head - tail, k);
    MaskWord(tail - head - 1, k);
    hide Pow2, And, Word;
    ModComplement(head - tail, Pow2(k));
  }

  lemma ModComplement(x: int, m: nat)
    requires m > 0
    ensures x % m + (-x - 1) % m == m - 1
  {
    var q, r := x / m, x % m;
    assert x == q * m + r;
    assert -x - 1 == (-q - 1) * m + (m - 1 - r);
    ModUnique(-x - 1, m, -q - 1, m - 1 - r);
  }

  class RingBuf {
    var head: nat
    var tail: nat
    const size: nat
    const data: array<byte>
    ghost const bits: nat       // size is 2 to this power

    /** ringbuf_init, with room for size bytes. */
    constructor (k: nat)
      requires k < 32
      ensures Valid() && fresh(data) && size == Pow2(k) && Contents() == []
    {
      bits := k;
      size := Pow2(k);
      data := new byte[Pow2(k)](_ => 0);
      head, tail := 0, 0;
      new;
      ReadableIs();
      ModUnique(0, size, 0, 0);
    }

    ghost predicate Valid()
      reads this
    {
      bits < 32 && size == Pow2(bits) && data.Length == size && head < size && tail < size
    }

    lemma MaskIs(x: int)
      requires Valid()
      ensures Mask(size, x) == Slot(x, size)
    {
      MaskWord(x, bits);
    }

    function Readable(): nat
      requires size > 0
      reads this
    {
      Mask(size, head - tail)
    }

    function Writable(): nat
      requires size > 0
      reads this
    {
      Mask(size, tail - head - 1)
    }

    lemma ReadableIs()
      requires Valid()
      ensures Readable() == Slot(head - tail, size) < size && Readable() + Writable() == size - 1
    {
      MaskIs(head - tail);
      ReadableWritable(head, tail, bits);
    }

    /** The bytes waiting, oldest first. */
    ghost function Contents(): seq<byte>
      requires Valid()
      reads this, data
    {
      Around(data[..], tail, Readable())
    }

    predicate Empty()
      reads this
    {
      head == tail
    }

    predicate Full()
      requires size > 0
      reads this
    {
      Mask(size, head + 1) == tail
    }

    /** Empty and full are what they should be: no byte, or size - 1 bytes. */
    lemma EmptyFull()
      requires Valid()
      ensures Empty() <==> Contents() == []
      ensures Full() <==> |Contents()| == size - 1
    {
      hide Slot, Mask;
      ReadableIs();
      HeadSlot(head, tail, size);
      NextSlot(head, tail, size);
      MaskIs(head + 1);
    }

    method Push(c: byte) returns (rc: int)
      requires Valid()
      modifies this`head, data
      ensures Valid() && (rc == 0 || rc == -1)
      ensures rc == -1 <==> |old(Contents())| == size - 1
      ensures Contents() == if rc == 0 then old(Contents()) + [c] else old(Contents())
    {
      hide Slot, Mask, Around;
      ReadableIs();
      EmptyFull();
      HeadSlot(head, tail, size);
      var next := Mask(size, head + 1);
      if next == tail {
        return -1;
      }
      ghost var was, n := data[..], Readable();
      data[head] := c;
      assert data[..] == was[head := c];
      AroundPush(was, tail, n, c);
      MaskIs(head + 1);
      AfterPush(head, tail, size);
      head := next;
      ReadableIs();
      rc := 0;
    }

    method Pop() returns (rc: int, c: byte)
      requires Valid()
      modifies this`tail
      ensures Valid() && (rc == 0 || rc == -1)
      ensures rc == -1 <==> old(Contents()) == []
      ensures rc == 0 ==> old(Contents()) == [c] + Contents()
      ensures rc == -1 ==> Contents() == old(Contents())
    {
      hide Slot, Mask, Around;
      ReadableIs();
      EmptyFull();
      c := 0;
      if tail == head {
        return -1, 0;
      }
      c := data[tail];
      ghost var n := Readable();
      FirstByte(data[..], tail, n);
      AroundDrop(data[..], tail, n, 1);
      MaskIs(tail + 1);
      AfterDrop(head, tail, size, 1);
      tail := Mask(size, tail + 1);
      ReadableIs();
      rc := 0;
    }

    method Peek() returns (rc: int, c: byte)
      requires Valid()
      ensures rc == -1 <==> Contents() == []
      ensures rc != -1 ==> rc == 0 && Contents()[0] == c
    {
      hide Slot, Mask, Around;
      ReadableIs();
      EmptyFull();
      if tail == head {
        return -1, 0;
      }
      FirstByte(data[..], tail, Readable());
      return 0, data[tail];
    }

    /** ringbuf_write: as many bytes as fit. */
    method Write(src: seq<byte>) returns (written: nat)
      requires Valid()
      modifies this`head, data
      ensures Valid() && written == Min(|src|, size - 1 - |old(Contents())|)
      ensures Contents() == old(Contents()) + src[..written]
    {
      hide Slot, Mask, Around, RingBuf.Contents;
      ghost var was := Contents();
      NeverMore();
      written := 0;
      assert was + src[..0] == was;
      while written < |src|
        invariant Valid() && written <= |src| && |was| + written <= size - 1
        invariant Contents() == was + src[..written]
      {
        var rc := Push(src[written]);
        if rc < 0 {
          break;
        }
        AppendNext(was, src, written);
        NeverMore();
        written := written + 1;
      }
    }

    /** One slot always stays free. */
    lemma NeverMore()
      requires Valid()
      ensures |Contents()| <= size - 1
    {
      hide Slot, Mask;
      ReadableIs();
    }

    /** ringbuf_read: as many bytes as there are. */
    method Read(len: nat) returns (out: seq<byte>)
      requires Valid()
      modifies this`tail
      ensures Valid() && |out| == Min(len, |old(Contents())|)
      ensures old(Contents()) == out + Contents()
    {
      hide Slot, Mask, Around, RingBuf.Contents;
      out := [];
      assert [] + Contents() == Contents();
      while |out| < len
        invariant Valid() && |out| <= len && old(Contents()) == out + Contents()
        decreases len - |out|
      {
        ghost var was := Contents();
        var rc, c := Pop();
        if rc < 0 {
          break;
        }
        Reassociate(out, c, Contents());
        out := out + [c];
      }
    }

    /** ringbuf_discard: drops up to n bytes from the front. */
    method Discard(n: nat) returns (k: nat)
      requires Valid()
      modifies this`tail
      ensures Valid() && k == Min(n, |old(Contents())|) && Contents() == old(Contents())[k..]
    {
      hide Slot, Mask, Around;
      ReadableIs();
      k := if n > Readable() then Readable() else n;
      AroundDrop(data[..], tail, Readable(), k);
      MaskIs(tail + k);
      AfterDrop(head, tail, size, k);
      tail := Mask(size, tail + k);
      ReadableIs();
    }

    method Clear()
      requires Valid()
      modifies this`tail
      ensures Valid() && Contents() == []
    {
      tail := head;
      EmptyFull();
    }
  }

  lemma AppendNext(a: seq<byte>, src: seq<byte>, k: nat)
    requires k < |src|
    ensures (a + src[..k]) + [src[k]] == a + src[..k + 1]
  {
  }

  lemma Reassociate(a: seq<byte>, c: byte, b: seq<byte>)
    ensures a + ([c] + b) == (a + [c]) + b
  {
  }

  lemma FirstByte(data: seq<byte>, tail: nat, n: nat)
    requires tail < |data| && n > 0
    ensures Around(data, tail, n)[0] == data[tail]
  {
    ModUnique(tail, |data|, 0, tail);
  }

  /** The slot after head is the tail exactly when m - 1 slots are in use; head is the tail exactly when none is. */
  lemma NextSlot(head: nat, tail: nat, m: nat)
    requires head < m && tail < m
    ensures Slot(head + 1, m) == tail <==> Slot(head - tail, m) == m - 1
    ensures head == tail <==> Slot(head - tail, m) == 0
  {
    if head >= tail {
      ModUnique(head - tail, m, 0, head - tail);
    } else {
      ModUnique(head - tail, m, -1, head - tail + m);
    }
    if head + 1 < m {
      ModUnique(head + 1, m, 0, head + 1);
    } else {
      ModUnique(head + 1, m, 1, 0);
    }
  }

  lemma AfterPush(head: nat, tail: nat, m: nat)
    requires head < m && tail < m && Slot(head + 1, m) != tail
    ensures Slot(Slot(head + 1, m) - tail, m) == Slot(head - tail, m) + 1
  {
    NextSlot(head, tail, m);
    var back: int := tail;
    ModShift(head + 1, -back, m);
    ModStep(head - tail, m);
    ModUnique(Slot(head - tail, m) + 1, m, 0, Slot(head - tail, m) + 1);
  }

  lemma AfterDrop(head: nat, tail: nat, m: nat, k: nat)
    requires head < m && tail < m && k <= Slot(head - tail, m)
    ensures Slot(head - Slot(tail + k, m), m) == Slot(head - tail, m) - k
  {
    var d := Slot(head - tail, m);
    var t := Slot(tail + k, m);
    var p, q := (head - tail) / m, (tail + k) / m;
    assert head - tail == p * m + d && tail + k == q * m + t;
    assert head - t == (p + q) * m + (d - k);
    ModUnique(head - t, m, p + q, d - k);
  }
}
