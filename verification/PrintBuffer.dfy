/** The growing buffer of the printer. */
module PrintBuffer {
  import opened Bits
  import opened Memory
  import StringEncoder

  const MAX_SIZE := 0x4000_0000

  /** `pow2gt` */
  function Pow2Gt(x: nat): nat
    requires x > 0
  {
    var x := x - 1;
    var x := Or(x, Shr(x, 1));
    var x := Or(x, Shr(x, 2));
    var x := Or(x, Shr(x, 4));
    var x := Or(x, Shr(x, 8));
    var x := Or(x, Shr(x, 16));
    x + 1
  }

  /** `x` fits `k` bits, and of these the `m` highest are ones. */
  predicate Ones(x: nat, k: nat, m: nat) {
    if k == 0 then x == 0 else (k <= m ==> x % 2 == 1) && Ones(x / 2, k - 1, m)
  }

  function Size(x: nat): (k: nat)
    ensures Ones(x, k, 1)
    ensures x < Pow2(k) && (x > 0 ==> k > 0 && Pow2(k - 1) <= x)
  {
    if x == 0 then 0 else if x == 1 then 1 else 1 + Size(x / 2)
  }

  lemma {:induction false} ShiftOnes(x: nat, k: nat, m: nat, j: nat)
    requires Ones(x, k, m) && j <= k
    ensures Ones(Shr(x, j), k - j, m)
  {
    if j > 0 {
      ShiftOnes(x / 2, k - 1, m, j - 1);
    }
  }

  lemma {:induction false} HalfOfShr(x: nat, m: nat)
    ensures Shr(x, m) / 2 == Shr(x / 2, m)
  {
    if m > 0 {
      HalfOfShr(x / 2, m - 1);
    }
  }

  /** Combining a number with itself shifted doubles the run of ones at its top. */
  lemma {:induction false} DoubleOnes(x: nat, k: nat, m: nat)
    requires m > 0 && Ones(x, k, m)
    ensures Ones(Or(x, Shr(x, m)), k, 2 * m)
  {
    var z := Or(x, Shr(x, m));
    HalfOfShr(x, m);
    if k == 0 {
      ShrZero(m);
    } else {
      DoubleOnes(x / 2, k - 1, m);
      if m < k <= 2 * m {
        ShiftOnes(x, k, m, m);
      }
    }
  }

  lemma {:induction false} ShrZero(m: nat)
    ensures Shr(0, m) == 0
  {
    if m > 0 {
      ShrZero(m - 1);
    }
  }

  lemma {:induction false} AllOnes(x: nat, k: nat, m: nat)
    requires Ones(x, k, m) && k <= m
    ensures x == Pow2(k) - 1
  {
    if k > 0 {
      AllOnes(x / 2, k - 1, m);
    }
  }

  /** Up to 2^30 the trick gives the least power of two that is not below its argument. */
  lemma Pow2GtLeast(x: nat)
    requires 1 <= x <= MAX_SIZE
    ensures IsPow2(Pow2Gt(x)) && x <= Pow2Gt(x) <= MAX_SIZE
    ensures forall q: nat :: x <= Pow2(q) ==> Pow2Gt(x) <= Pow2(q)
  {
    var k := Size(x - 1);
    Filled(x - 1, k);
    assert Pow2Gt(x) == Pow2(k);
    forall q: nat | x <= Pow2(q)
      ensures Pow2(k) <= Pow2(q)
    {
      if q < k {
        Pow2Mono(q, k - 1);
      } else {
        Pow2Mono(k, q);
      }
    }
    PowThirty();
    assert Pow2(k) <= Pow2(30);
  }

  lemma PowThirty()
    ensures Pow2(30) == MAX_SIZE && Pow2(32) == 4 * MAX_SIZE
  {
    assert Pow2(10) == 0x400 by {
      assert Pow2(5) == 0x20;
      Pow2Sum(5, 5);
    }
    hide Pow2;
    Pow2Sum(10, 10);
    Pow2Sum(20, 10);
    TwoMore(30);
  }

  lemma TwoMore(n: nat)
    ensures Pow2(n + 2) == 4 * Pow2(n)
  {
    assert Pow2(n + 2) == 2 * Pow2(n + 1);
  }

  lemma Filled(x: nat, k: nat)
    requires x < MAX_SIZE && Ones(x, k, 1) && (x > 0 ==> k > 0 && Pow2(k - 1) <= x)
    requires x == 0 ==> k == 0
    ensures Pow2Gt(x + 1) == Pow2(k)
  {
    PowThirty();
    if k > 32 {
      Pow2Mono(32, k - 1);
    }
    hide Or, Shr, Pow2, Ones;
    DoubleOnes(x, k, 1);
    var x1 := Or(x, Shr(x, 1));
    DoubleOnes(x1, k, 2);
    var x2 := Or(x1, Shr(x1, 2));
    DoubleOnes(x2, k, 4);
    var x4 := Or(x2, Shr(x2, 4));
    DoubleOnes(x4, k, 8);
    var x8 := Or(x4, Shr(x4, 8));
    DoubleOnes(x8, k, 16);
    AllOnes(Or(x8, Shr(x8, 16)), k, 32);
  }

  /** `printbuffer`. A failed growth leaves it without a buffer for good. */
  class Buffer {
    const heap: Heap
    var buffer: array?<char>
    var length: nat
    var offset: nat
    /** The size the buffer started with and the number of bytes that growing has copied since. */
    ghost const initial: nat
    ghost var copied: nat
    /** What is allocated besides the buffer. */
    ghost const others: set<object>
    /** How many allocations had failed before there was a buffer. */
    ghost const base: nat

    ghost predicate Valid()
      reads this, heap
    {
      heap.live == others + Block(buffer) && Accounted(buffer != null, false, base, heap.failures) &&
      (buffer != null ==>
        && buffer !in others && buffer.Length == length && offset <= length
        && copied <= initial + length && (IsPow2(length) || (length == initial && copied == 0)))
    }

    /** The buffer of `cJSON_PrintBuffered`. */
    constructor (h: Heap, prebuffer: nat)
      modifies h
      ensures Valid() && heap == h && offset == 0 && initial == prebuffer && copied == 0 && others == old(h.live) && base == old(h.failures)
      ensures if buffer == null then h.live == old(h.live)
              else fresh(buffer) && length == prebuffer && h.live == old(h.live) + {buffer}
    {
      heap := h;
      length, offset, initial, copied, others, base := prebuffer, 0, prebuffer, 0, h.live, h.failures;
      buffer := null;
      new;
      buffer := h.NewText(prebuffer);
    }

    /** Where the next bytes can be written, with room for `needed` of them, or -1 without a buffer. */
    method Ensure(needed: nat) returns (at: int)
      requires Valid() && (buffer != null ==> offset + needed <= MAX_SIZE)
      modifies this, heap, Block(buffer)
      ensures Valid() && offset == old(offset)
      ensures old(buffer) == null ==> buffer == null && heap.live == old(heap.live) && heap.failures == old(heap.failures)
      ensures if at < 0 then
          buffer == null && heap.live == old(heap.live) - Block(old(buffer))
        else
          && old(buffer) != null && buffer != null && at == offset && offset + needed <= length
          && (buffer == old(buffer) || fresh(buffer))
          && heap.live == old(heap.live) - {old(buffer)} + {buffer}
          && old(length) <= length && buffer[..old(length)] == old(buffer[..])
          && (offset + needed <= old(length) ==> buffer == old(buffer))
          && (offset + needed > old(length) ==>
               fresh(buffer) && IsPow2(length) && forall q: nat :: offset + needed <= Pow2(q) ==> length <= Pow2(q))
    {
      hide Pow2Gt, IsPow2, Pow2;
      if buffer == null {
        return -1;
      }
      if needed + offset <= length {
        return offset;
      }
      Pow2GtLeast(needed + offset);
      var newsize := Pow2Gt(needed + offset);
      var ok := Grow(newsize);
      return if ok then offset else -1;
    }

    /** A larger block takes over the bytes of the old one, which is freed in any case. */
    method Grow(newsize: nat) returns (ok: bool)
      requires Valid() && buffer != null && length < newsize && IsPow2(newsize)
      modifies this, heap, buffer
      ensures Valid() && offset == old(offset)
      ensures if ok then
          && buffer != null && fresh(buffer) && length == newsize && buffer[..old(length)] == old(buffer[..])
          && heap.live == old(heap.live) - {old(buffer)} + {buffer}
        else
          buffer == null && heap.live == old(heap.live) - {old(buffer)}
    {
      hide IsPow2;
      var newbuffer := heap.NewText(newsize);
      if newbuffer == null {
        heap.Free(buffer);
        length, buffer := 0, null;
        return false;
      }
      forall i | 0 <= i < length {
        newbuffer[i] := buffer[i];
      }
      if IsPow2(length) {
        Pow2Gap(length, newsize);
      }
      copied := copied + length;
      ghost var kept := newbuffer[..length];
      heap.Free(buffer);
      length, buffer := newsize, newbuffer;
      return true;
    }

    /** `update`: the position of the first terminator from the offset on. */
    method Update() returns (end: nat)
      requires Valid() && (buffer != null ==> '\0' in buffer[offset..])
      ensures if buffer == null then end == 0
        else offset <= end < length && buffer[end] == '\0' && '\0' !in buffer[offset..end]
    {
      if buffer == null {
        return 0;
      }
      end := offset;
      while buffer[end] != '\0'
        invariant offset <= end < length && '\0' !in buffer[offset..end] && '\0' in buffer[end..]
        decreases length - end
      {
        assert buffer[end..] == [buffer[end]] + buffer[end + 1..];
        assert buffer[offset..end + 1] == buffer[offset..end] + [buffer[end]];
        end := end + 1;
      }
    }

    /** Makes room for `needed` bytes and writes `s` at the offset, which stays where it is. */
    method Put(needed: nat, s: string) returns (at: int)
      requires Valid() && (buffer != null ==> offset + needed <= MAX_SIZE) && |s| <= needed
      modifies this, heap, Block(buffer)
      ensures Valid() && offset == old(offset) && (buffer == null || buffer == old(buffer) || fresh(buffer))
      ensures old(buffer) == null ==> heap.failures == old(heap.failures)
      ensures if at < 0 then
          buffer == null && heap.live == old(heap.live) - Block(old(buffer))
        else
          && old(buffer) != null && buffer != null && at == offset && offset + |s| <= length
          && heap.live == old(heap.live) - {old(buffer)} + {buffer}
          && buffer[..offset + |s|] == old(buffer[..offset]) + s
    {
      at := Ensure(needed);
      if at >= 0 {
        assert buffer[..offset] == buffer[..old(length)][..offset];
        StringEncoder.Store(buffer, at, s);
      }
    }
  }
}
