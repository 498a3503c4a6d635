/** Power-of-two capacities and masked slot indices (ring_buffer.go, spsc_ring.go). */
module Masking {
  import opened Arithmetic

  function Pow2(k: nat): (p: nat)
    ensures p >= 1
  {
    if k == 0 then 1 else 2 * Pow2(k - 1)
  }

  ghost predicate IsPow2(n: nat) {
    exists k: nat :: n == Pow2(k)
  }

  /** Bitwise conjunction of two non-negative integers. */
  function And(a: nat, b: nat): nat
    decreases a
  {
    if a == 0 || b == 0 then 0 else (a % 2) * (b % 2) + 2 * And(a / 2, b / 2)
  }

  /** The slot that a sequence number selects: the number masked with capacity - 1. */
  function Slot(sequence: nat, capacity: nat): nat
    requires capacity >= 1
  {
    And(sequence, capacity - 1)
  }

  lemma RemainderWindow(a: int, b: int, n: int)
    requires n >= 1 && a <= b < a + n && a % n == b % n
    ensures a == b
  {
    var q, r := a / n, a % n;
    if r + (b - a) < n {
      DivModUnique(b, n, q, r + (b - a));
    } else {
      assert (q + 1) * n == q * n + n;
      DivModUnique(b, n, q + 1, r + (b - a) - n);
    }
  }

  /** The low bit of a number splits off its remainder modulo an even number. */
  lemma RemainderSplit(x: nat, p: nat)
    requires p >= 1
    ensures x % (2 * p) == 2 * (x / 2 % p) + x % 2
  {
    var h := x / 2;
    var q, r := h / p, h % p;
    assert h == q * p + r;
    assert x == 2 * h + x % 2;
    assert q * (2 * p) == 2 * (q * p);
    DivModUnique(x, 2 * p, q, 2 * r + x % 2);
  }

  /** Masking with a power of two minus one is the remainder. */
  lemma {:induction false} MaskIsRemainder(x: nat, k: nat)
    ensures And(x, Pow2(k) - 1) == x % Pow2(k)
  {
    if k > 0 {
      var p := Pow2(k - 1);
      var m := 2 * p - 1;
      assert m % 2 == 1 && m / 2 == p - 1;
      RemainderSplit(x, p);
      MaskIsRemainder(x / 2, k - 1);
      assert And(x, m) == x % 2 + 2 * And(x / 2, p - 1);
    }
  }

  lemma SlotBelow(a: nat, n: nat)
    requires IsPow2(n)
    ensures n >= 1 && Slot(a, n) < n
  {
    var k: nat :| n == Pow2(k);
    MaskIsRemainder(a, k);
  }

  /** Two sequence numbers less than one lap apart share a slot only if they are equal. */
  lemma SlotWindow(a: nat, b: nat, n: nat)
    requires IsPow2(n) && n >= 1
    requires a <= b < a + n && Slot(a, n) == Slot(b, n)
    ensures a == b
  {
    var k: nat :| n == Pow2(k);
    MaskIsRemainder(a, k);
    MaskIsRemainder(b, k);
    RemainderWindow(a, b, n);
  }

  /** No two of the first n sequence numbers share a slot. */
  ghost predicate LapDistinct(n: nat)
    requires n >= 1
  {
    forall i: nat, j: nat :: i < n && j < n && Slot(i, n) == Slot(j, n) ==> i == j
  }

  /** With an odd capacity the mask is even, and drops the low bit. */
  lemma OddCollides(n: nat)
    requires n >= 1 && n % 2 == 1
    ensures Slot(0, n) == Slot(1, n)
  {
    assert And(1, n - 1) == if n == 1 then 0 else (n - 1) % 2 + 2 * And(0, (n - 1) / 2);
  }

  /** Doubling the number and the capacity doubles the slot. */
  lemma SlotDoubles(i: nat, h: nat)
    requires h >= 1
    ensures Slot(2 * i, 2 * h) == 2 * Slot(i, h)
  {
    var m := 2 * h - 1;
    assert m / 2 == h - 1;
    assert (2 * i) % 2 == 0 && (2 * i) / 2 == i;
  }

  lemma HalfNotPow2(h: nat)
    requires !IsPow2(2 * h)
    ensures !IsPow2(h)
  {
    if IsPow2(h) {
      var k: nat :| h == Pow2(k);
      assert 2 * h == Pow2(k + 1);
    }
  }

  /** Two colliding sequence numbers for a capacity that is not a power of two. */
  lemma {:induction false} Collision(n: nat) returns (i: nat, j: nat)
    requires n >= 1 && !IsPow2(n)
    ensures i < n && j < n && i != j && Slot(i, n) == Slot(j, n)
  {
    assert n != 1 by {
      assert Pow2(0) == 1;
    }
    if n % 2 == 1 {
      i, j := 0, 1;
      OddCollides(n);
    } else {
      HalfNotPow2(n / 2);
      var i', j' := Collision(n / 2);
      i, j := 2 * i', 2 * j';
      SlotDoubles(i', n / 2);
      SlotDoubles(j', n / 2);
    }
  }

  /** Masked indexing keeps a lap of slots distinct exactly for power-of-two capacities. */
  lemma LapDistinctIffPow2(n: nat)
    requires n >= 1
    ensures LapDistinct(n) <==> IsPow2(n)
  {
    if IsPow2(n) {
      forall i: nat, j: nat | i < n && j < n && Slot(i, n) == Slot(j, n)
        ensures i == j
      {
        if i <= j {
          SlotWindow(i, j, n);
        } else {
          SlotWindow(j, i, n);
        }
      }
    } else {
      var i, j := Collision(n);
    }
  }

  lemma {:induction false} Pow2Doubles(j: nat, k: nat)
    requires j < k
    ensures 2 * Pow2(j) <= Pow2(k)
  {
    if j + 1 < k {
      Pow2Doubles(j, k - 1);
    }
  }

  /** The least power of two that is at least value. */
  method Next(value: int) returns (power: nat)
    ensures IsPow2(power) && power >= value
    ensures forall q: nat :: IsPow2(q) && q >= value ==> power <= q
  {
    assert Pow2(0) == 1;
    if value <= 1 {
      return 1;
    }
    power := 1;
    ghost var k: nat := 0;
    while power < value
      invariant power == Pow2(k)
      invariant power < 2 * value
      invariant forall q: nat :: IsPow2(q) && q >= value ==> power <= q
      decreases 2 * value - power
    {
      forall q: nat | IsPow2(q) && q >= value
        ensures 2 * power <= q
      {
        var m: nat :| q == Pow2(m);
        if m <= k {
          if m < k {
            Pow2Doubles(m, k);
          }
        } else {
          Pow2Doubles(k, m);
        }
      }
      power := power * 2;
      k := k + 1;
    }
  }

  /** The slot store of a job queue: rounded capacity, and masked access to it. */
  class RingBuffer<T> {
    const slots: array<T>

    /** Allocates the least power of two that covers max(1, capacity) slots. */
    constructor (capacity: int, initial: T)
      ensures IsPow2(slots.Length) && slots.Length >= capacity
      ensures forall q: nat :: IsPow2(q) && q >= capacity ==> slots.Length <= q
      ensures fresh(slots) && forall i :: 0 <= i < slots.Length ==> slots[i] == initial
    {
      var rounded := Next(if capacity < 1 then 1 else capacity);
      assert forall q: nat :: IsPow2(q) ==> q >= 1;
      slots := new T[rounded](_ => initial);
    }

    /** Masked access never leaves the store and follows the sequence number around it. */
    method SlotOf(sequence: nat) returns (index: nat)
      requires IsPow2(slots.Length)
      ensures index < slots.Length && index == sequence % slots.Length
    {
      SlotBelow(sequence, slots.Length);
      ghost var k: nat :| slots.Length == Pow2(k);
      MaskIsRemainder(sequence, k);
      index := Slot(sequence, slots.Length);
    }
  }
}
