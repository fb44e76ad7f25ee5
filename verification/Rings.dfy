/** A ring buffer over a sequence: the last elements that went into it, in order. */
module Rings {

  /** The slot of the ring that its line number `n` goes into: `n % size`, by subtraction. */
  function Slot(n: nat, size: nat): (slot: nat)
    requires size > 0
    ensures slot < size
  {
    if n < size then n else Slot(n - size, size)
  }

  lemma {:induction false} SlotIsMod(n: nat, size: nat)
    requires size > 0
    ensures Slot(n, size) == n % size
  {
    if n >= size {
      SlotIsMod(n - size, size);
      ModStep(n - size, size);
    }
  }

  lemma ModStep(n: nat, size: nat)
    requires size > 0
    ensures (n + size) % size == n % size
  {
    var d := (n + size) / size - n / size - 1;
    assert d * size == ((n + size) / size) * size - (n / size) * size - size == n % size - (n + size) % size;
    assert d >= 1 ==> d * size >= size;
    assert d <= -1 ==> d * size <= -1 * size;
  }

  lemma {:induction false} NextSlot(n: nat, size: nat)
    requires size > 0
    ensures Slot(n + 1, size) == if Slot(n, size) + 1 == size then 0 else Slot(n, size) + 1
  {
    if n >= size {
      NextSlot(n - size, size);
    }
  }

  /** The ring read from `slot` on, and round. */
  function Rotated<T>(ring: seq<T>, slot: nat): seq<T>
    requires slot <= |ring|
  {
    ring[slot..] + ring[..slot]
  }

  lemma RotatedInsert<T>(ring: seq<T>, slot: nat, x: T)
    requires slot < |ring|
    ensures var next := if slot + 1 == |ring| then 0 else slot + 1;
            Rotated(ring[slot := x], next) == Rotated(ring, slot)[1..] + [x]
  {
    if slot + 1 == |ring| {
      assert ring[slot..] == [ring[slot]];
      assert ring[slot := x] == ring[..slot] + [x];
    } else {
      assert ring[slot := x][slot + 1..] == ring[slot..][1..];
      assert ring[slot := x][..slot + 1] == ring[..slot] + [x];
    }
  }

  /** The ring's elements in input order, after `n` went into it. */
  function Ordered<T>(ring: seq<T>, n: nat, size: nat): seq<T>
    requires size > 0 && |ring| == if n < size then n else size
  {
    if n <= size then ring else Rotated(ring, Slot(n, size))
  }

  function Insert<T>(ring: seq<T>, n: nat, size: nat, x: T): seq<T>
    requires size > 0 && |ring| == if n < size then n else size
  {
    if n < size then ring + [x] else ring[Slot(n, size) := x]
  }

  /** A full ring drops its oldest element, the one in the slot written; otherwise it only grows. */
  lemma InsertOrdered<T>(ring: seq<T>, n: nat, size: nat, x: T)
    requires size > 0 && |ring| == if n < size then n else size
    ensures n >= size ==> Ordered(ring, n, size) != [] && ring[Slot(n, size)] == Ordered(ring, n, size)[0]
    ensures Ordered(Insert(ring, n, size, x), n + 1, size) ==
            (if n < size then Ordered(ring, n, size) else Ordered(ring, n, size)[1..]) + [x]
  {
    if n >= size {
      NextSlot(n, size);
      RotatedInsert(ring, Slot(n, size), x);
      if n == size {
        assert Slot(n, size) == 0;
        assert Rotated(ring, 0) == ring;
      }
      if Slot(n, size) + 1 == size {
        assert Rotated(ring[Slot(n, size) := x], 0) == ring[Slot(n, size) := x];
      }
    }
  }
}
