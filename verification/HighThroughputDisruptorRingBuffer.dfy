/**
 The ring buffer of HighThroughputDisruptorRingBuffer.ts: what can still be read of the published items when
 slots are found by masking the sequence number.
 */
module RingBuffer {

  import opened Options

  // ---------- masking ----------

  /** The bitwise conjunction. */
  function And(a: nat, b: nat): (r: nat)
    ensures r <= a && r <= b
  {
    if a == 0 || b == 0 then 0 else 2 * And(a / 2, b / 2) + if a % 2 == 1 && b % 2 == 1 then 1 else 0
  }

  function Pow2(k: nat): (p: nat)
    ensures p >= 1
  {
    if k == 0 then 1 else 2 * Pow2(k - 1)
  }

  const WORD: nat := 0x1_0000_0000

  /** The largest mask that is not negative as a 32-bit integer belongs to the capacity 2^31. */
  const MAX_CAPACITY: nat := 0x8000_0000

  /** The slot of a sequence number: bitwise operators of the source work on the low 32 bits. */
  function Slot(sequence: int, capacity: nat): (i: nat)
    requires 1 <= capacity <= MAX_CAPACITY
    ensures i < capacity
  {
    And(sequence % WORD, capacity - 1)
  }

  predicate IsPowerOfTwo(n: nat) {
    n == 1 || (n > 1 && n % 2 == 0 && IsPowerOfTwo(n / 2))
  }

  /** Bit `k` of a number. */
  function Bit(a: nat, k: nat): bool {
    if k == 0 then a % 2 == 1 else Bit(a / 2, k - 1)
  }

  /** A slot keeps exactly the bits that the mask has. */
  lemma {:induction false} MaskKeepsBits(a: nat, mask: nat, k: nat)
    ensures Bit(And(a, mask), k) <==> Bit(a, k) && Bit(mask, k)
    decreases k
  {
    var r := And(a, mask);
    if a == 0 || mask == 0 {
      NoBits(k);
    } else {
      assert r / 2 == And(a / 2, mask / 2);
      if k > 0 {
        MaskKeepsBits(a / 2, mask / 2, k - 1);
      }
    }
  }

  lemma {:induction false} NoBits(k: nat)
    ensures !Bit(0, k)
    decreases k
  {
    if k > 0 {
      NoBits(k - 1);
    }
  }

  lemma ProductIsNonNegative(m: nat, d: nat)
    ensures m * d >= 0
  {
  }

  lemma PositiveMultipleIsLarge(m: nat, d: int)
    requires d >= 1
    ensures m * d >= m
  {
    ProductIsNonNegative(m, d - 1);
    assert m * d == m * (d - 1) + m;
  }

  lemma RemainderIs(a: int, m: nat, q: int, r: int)
    requires m >= 1 && a == m * q + r && 0 <= r < m
    ensures a % m == r
  {
    assert a == m * (a / m) + a % m;
    assert m * (q - a / m) == a % m - r && m * (a / m - q) == r - a % m;
    if q > a / m {
      PositiveMultipleIsLarge(m, q - a / m);
    } else if q < a / m {
      PositiveMultipleIsLarge(m, a / m - q);
    }
  }

  lemma RemainderOfDouble(a: int, m: nat)
    requires m >= 1
    ensures a % (2 * m) == 2 * ((a / 2) % m) + a % 2
  {
    var h := a / 2;
    var q, r := h / m, h % m;
    assert h == m * q + r;
    assert a == (2 * m) * q + (2 * r + a % 2);
    RemainderIs(a, 2 * m, q, 2 * r + a % 2);
  }

  lemma {:induction false} MaskIsRemainder(a: nat, n: nat)
    requires IsPowerOfTwo(n)
    ensures And(a, n - 1) == a % n
    decreases n
  {
    if n > 1 {
      MaskIsRemainder(a / 2, n / 2);
      RemainderOfDouble(a, n / 2);
      assert (n - 1) / 2 == n / 2 - 1 && (n - 1) % 2 == 1;
    }
  }

  /** A power of two that is at most 2^k divides it. */
  lemma {:induction false} PowerDivides(n: nat, k: nat) returns (c: nat)
    requires IsPowerOfTwo(n) && n <= Pow2(k)
    ensures Pow2(k) == n * c && c >= 1
    decreases n
  {
    if n == 1 {
      c := Pow2(k);
    } else {
      c := PowerDivides(n / 2, k - 1);
      assert 2 * ((n / 2) * c) == n * c;
    }
  }

  lemma RemainderOfMultiple(a: int, n: nat, c: nat)
    requires n >= 1 && c >= 1 && n * c >= 1
    ensures a % (n * c) % n == a % n
  {
    var b := a % (n * c);
    var q := a / (n * c);
    assert a == (n * c) * q + b;
    assert b == n * (b / n) + b % n;
    assert (n * c) * q == n * (c * q);
    assert n * (c * q) + n * (b / n) == n * (c * q + b / n);
    RemainderIs(a, n, c * q + b / n, b % n);
  }

  lemma WordIsPower()
    ensures Pow2(32) == WORD
  {
    assert Pow2(8) == 0x100;
    assert Pow2(16) == 0x1_0000;
    assert Pow2(24) == 0x100_0000;
  }

  /** With a power of two, masking is the remainder, for every integer and whatever its size. */
  lemma SlotIsRemainder(sequence: int, capacity: nat)
    requires 1 <= capacity <= MAX_CAPACITY && IsPowerOfTwo(capacity)
    ensures Slot(sequence, capacity) == sequence % capacity
  {
    WordIsPower();
    var c := PowerDivides(capacity, 32);
    MaskIsRemainder(sequence % WORD, capacity);
    RemainderOfMultiple(sequence, capacity, c);
  }

  /** With any other capacity, some sequence number below it has the slot of 0. */
  lemma {:induction false} OtherMasksCollide(mask: nat) returns (s: nat)
    requires !IsPowerOfTwo(mask + 1)
    ensures 0 < s <= mask && And(s, mask) == 0
    decreases mask
  {
    if mask % 2 == 0 {
      s := 1;
      assert And(1 / 2, mask / 2) == 0;
    } else {
      assert (mask + 1) / 2 == mask / 2 + 1;
      var half := OtherMasksCollide(mask / 2);
      s := 2 * half;
      assert s / 2 == half && s % 2 == 0;
    }
  }

  // ---------- the buffer ----------

  /** The latest of the published items that went into slot `i`. */
  function Latest<T>(items: seq<T>, capacity: nat, i: nat): Option<T>
    requires 1 <= capacity <= MAX_CAPACITY
  {
    if items == [] then None
    else if Slot(|items| - 1, capacity) == i then Some(items[|items| - 1])
    else Latest(items[..|items| - 1], capacity, i)
  }

  class HighThroughputDisruptorRingBuffer<T> {
    const buffer: array<Option<T>>
    const capacity: nat
    const mask: nat
    var sequence: nat
    /** Everything that has been published. */
    ghost var items: seq<T>

    ghost predicate Valid()
      reads this, buffer
    {
      && 1 <= capacity <= MAX_CAPACITY && mask == capacity - 1 && buffer.Length == capacity && sequence == |items|
      && forall i | 0 <= i < capacity :: buffer[i] == Latest(items, capacity, i)
    }

    constructor (powerOfTwoCapacity: nat)
      requires 1 <= powerOfTwoCapacity <= MAX_CAPACITY
      ensures Valid() && fresh(buffer) && items == [] && capacity == powerOfTwoCapacity
    {
      capacity, mask, sequence, items := powerOfTwoCapacity, powerOfTwoCapacity - 1, 0, [];
      buffer := new Option<T>[powerOfTwoCapacity](_ => None);
    }

    method Publish(item: T) returns (currentSeq: nat)
      requires Valid()
      modifies this, buffer
      ensures Valid() && items == old(items) + [item] && currentSeq == |old(items)|
    {
      currentSeq := sequence;
      sequence := sequence + 1;
      var idx := And(currentSeq % WORD, mask);
      buffer[idx] := Some(item);
      items := items + [item];
      assert items[..|items| - 1] == old(items);
    }

    method Get(seq_: int) returns (r: Option<T>)
      requires Valid()
      ensures r == Latest(items, capacity, Slot(seq_, capacity))
    {
      var idx := And(seq_ % WORD, mask);
      r := buffer[idx];
    }

    method GetCapacity() returns (c: nat)
      ensures c == capacity
    {
      c := capacity;
    }
  }

  // ---------- what can be read ----------

  /** With a power of two, reading gives the latest item whose sequence number is congruent, if there is one. */
  lemma {:induction false} ReadsLatestCongruent<T>(items: seq<T>, capacity: nat, s: int)
    requires 1 <= capacity <= MAX_CAPACITY && IsPowerOfTwo(capacity)
    ensures var r := Latest(items, capacity, Slot(s, capacity));
            if exists j :: 0 <= j < |items| && j % capacity == s % capacity
            then exists j ::
              && 0 <= j < |items| && j % capacity == s % capacity && r == Some(items[j])
              && forall l | j < l < |items| :: l % capacity != s % capacity
            else r == None
    decreases |items|
  {
    SlotIsRemainder(s, capacity);
    if items != [] {
      var n := |items| - 1;
      SlotIsRemainder(n, capacity);
      if n % capacity == s % capacity {
        assert Latest(items, capacity, Slot(s, capacity)) == Some(items[n]);
      } else {
        ReadsLatestCongruent(items[..n], capacity, s);
      }
    }
  }

  lemma CongruentNumbersAreFar(s: nat, l: nat, capacity: nat)
    requires capacity >= 1 && s < l && l % capacity == s % capacity
    ensures l - s >= capacity
  {
    var d := l / capacity - s / capacity;
    assert l - s == capacity * d;
    if d >= 1 {
      PositiveMultipleIsLarge(capacity, d);
    } else {
      ProductIsNonNegative(capacity, -d);
    }
  }

  /** The items of the last `capacity` sequence numbers can be read. */
  ghost predicate KeepsWindow<T>(items: seq<T>, capacity: nat)
    requires 1 <= capacity <= MAX_CAPACITY
  {
    forall s | 0 <= s < |items| && |items| - capacity <= s :: Latest(items, capacity, Slot(s, capacity)) == Some(items[s])
  }

  lemma PowersKeepWindow<T>(items: seq<T>, capacity: nat)
    requires 1 <= capacity <= MAX_CAPACITY && IsPowerOfTwo(capacity)
    ensures KeepsWindow(items, capacity)
  {
    forall s | 0 <= s < |items| && |items| - capacity <= s
      ensures Latest(items, capacity, Slot(s, capacity)) == Some(items[s])
    {
      ReadsLatestCongruent(items, capacity, s);
      assert s % capacity == s % capacity;
      var j :| 0 <= j < |items| && j % capacity == s % capacity && Latest(items, capacity, Slot(s, capacity)) == Some(items[j])
               && forall l | j < l < |items| :: l % capacity != s % capacity;
      if s < j {
        CongruentNumbersAreFar(s, j, capacity);
      }
    }
  }

  lemma OtherCapacityLoses(capacity: nat) returns (items: seq<int>)
    requires 1 <= capacity <= MAX_CAPACITY && !IsPowerOfTwo(capacity)
    ensures !KeepsWindow(items, capacity)
  {
    var s := OtherMasksCollide(capacity - 1);
    items := seq(s + 1, i => i);
    assert Slot(s, capacity) == 0 && Slot(0, capacity) == 0;
    assert Latest(items, capacity, Slot(0, capacity)) == Some(s);
  }

  /** A buffer keeps its last `capacity` items, whatever they are, exactly when the capacity is a power of two. */
  lemma WindowIsKeptIffPowerOfTwo(capacity: nat)
    requires 1 <= capacity <= MAX_CAPACITY
    ensures (forall items: seq<int> :: KeepsWindow(items, capacity)) <==> IsPowerOfTwo(capacity)
  {
    if IsPowerOfTwo(capacity) {
      forall items: seq<int> ensures KeepsWindow(items, capacity) {
        PowersKeepWindow(items, capacity);
      }
    } else {
      var items := OtherCapacityLoses(capacity);
      assert !KeepsWindow(items, capacity);
    }
  }
}
