/**
  The single-producer single-consumer ring buffer: mask arithmetic for power-of-two capacities, and the
  buffer as an object used by one thread at a time. `SpscProtocol.dfy` interleaves the two threads.
 */
module RingBuffer {
  import opened Numbers
  import opened Options

  /** Bitwise and of two numbers. */
  function And(a: nat, b: nat): nat {
    if a == 0 || b == 0 then 0 else (a % 2) * (b % 2) + 2 * And(a / 2, b / 2)
  }

  /** The requirement the template puts on its capacity. */
  predicate PowerOfTwo(c: nat) {
    c > 0 && And(c, c - 1) == 0
  }

  lemma {:induction false} AndSelf(a: nat)
    ensures And(a, a) == a
  {
    if a > 0 {
      AndSelf(a / 2);
    }
  }

  /** A power of two above 1 is twice a power of two. */
  lemma Halve(c: nat)
    requires PowerOfTwo(c) && c > 1
    ensures c % 2 == 0 && PowerOfTwo(c / 2) && (c - 1) / 2 == c / 2 - 1
  {
    if c % 2 == 1 {
      AndSelf(c / 2);
    }
  }

  lemma HalfMod(x: nat, k: nat)
    requires k > 0
    ensures x % (2 * k) == x % 2 + 2 * (x / 2 % k)
  {
    var h := x / 2;
    assert x == (2 * k) * (h / k) + (x % 2 + 2 * (h % k)) by {
      assert h == k * (h / k) + h % k;
      assert (2 * k) * (h / k) == 2 * (k * (h / k));
    }
    DivModUnique(x, 2 * k, h / k, x % 2 + 2 * (h % k));
  }

  lemma AndOdd(x: nat, m: nat)
    ensures And(x, 2 * m + 1) == x % 2 + 2 * And(x / 2, m)
  {
    assert (2 * m + 1) / 2 == m && (2 * m + 1) % 2 == 1;
  }

  /** For a power of two, masking with one less is taking the remainder. */
  lemma {:induction false} MaskIsMod(x: nat, c: nat)
    requires PowerOfTwo(c)
    ensures And(x, c - 1) == x % c
    decreases c
  {
    if c > 1 {
      var k := c / 2;
      Halve(c);
      MaskIsMod(x / 2, k);
      hide And, PowerOfTwo;
      assert c == 2 * k && c - 1 == 2 * (k - 1) + 1;
      AndOdd(x, k - 1);
      HalfMod(x, k);
    }
  }

  function Pow2(n: nat): (p: nat)
    ensures p > 0
  {
    if n == 0 then 1 else 2 * Pow2(n - 1)
  }

  lemma {:induction false} PowerOfTwoDivides(c: nat, n: nat)
    requires PowerOfTwo(c) && c <= Pow2(n)
    ensures Pow2(n) % c == 0
    decreases c
  {
    if c > 1 {
      Halve(c);
      PowerOfTwoDivides(c / 2, n - 1);
      HalfMod(Pow2(n), c / 2);
    }
  }

  lemma Pow2Sum(a: nat, b: nat)
    ensures Pow2(a + b) == Pow2(a) * Pow2(b)
  {
    if a > 0 {
      Pow2Sum(a - 1, b);
      assert Pow2(a + b) == 2 * Pow2(a - 1 + b);
    }
  }

  lemma WordIsPower()
    ensures Pow2(64) == TWO_64
  {
    assert Pow2(8) == 0x100;
    hide Pow2;
    Pow2Sum(8, 8);
    Pow2Sum(16, 16);
    Pow2Sum(32, 32);
  }

  lemma CapacityDividesWord(c: nat)
    requires PowerOfTwo(c) && c <= TWO_64
    ensures TWO_64 % c == 0
  {
    WordIsPower();
    PowerOfTwoDivides(c, 64);
  }

  /** The difference of two positions: it wraps at the word size, and the mask undoes the wrap. */
  function Distance(wp: nat, rp: nat, c: nat): nat
    requires c > 0
  {
    And((wp - rp) % TWO_64, c - 1)
  }

  lemma ModOfMultiple(n: int, d: nat, m: nat)
    requires d > 0 && m > 0 && m % d == 0
    ensures (n % m) % d == n % d
  {
    var k, q := m / d, n / m;
    assert m == d * k;
    assert m * q == d * (k * q);
    DropMultiple(d, n % m, k * q);
  }

  lemma DistanceIsMod(wp: nat, rp: nat, c: nat)
    requires PowerOfTwo(c) && c <= TWO_64
    ensures Distance(wp, rp, c) == (wp - rp) % c
  {
    CapacityDividesWord(c);
    MaskIsMod((wp - rp) % TWO_64, c);
    hide And, PowerOfTwo;
    ModOfMultiple(wp - rp, c, TWO_64);
  }

  /** The slot of the k-th item pushed. */
  function Slot(k: nat, c: nat): (s: nat)
    requires c > 0
    ensures s < c
  {
    k % c
  }

  lemma SlotsApart(k: nat, j: nat, c: nat)
    requires k < j < k + c
    ensures Slot(k, c) != Slot(j, c)
  {
    DifferentResidue(c, k, j - k);
  }

  lemma SlotsMeet(k: nat, c: nat)
    requires c > 0
    ensures Slot(k, c) == Slot(k + c, c)
  {
    DropMultiple(c, k, 1);
  }

  lemma SlotFromSlot(k: nat, i: nat, c: nat)
    requires c > 0
    ensures Slot(Slot(k, c) + i, c) == Slot(k + i, c)
  {
    ModSum(c, k, i);
  }

  function Advance(p: nat, c: nat): nat
    requires c > 0
  {
    And(p + 1, c - 1)
  }

  /** The masked increment goes from the slot of one item to the slot of the next. */
  lemma AdvanceSlot(k: nat, c: nat)
    requires PowerOfTwo(c)
    ensures Advance(Slot(k, c), c) == Slot(k + 1, c)
  {
    MaskIsMod(k % c + 1, c);
    ModSum(c, k, 1);
  }

  /** Between the slots of item r and item w, with at most c - 1 items in between. */
  lemma PositionTests(r: nat, w: nat, c: nat)
    requires PowerOfTwo(c) && r <= w < r + c
    ensures Slot(w, c) == Slot(r, c) <==> w == r
    ensures Advance(Slot(w, c), c) == Slot(r, c) <==> w - r == c - 1
  {
    hide Advance, Slot;
    AdvanceSlot(w, c);
    if w != r {
      SlotsApart(r, w, c);
    }
    if w - r == c - 1 {
      SlotsMeet(r, c);
    } else {
      SlotsApart(r, w + 1, c);
    }
  }

  /** The wrapped and masked difference of the positions is the number of items between them. */
  lemma DistanceIsLength(r: nat, w: nat, c: nat)
    requires PowerOfTwo(c) && c <= TWO_64 && r <= w < r + c
    ensures Distance(Slot(w, c), Slot(r, c), c) == w - r
  {
    hide Distance, PowerOfTwo;
    DistanceIsMod(Slot(w, c), Slot(r, c), c);
    SlotDifference(r, w, c);
  }

  lemma SlotDifference(r: nat, w: nat, c: nat)
    requires r <= w < r + c
    ensures (w % c - r % c) % c == w - r
  {
    var q := r / c - w / c;
    assert w % c - r % c == (w - r) + c * q;
    DropMultiple(c, w - r, q);
    DivModUnique(w - r, c, 0, w - r);
  }

  class RingBuffer<T(0)> {
    const capacity: nat
    const buffer: array<T>
    var writePos: nat
    var readPos: nat
    ghost var first: nat         // how many items were retired before the oldest one stored
    ghost var contents: seq<T>   // the stored items, oldest first

    ghost predicate Valid()
      reads this, buffer
    {
      && PowerOfTwo(capacity) && capacity <= TWO_64 && buffer.Length == capacity
      && |contents| < capacity
      && readPos == Slot(first, capacity)
      && writePos == Slot(first + |contents|, capacity)
      && forall i :: 0 <= i < |contents| ==> buffer[Slot(first + i, capacity)] == contents[i]
    }

    constructor (c: nat)
      requires PowerOfTwo(c) && c <= TWO_64
      ensures Valid() && capacity == c && contents == [] && fresh(buffer)
    {
      capacity := c;
      buffer := new T[c];
      writePos, readPos := 0, 0;
      first, contents := 0, [];
      new;
      DivModUnique(0, c, 0, 0);
    }

    /** A push fails exactly when capacity - 1 items are stored; otherwise it appends. */
    method Push(item: T) returns (ok: bool)
      requires Valid()
      modifies this`writePos, this`contents, buffer
      ensures Valid()
      ensures ok <==> |old(contents)| < capacity - 1
      ensures contents == if ok then old(contents) + [item] else old(contents)
    {
      hide PowerOfTwo, Advance, Slot;
      var wp := writePos;
      var nextWp := Advance(wp, capacity);
      ghost var n := |contents|;
      PositionTests(first, first + n, capacity);
      if nextWp == readPos {
        return false;
      }
      buffer[wp] := item;
      AdvanceSlot(first + n, capacity);
      writePos := nextWp;
      forall i | 0 <= i < n
        ensures buffer[Slot(first + i, capacity)] == contents[i]
      {
        SlotsApart(first + i, first + n, capacity);
      }
      contents := contents + [item];
      return true;
    }

    /** A pop returns the oldest item, if there is one. */
    method Pop() returns (item: Option<T>)
      requires Valid()
      modifies this`readPos, this`contents, this`first
      ensures Valid()
      ensures item == if old(contents) != [] then Some(old(contents)[0]) else None
      ensures contents == if item.Some? then old(contents)[1..] else old(contents)
    {
      hide PowerOfTwo, Advance, Slot;
      var rp := readPos;
      PositionTests(first, first + |contents|, capacity);
      if rp == writePos {
        return None;
      }
      item := Some(buffer[rp]);
      assert buffer[Slot(first + 0, capacity)] == contents[0];
      AdvanceSlot(first, capacity);
      readPos := Advance(rp, capacity);
      contents := contents[1..];
      first := first + 1;
      forall i | 0 <= i < |contents|
        ensures buffer[Slot(first + i, capacity)] == contents[i]
      {
        assert first + i == old(first) + (i + 1);
      }
    }

    method Empty() returns (empty: bool)
      requires Valid()
      ensures empty <==> contents == []
    {
      hide PowerOfTwo, Slot;
      PositionTests(first, first + |contents|, capacity);
      empty := readPos == writePos;
    }

    method Full() returns (full: bool)
      requires Valid()
      ensures full <==> |contents| == capacity - 1
    {
      hide PowerOfTwo, Slot, Advance;
      PositionTests(first, first + |contents|, capacity);
      full := Advance(writePos, capacity) == readPos;
    }

    method Size() returns (n: nat)
      requires Valid()
      ensures n == |contents|
    {
      hide PowerOfTwo, Slot, Distance;
      DistanceIsLength(first, first + |contents|, capacity);
      n := Distance(writePos, readPos, capacity);
    }

    method Clear()
      requires Valid()
      modifies this`readPos, this`contents, this`first
      ensures Valid() && contents == []
    {
      hide PowerOfTwo, Slot;
      readPos := writePos;
      first := first + |contents|;
      contents := [];
    }
  }
}
