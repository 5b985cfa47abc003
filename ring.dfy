/** The ring-buffer discipline of the spark vertex buffer, stated on values: the n-th
    emitted record (counting from 0) goes to slot n mod capacity, and a draw covers
    slots 0 .. min(count, capacity) - 1. */
module Ring {

  /** The slot the record with emission index `count` is written to: `count` with whole
      laps of the ring taken off, which is `count % capacity` (SlotIsMod). */
  function Slot(count: nat, capacity: nat): (s: nat)
    requires capacity > 0
    ensures s < capacity
    ensures count < capacity ==> s == count
    decreases count
  {
    if count < capacity then count else Slot(count - capacity, capacity)
  }

  /** The number of points drawn: the live slots, min(count, capacity). */
  function DrawCount(count: nat, capacity: nat): (n: nat)
    ensures n <= count && n <= capacity
    ensures n == count || n == capacity
  {
    if count < capacity then count else capacity
  }

  /** One write: slot `Slot(count, |ring|)` receives `p`; every other slot keeps its record. */
  function Put<P>(ring: seq<P>, count: nat, p: P): (r: seq<P>)
    requires |ring| > 0
    ensures |r| == |ring|
    ensures r[Slot(count, |ring|)] == p
    ensures forall i :: 0 <= i < |ring| && i != Slot(count, |ring|) ==> r[i] == ring[i]
  {
    ring[Slot(count, |ring|) := p]
  }

  /** The buffer after writing `history`, in order, into `init` starting at emission index 0. */
  function Stream<P>(init: seq<P>, history: seq<P>): (r: seq<P>)
    requires |init| > 0
    ensures |r| == |init|
  {
    if history == [] then init
    else Put(Stream(init, history[..|history| - 1]), |history| - 1, history[|history| - 1])
  }

  lemma MulNonneg(a: int, b: int)
    requires a >= 0 && b >= 0
    ensures a * b >= 0
  {}

  /** A non-zero multiple of m is at least m away from zero. */
  lemma MultipleSize(d: int, m: int)
    requires m > 0
    ensures d >= 1 ==> d * m >= m
    ensures d <= -1 ==> d * m <= -m
  {
    if d >= 1 {
      MulNonneg(d - 1, m);
      assert d * m == (d - 1) * m + m;
    } else if d <= -1 {
      MulNonneg(-d - 1, m);
      assert d * m == -((-d - 1) * m) - m;
    }
  }

  /** Quotient and remainder are the only decomposition x == q * m + r with 0 <= r < m. */
  lemma DivModUnique(x: int, m: int, q: int, r: int)
    requires m > 0 && 0 <= r < m && x == q * m + r
    ensures x % m == r
  {
    var q', r' := x / m, x % m;
    assert x == q' * m + r';
    assert (q - q') * m == r' - r;
    MultipleSize(q - q', m);
  }

  /** The slot is the remainder the source computes with `%`. */
  lemma {:induction false} SlotIsMod(count: nat, capacity: nat)
    requires capacity > 0
    ensures Slot(count, capacity) == count % capacity
    decreases count
  {
    if count < capacity {
      DivModUnique(count, capacity, 0, count);
    } else {
      SlotIsMod(count - capacity, capacity);
      var q := (count - capacity) / capacity;
      var r := (count - capacity) % capacity;
      assert count - capacity == q * capacity + r;
      DivModUnique(count, capacity, q + 1, r);
    }
  }

  /** Two distinct emission indices closer than `capacity` land in different slots. */
  lemma {:induction false} SlotsDistinct(j: nat, n: nat, capacity: nat)
    requires capacity > 0 && j < n < j + capacity
    ensures Slot(j, capacity) != Slot(n, capacity)
    decreases j
  {
    if j >= capacity {
      SlotsDistinct(j - capacity, n - capacity, capacity);
    }
  }

  /** Wraparound: after any sequence of emissions the last `capacity` of them (all of them
      while fewer have been made) are each in their slot; older ones are overwritten. */
  lemma {:induction false} Survivors<P>(init: seq<P>, history: seq<P>, j: nat)
    requires |init| > 0
    requires j < |history| && |history| <= j + |init|
    ensures Stream(init, history)[Slot(j, |init|)] == history[j]
  {
    var n := |history| - 1;
    var prefix := history[..n];
    if j < n {
      Survivors(init, prefix, j);
      SlotsDistinct(j, n, |init|);
    }
  }

  /** Slots no emission has reached yet still hold their initial contents. */
  lemma {:induction false} Untouched<P>(init: seq<P>, history: seq<P>, i: nat)
    requires |history| <= i < |init|
    ensures Stream(init, history)[i] == init[i]
  {
    if history != [] {
      Untouched(init, history[..|history| - 1], i);
    }
  }

  /** The emission index of the record slot `i` holds: the latest index below `count`
      that lands in slot `i`. */
  function LatestWriter(count: nat, capacity: nat, i: nat): (j: nat)
    requires i < capacity && i < count
    ensures j < count && Slot(j, capacity) == i && count <= j + capacity
    decreases count
  {
    if count <= i + capacity then i
    else
      var j := LatestWriter(count - capacity, capacity, i) + capacity;
      assert Slot(j, capacity) == Slot(j - capacity, capacity);
      j
  }

  /** Slot i holds the most recent emission whose index is congruent to i; no later
      emission went to slot i. In particular every drawn slot holds an emitted record. */
  lemma SlotHoldsLatest<P>(init: seq<P>, history: seq<P>, i: nat)
    requires |init| > 0 && i < DrawCount(|history|, |init|)
    ensures var j := LatestWriter(|history|, |init|, i);
      Stream(init, history)[i] == history[j] &&
      forall k :: j < k < |history| ==> Slot(k, |init|) != i
  {
    var j := LatestWriter(|history|, |init|, i);
    Survivors(init, history, j);
    forall k | j < k < |history|
      ensures Slot(k, |init|) != i
    {
      SlotsDistinct(j, k, |init|);
    }
  }

  /** Emitting capacity + k records (k < capacity): slots below k hold the k newest
      records of the second lap, the others still hold the first lap's records. */
  lemma SecondLap<P>(init: seq<P>, history: seq<P>, k: nat, i: nat)
    requires 0 < |init| && k < |init| && |history| == |init| + k && i < |init|
    ensures i < k ==> Stream(init, history)[i] == history[|init| + i]
    ensures k <= i ==> Stream(init, history)[i] == history[i]
  {
    var n := |init|;
    if i < k {
      Survivors(init, history, n + i);
      assert Slot(n + i, n) == Slot(i, n);
    } else {
      Survivors(init, history, i);
    }
  }

  /** Byte range of one slot's upload: it lies inside the buffer allocated for
      `capacity` records. */
  lemma UploadInBounds(count: nat, capacity: nat, recordBytes: nat)
    requires capacity > 0
    ensures Slot(count, capacity) * recordBytes + recordBytes <= capacity * recordBytes
  {
    var s := Slot(count, capacity);
    MulNonneg(capacity - (s + 1), recordBytes);
    assert capacity * recordBytes
      == (capacity - (s + 1)) * recordBytes + s * recordBytes + recordBytes;
  }
}
