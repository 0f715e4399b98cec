/**
  The circular buffer that all three pools use to hand out free blocks: slots are
  consumed at one index and refilled at another, both wrapping at the capacity.
  */
module Ring {

  /** Index `i` of an unrolled ring, wrapped once. */
  function Slot(i: nat, capacity: nat): nat
    requires i < 2 * capacity
  {
    if i < capacity then i else i - capacity
  }

  lemma SlotIsMod(i: nat, capacity: nat)
    requires i < 2 * capacity
    ensures Slot(i, capacity) == i % capacity
  {
    var q := i / capacity;
    assert i == capacity * q + i % capacity;
  }

  /** The `n` entries met when walking the ring from slot `start`. */
  function Window<T>(buf: seq<T>, start: nat, n: nat): (w: seq<T>)
    requires start < |buf| && n <= |buf|
    ensures |w| == n
    ensures forall k :: 0 <= k < n ==> w[k] == buf[Slot(start + k, |buf|)]
  {
    if start + n <= |buf| then buf[start..start + n]
    else buf[start..] + buf[..start + n - |buf|]
  }

  lemma WindowPop<T>(buf: seq<T>, start: nat, n: nat)
    requires start < |buf| && 0 < n <= |buf|
    ensures Window(buf, start, n) == [buf[start]] + Window(buf, Slot(start + 1, |buf|), n - 1)
  {
  }

  lemma WindowPush<T>(buf: seq<T>, start: nat, n: nat, x: T)
    requires start < |buf| && n < |buf|
    ensures Window(buf[Slot(start + n, |buf|) := x], start, n + 1) == Window(buf, start, n) + [x]
  {
  }

  /** Elements as a set. */
  ghost function Elements<T>(s: seq<T>): set<T>
  {
    set x | x in s
  }

  ghost predicate Distinct<T>(s: seq<T>)
  {
    forall i, j :: 0 <= i < j < |s| ==> s[i] != s[j]
  }

  lemma {:induction false} DistinctCardinality<T>(s: seq<T>)
    requires Distinct(s)
    ensures |Elements(s)| == |s|
  {
    if s != [] {
      var last := s[|s| - 1];
      var init := s[..|s| - 1];
      DistinctCardinality(init);
      assert Elements(s) == Elements(init) + {last};
    }
  }
}
