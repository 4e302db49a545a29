/**
 * The expiring temporal vector: a container that stores each value with the
 * instant it was added, drops entries older than a fixed time limit lazily
 * (whenever it is read), and returns either all live values or those added at
 * or after a given instant.
 *
 * The monotonic clock is not read here: every operation that needs the current
 * instant takes it as the parameter `now`.
 */
module TemporalVector {
  import opened TemporalElements

  class ExpiringTemporalVector<T> {
    /** The stored entries, oldest first. */
    var elements: seq<Element<T>>
    /** How long an entry stays live; fixed at construction. */
    const timeLimit: int

    /** The latest reading of the monotonic clock this container has seen;
        every operation is given a reading no earlier than this one. */
    ghost var lastNow: int

    /** With a monotonic clock and appends at the tail, stored timestamps
        never decrease, and none is later than the last clock reading. */
    ghost predicate Valid()
      reads this
    {
      Sorted(elements) && forall i :: 0 <= i < |elements| ==> elements[i].timestamp <= lastNow
    }

    /** An empty container whose entries expire after `timeLimit` ticks,
        created when the clock reads `now`. */
    constructor (timeLimit: int, ghost now: int)
      ensures Valid()
      ensures elements == [] && this.timeLimit == timeLimit && lastNow == now
    {
      this.elements := [];
      this.timeLimit := timeLimit;
      this.lastNow := now;
    }

    /** Appends `value`, stamped with the current instant, after every stored
        entry; nothing else changes. */
    method Add(value: T, now: int)
      requires Valid() && lastNow <= now
      modifies this
      ensures Valid() && lastNow == now
      ensures elements == old(elements) + [Element(value, now)]
    {
      lastNow := now;
      AppendSorted(elements, Element(value, now));
      elements := elements + [Element(value, now)];
    }

    /** Removes exactly the entries older than the time limit at `now`. The
        survivors keep their order and, timestamps being sorted, are what
        remains after dropping a prefix of expired entries. */
    method CleanExpired(now: int)
      requires Valid() && lastNow <= now
      modifies this
      ensures Valid() && lastNow == now
      ensures elements == Unexpired(old(elements), now, timeLimit)
      ensures forall e :: e in elements <==> e in old(elements) && !Expired(e, now, timeLimit)
      ensures elements == old(elements)[|old(elements)| - |elements|..]
    {
      var kept := [];
      var i := 0;
      while i < |elements|
        invariant 0 <= i <= |elements|
        invariant kept == Unexpired(elements[..i], now, timeLimit)
      {
        assert elements[..i + 1][..i] == elements[..i];
        if !Expired(elements[i], now, timeLimit) {
          kept := kept + [elements[i]];
        }
        i := i + 1;
      }
      assert elements[..i] == elements;
      UnexpiredMembers(elements, now, timeLimit);
      UnexpiredIsSuffix(elements, now, timeLimit);
      UnexpiredSorted(elements, now, timeLimit);
      elements := kept;
      lastNow := now;
    }

    /** Sweeps expired entries at `now`, then returns the values of all the
        remaining entries in the order they were added. */
    method GetElements(now: int) returns (r: seq<T>)
      requires Valid() && lastNow <= now
      modifies this
      ensures Valid() && lastNow == now
      ensures elements == Unexpired(old(elements), now, timeLimit)
      ensures r == Values(elements)
    {
      CleanExpired(now);
      r := [];
      var i := 0;
      while i < |elements|
        invariant 0 <= i <= |elements|
        invariant r == Values(elements[..i])
      {
        assert elements[..i + 1][..i] == elements[..i];
        r := r + [elements[i].value];
        i := i + 1;
      }
      assert elements[..i] == elements;
    }

    /** Sweeps expired entries at `now`, then returns, in the order they were
        added, the values of the remaining entries stamped at or after `time`. */
    method GetElementsSince(time: int, now: int) returns (r: seq<T>)
      requires Valid() && lastNow <= now
      modifies this
      ensures Valid() && lastNow == now
      ensures elements == Unexpired(old(elements), now, timeLimit)
      ensures r == Values(AtOrAfter(elements, time))
      ensures r == Values(elements[|elements| - |r|..])
      ensures forall i :: 0 <= i < |elements| - |r| ==> elements[i].timestamp < time
    {
      CleanExpired(now);
      r := [];
      var i := 0;
      while i < |elements|
        invariant 0 <= i <= |elements|
        invariant r == Values(AtOrAfter(elements[..i], time))
      {
        assert elements[..i + 1][..i] == elements[..i];
        if elements[i].timestamp >= time {
          r := r + [elements[i].value];
        }
        i := i + 1;
      }
      assert elements[..i] == elements;
      AtOrAfterIsSuffix(elements, time);
    }
  }
}
