/**
 * Clients of the expiring temporal vector that rely on its contracts alone:
 * the behaviour a caller can count on across several operations.
 */
module Scenarios {
  import opened TemporalElements
  import opened TemporalVector

  /** Reading all elements twice at the same instant, with no addition in
      between, gives the same answer both times. */
  method GetElementsTwice<T>(v: ExpiringTemporalVector<T>, now: int) returns (first: seq<T>, second: seq<T>)
    requires v.Valid() && v.lastNow <= now
    modifies v
    ensures v.Valid()
    ensures first == second
  {
    first := v.GetElements(now);
    SweepIdempotent(old(v.elements), now, v.timeLimit);
    second := v.GetElements(now);
  }

  /** Without additions, a read at a later instant returns what a single read
      at that instant would have returned, so the earlier read is invisible,
      and it returns no more values than the earlier read. */
  method ReadsShrink<T>(v: ExpiringTemporalVector<T>, earlier: int, later: int) returns (first: seq<T>, second: seq<T>)
    requires v.Valid() && v.lastNow <= earlier <= later
    modifies v
    ensures v.Valid()
    ensures second == Values(Unexpired(old(v.elements), later, v.timeLimit))
    ensures |second| <= |first|
  {
    first := v.GetElements(earlier);
    second := v.GetElements(later);
    SweepAbsorbed(old(v.elements), earlier, later, v.timeLimit);
    ShrinksOverTime(old(v.elements), earlier, later, v.timeLimit);
  }

  /** A value just added is the last value read at the same instant, when the
      time limit is not negative. */
  method AddThenRead<T>(v: ExpiringTemporalVector<T>, x: T, now: int) returns (r: seq<T>)
    requires v.Valid() && v.lastNow <= now && v.timeLimit >= 0
    modifies v
    ensures v.Valid()
    ensures |r| > 0 && r[|r| - 1] == x
  {
    v.Add(x, now);
    ghost var before := old(v.elements);
    AddedIsLive(before, x, now, v.timeLimit);
    r := v.GetElements(now);
  }

  /** A time limit of 2 ticks: "a" added at 0 is read at 1 and gone at 3. */
  method ExpiresAfterLimit() {
    var v := new ExpiringTemporalVector<string>(2, 0);
    v.Add("a", 0);
    var r := v.GetElements(1);
    assert r == ["a"];
    r := v.GetElements(3);
    assert r == [];
  }

  /** A time limit of 10 ticks: "p" added at 0 and "q" at 5 are both read at 9,
      only "q" at 14, and neither at 16. */
  method ExpiresInOrder() {
    var v := new ExpiringTemporalVector<string>(10, 0);
    v.Add("p", 0);
    v.Add("q", 5);
    var r := v.GetElements(9);
    assert r == ["p", "q"];
    assert v.elements[..1] == [Element("p", 0)];
    r := v.GetElements(14);
    assert r == ["q"];
    r := v.GetElements(16);
    assert r == [];
  }

  /** A time limit of 5 ticks: of "x" added at 0 and "y" at 2, only "y" is
      stamped at or after 1, and nothing is stamped at or after the future
      instant 4. */
  method SinceFiltersByTimestamp() {
    var v := new ExpiringTemporalVector<string>(5, 0);
    v.Add("x", 0);
    v.Add("y", 2);
    var r := v.GetElementsSince(1, 3);
    assert r == ["y"];
    r := v.GetElementsSince(4, 3);
    assert r == [];
  }
}
