/**
 * Time-tagged entries of an expiring temporal vector, and the pure views of a
 * sequence of entries that the container's operations are specified by: which
 * entries have expired at a given instant, which were added at or after a given
 * instant, and the values they carry.
 *
 * Instants and the time limit are integers in one common tick unit; an instant
 * is a reading of a monotonic clock.
 */
module TemporalElements {

  /** A stored entry: a value together with the instant it was added. The value
      and its timestamp live in one unit, so no operation can separate them. */
  datatype Element<T> = Element(value: T, timestamp: int)

  /** An entry is expired at `now` when it is older than `limit`: strictly more
      than `limit` ticks have passed since it was added. */
  predicate Expired<T>(e: Element<T>, now: int, limit: int)
  {
    now - e.timestamp > limit
  }

  /** Timestamps never decrease in storage order. */
  ghost predicate Sorted<T>(es: seq<Element<T>>)
  {
    forall i, j :: 0 <= i <= j < |es| ==> es[i].timestamp <= es[j].timestamp
  }

  /** The entries of `es` that have not expired at `now`, in storage order. */
  function Unexpired<T>(es: seq<Element<T>>, now: int, limit: int): (r: seq<Element<T>>)
    ensures |r| <= |es|
  {
    if es == [] then []
    else
      var rest := Unexpired(es[..|es| - 1], now, limit);
      if Expired(es[|es| - 1], now, limit) then rest else rest + [es[|es| - 1]]
  }

  /** The entries of `es` added at or after `time`, in storage order. */
  function AtOrAfter<T>(es: seq<Element<T>>, time: int): (r: seq<Element<T>>)
    ensures |r| <= |es|
  {
    if es == [] then []
    else
      var rest := AtOrAfter(es[..|es| - 1], time);
      if es[|es| - 1].timestamp >= time then rest + [es[|es| - 1]] else rest
  }

  /** The values carried by `es`, position by position. */
  function Values<T>(es: seq<Element<T>>): (r: seq<T>)
    ensures |r| == |es|
    ensures forall i :: 0 <= i < |es| ==> r[i] == es[i].value
  {
    if es == [] then [] else Values(es[..|es| - 1]) + [es[|es| - 1].value]
  }

  /** Dropping the last entry of `s + [x]` gives back `s`; this is how both
      filters above unfold on an appended entry. */
  lemma DropLast<T>(s: seq<Element<T>>, x: Element<T>)
    ensures (s + [x])[..|s|] == s && (s + [x])[|s|] == x
  {
  }

  /** The sweep keeps exactly the entries that have not expired: nothing live is
      lost and nothing expired is returned. */
  lemma {:induction false} UnexpiredMembers<T>(es: seq<Element<T>>, now: int, limit: int)
    ensures forall e :: e in Unexpired(es, now, limit) <==> e in es && !Expired(e, now, limit)
  {
    if es != [] {
      var init := es[..|es| - 1];
      UnexpiredMembers(init, now, limit);
      assert es == init + [es[|es| - 1]];
    }
  }

  /** The since-filter keeps exactly the entries whose timestamp is at or after
      `time`. */
  lemma {:induction false} AtOrAfterMembers<T>(es: seq<Element<T>>, time: int)
    ensures forall e :: e in AtOrAfter(es, time) <==> e in es && e.timestamp >= time
  {
    if es != [] {
      var init := es[..|es| - 1];
      AtOrAfterMembers(init, time);
      assert es == init + [es[|es| - 1]];
    }
  }

  /** When every entry has expired, the sweep keeps nothing. */
  lemma {:induction false} AllExpired<T>(es: seq<Element<T>>, now: int, limit: int)
    requires forall i :: 0 <= i < |es| ==> Expired(es[i], now, limit)
    ensures Unexpired(es, now, limit) == []
  {
    if es != [] {
      AllExpired(es[..|es| - 1], now, limit);
    }
  }

  /** When timestamps are sorted, the expired entries form a prefix: the sweep
      removes the first `k` entries, every one of them expired, and keeps the
      rest in their original order. */
  lemma {:induction false} UnexpiredIsSuffix<T>(es: seq<Element<T>>, now: int, limit: int)
    requires Sorted(es)
    ensures var k := |es| - |Unexpired(es, now, limit)|;
      Unexpired(es, now, limit) == es[k..] && forall i :: 0 <= i < k ==> Expired(es[i], now, limit)
  {
    if es != [] {
      var init, last := es[..|es| - 1], es[|es| - 1];
      assert Sorted(init);
      if Expired(last, now, limit) {
        // every earlier entry is at least as old as the last one
        assert forall i :: 0 <= i < |es| ==> Expired(es[i], now, limit);
        AllExpired(init, now, limit);
      } else {
        UnexpiredIsSuffix(init, now, limit);
        var k := |init| - |Unexpired(init, now, limit)|;
        calc {
          Unexpired(es, now, limit);
          Unexpired(init, now, limit) + [last];
          init[k..] + [last];
          { assert es == init + [last]; }
          es[k..];
        }
      }
    }
  }

  /** A sweep keeps timestamps sorted. */
  lemma UnexpiredSorted<T>(es: seq<Element<T>>, now: int, limit: int)
    requires Sorted(es)
    ensures Sorted(Unexpired(es, now, limit))
  {
    UnexpiredIsSuffix(es, now, limit);
  }

  /** Appending an entry stamped no earlier than every stored one keeps
      timestamps sorted. */
  lemma AppendSorted<T>(es: seq<Element<T>>, x: Element<T>)
    requires Sorted(es)
    requires forall i :: 0 <= i < |es| ==> es[i].timestamp <= x.timestamp
    ensures Sorted(es + [x])
  {
    DropLast(es, x);
  }

  /** A sweep at an earlier instant is absorbed by a sweep at a later one: with
      a monotonic clock, sweeping more often never changes what a later sweep
      leaves behind. */
  lemma {:induction false} SweepAbsorbed<T>(es: seq<Element<T>>, earlier: int, later: int, limit: int)
    requires earlier <= later
    ensures Unexpired(Unexpired(es, earlier, limit), later, limit) == Unexpired(es, later, limit)
  {
    if es != [] {
      var init, last := es[..|es| - 1], es[|es| - 1];
      SweepAbsorbed(init, earlier, later, limit);
      if !Expired(last, earlier, limit) {
        DropLast(Unexpired(init, earlier, limit), last);
      }
    }
  }

  /** Sweeping twice at the same instant leaves what one sweep leaves. */
  lemma {:induction false} SweepIdempotent<T>(es: seq<Element<T>>, now: int, limit: int)
    ensures Unexpired(Unexpired(es, now, limit), now, limit) == Unexpired(es, now, limit)
  {
    SweepAbsorbed(es, now, now, limit);
  }

  /** Without new additions, the number of live entries never grows as time
      passes. */
  lemma {:induction false} ShrinksOverTime<T>(es: seq<Element<T>>, earlier: int, later: int, limit: int)
    requires earlier <= later
    ensures |Unexpired(es, later, limit)| <= |Unexpired(es, earlier, limit)|
  {
    SweepAbsorbed(es, earlier, later, limit);
  }

  /** An entry stamped `now` is live at `now` when the limit is not negative,
      so a sweep right after adding it keeps it, last. */
  lemma AddedIsLive<T>(es: seq<Element<T>>, v: T, now: int, limit: int)
    requires limit >= 0
    ensures Unexpired(es + [Element(v, now)], now, limit) == Unexpired(es, now, limit) + [Element(v, now)]
  {
    DropLast(es, Element(v, now));
  }

  /** An instant later than every stored timestamp selects nothing. */
  lemma {:induction false} AtOrAfterFuture<T>(es: seq<Element<T>>, time: int)
    requires forall i :: 0 <= i < |es| ==> es[i].timestamp < time
    ensures AtOrAfter(es, time) == []
  {
    if es != [] {
      AtOrAfterFuture(es[..|es| - 1], time);
    }
  }

  /** An instant no later than every stored timestamp selects everything. */
  lemma {:induction false} AtOrAfterAll<T>(es: seq<Element<T>>, time: int)
    requires forall i :: 0 <= i < |es| ==> es[i].timestamp >= time
    ensures AtOrAfter(es, time) == es
  {
    if es != [] {
      var init := es[..|es| - 1];
      AtOrAfterAll(init, time);
      assert es == init + [es[|es| - 1]];
    }
  }

  /** With sorted timestamps, the since-filter keeps a suffix: every entry it
      keeps comes back in storage order, duplicates included, and every entry
      it drops is stamped before `time`. */
  lemma {:induction false} AtOrAfterIsSuffix<T>(es: seq<Element<T>>, time: int)
    requires Sorted(es)
    ensures var k := |es| - |AtOrAfter(es, time)|;
      AtOrAfter(es, time) == es[k..] && forall i :: 0 <= i < k ==> es[i].timestamp < time
  {
    if es != [] {
      var init, last := es[..|es| - 1], es[|es| - 1];
      assert Sorted(init);
      if last.timestamp < time {
        // every earlier entry is stamped no later than the last one
        assert forall i :: 0 <= i < |es| ==> es[i].timestamp < time;
        AtOrAfterFuture(es, time);
        assert es[|es|..] == [];
      } else {
        AtOrAfterIsSuffix(init, time);
        var k := |init| - |AtOrAfter(init, time)|;
        calc {
          AtOrAfter(es, time);
          AtOrAfter(init, time) + [last];
          init[k..] + [last];
          { assert es == init + [last]; }
          es[k..];
        }
      }
    }
  }

  /** Where the expiry boundary lies: an entry is expired exactly when it was
      stamped before `now - limit`, so one exactly `limit` old is still live,
      and once expired it stays expired at every later instant. */
  lemma ExpiryBoundary<T>(e: Element<T>, now: int, later: int, limit: int)
    requires now <= later
    ensures Expired(e, now, limit) <==> e.timestamp < now - limit
    ensures !Expired(Element(e.value, now - limit), now, limit)
    ensures Expired(e, now, limit) ==> Expired(e, later, limit)
  {
  }
}
