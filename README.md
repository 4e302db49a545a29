# Expiring temporal vector

A Dafny model of `ExpiringTemporalVector<T>`, a generic container that stores
each value together with the instant it was added. Entries older than a fixed
time limit expire. They are removed lazily, by a cleaning pass that runs when
the container is read. The container returns either all live values or only
those added at or after a given instant.

- `elements.dfy` (module `TemporalElements`): the private `Element` struct as
  the datatype `Element(value, timestamp)`, and the pure views that specify
  the operations. `Unexpired` is what a cleaning pass keeps. `AtOrAfter` is
  the since-filter. `Values` is the output vector built from entries. Lemmas
  about them state what the class promises.
- `vector.dfy` (module `TemporalVector`): the class `ExpiringTemporalVector<T>`.
  It has the entry vector `elements_` as a `seq` field and `time_limit_` as a
  `const`, so no method can change it. `Add`, `CleanExpired`, `GetElements`
  and `GetElementsSince` update `elements` in place. The loops that scan and
  build the result carry their invariants. `Valid()` is the class invariant:
  stored timestamps never decrease and none is later than the last clock
  reading.
- `scenarios.dfy` (module `Scenarios`): client methods that use only the class
  contracts. They show that two reads at one instant agree, that reads shrink
  over time, and that a just-added value is read back. They also check small
  concrete timelines by assertion.

Instants and the time limit are integers in one tick unit. The steady clock is
not read. Each operation takes the current reading as the parameter `now`. The
ghost field `lastNow` holds the latest reading the container has seen. The
constructor takes the reading at creation as a ghost parameter. Every operation
requires `now` to be no earlier than `lastNow`, then advances `lastNow` to
`now`. This is the guarantee the monotonic steady clock gives. `Valid()`
therefore also says that no stored timestamp is later than `lastNow`. An entry
is expired at `now` when `now - timestamp > timeLimit`. This follows "older
than the specified time limit", so an entry exactly `timeLimit` old is still
live (`ExpiryBoundary`).

The bodies of the member functions live in `expiring_temporal_vector.tpp`,
which is not part of this model. The model follows the header's declarations
and doc comments. Where those comments leave the behaviour open, the model
chooses as follows:

- `add` is documented only as adding the element with the current timestamp.
  It is modelled as a plain append, with no cleaning pass. An implementation
  might also sweep on insertion. `SweepAbsorbed` shows that, with a monotonic
  clock, this changes no later read.
- `get_elements_since` has a non-const signature, like `get_elements`. This
  suggests it cleans first, so it is modelled as cleaning at `now` and then
  filtering by timestamp.
- The constructor does not validate the time limit. With a negative limit,
  every entry is expired as soon as it is added.

## Model

| member | source | states |
|---|---|---|
| `TemporalVector.ExpiringTemporalVector.constructor` | expiring_temporal_vector.hpp:17-21 | the new container is empty, keeps the given time limit, records the clock reading at creation, and satisfies the invariant |
| `TemporalVector.ExpiringTemporalVector.Add` | expiring_temporal_vector.hpp:23-27 | given a clock reading no earlier than the last one, exactly one entry is appended after the existing ones; it carries the argument and the current instant; timestamps stay sorted |
| `TemporalVector.ExpiringTemporalVector.CleanExpired` | expiring_temporal_vector.hpp:51-54 | the stored entries become exactly the old ones that have not expired, in order; they are a suffix of the old entries; timestamps stay sorted |
| `TemporalVector.ExpiringTemporalVector.GetElements` | expiring_temporal_vector.hpp:29-33 | cleans at `now`, then returns the values of all remaining entries in insertion order |
| `TemporalVector.ExpiringTemporalVector.GetElementsSince` | expiring_temporal_vector.hpp:35-40 | cleans at `now`, then returns in insertion order the values of the remaining entries stamped at or after `time`; these are the values of a suffix of the remaining entries, every entry before it stamped before `time` |
| `TemporalElements.Values` | expiring_temporal_vector.hpp:43-49 | the output has one value per entry; position `i` holds the value carried by entry `i` |
| `TemporalElements.Unexpired` | expiring_temporal_vector.hpp:51-54 | a cleaning pass never makes the entry vector longer |
| `TemporalElements.AtOrAfter` | expiring_temporal_vector.hpp:35-40 | the since-filter never returns more entries than are stored |
| `TemporalElements.UnexpiredMembers` | expiring_temporal_vector.hpp:29-33 | an entry survives cleaning if and only if it was stored and has not expired: no expired entry is returned, no live one is lost |
| `TemporalElements.AtOrAfterMembers` | expiring_temporal_vector.hpp:35-40 | an entry passes the since-filter if and only if it is stored and its timestamp is at or after `time` |
| `TemporalElements.AllExpired` | expiring_temporal_vector.hpp:51-54 | when every stored entry has expired, cleaning leaves nothing |
| `TemporalElements.UnexpiredIsSuffix` | expiring_temporal_vector.hpp:51-56 | with sorted timestamps, the expired entries form a prefix: cleaning drops the first `k` entries, all expired, and keeps the rest in order |
| `TemporalElements.UnexpiredSorted` | expiring_temporal_vector.hpp:51-56 | cleaning keeps timestamps sorted |
| `TemporalElements.AppendSorted` | expiring_temporal_vector.hpp:14-27 | appending an entry stamped no earlier than every stored one keeps timestamps sorted |
| `TemporalElements.SweepAbsorbed` | expiring_temporal_vector.hpp:51-54 | cleaning at an earlier instant, then at a later one, leaves what cleaning once at the later one leaves |
| `TemporalElements.SweepIdempotent` | expiring_temporal_vector.hpp:29-33 | cleaning twice at the same instant leaves what cleaning once leaves |
| `TemporalElements.ShrinksOverTime` | expiring_temporal_vector.hpp:29-33 | without additions, the number of live entries never grows as time passes |
| `TemporalElements.AddedIsLive` | expiring_temporal_vector.hpp:23-33 | with a non-negative limit, an entry added at `now` survives cleaning at `now` and comes last |
| `TemporalElements.AtOrAfterFuture` | expiring_temporal_vector.hpp:35-40 | an instant later than every stored timestamp selects nothing |
| `TemporalElements.AtOrAfterIsSuffix` | expiring_temporal_vector.hpp:35-40 | with sorted timestamps, the since-filter keeps a suffix in storage order, duplicates included; every entry before it is stamped before `time` |
| `TemporalElements.ExpiryBoundary` | expiring_temporal_vector.hpp:51-54 | an entry is expired exactly when it was stamped before `now - limit`; one exactly `limit` old is live; once expired it stays expired later |
| `TemporalElements.AtOrAfterAll` | expiring_temporal_vector.hpp:35-40 | an instant no later than every stored timestamp selects every entry |
| `Scenarios.GetElementsTwice` | expiring_temporal_vector.hpp:29-33 | two reads at the same instant with no addition between them return the same values |
| `Scenarios.ReadsShrink` | expiring_temporal_vector.hpp:29-33 | without additions, a later read returns what a single read at that instant would return, and no more values than the earlier read |
| `Scenarios.AddThenRead` | expiring_temporal_vector.hpp:23-33 | with a non-negative limit, a value just added is the last value a read at the same instant returns |

## Left out

- Reading `std::chrono::steady_clock::now()`: the clock is external. Each operation takes its reading as the `now` parameter instead.
- The tick units of `std::chrono::seconds` and `time_point`: the limit and the timestamps are integers in one unit, and no unit conversion is modelled.
- Overflow of the clock's fixed-width tick counter: integers are unbounded here. A 64-bit tick count does not wrap in practice.
- `expiring_temporal_vector.tpp` is not part of this model. No implementation detail beyond the header's contracts is assumed. `CleanExpired` is written as a filtering scan. `UnexpiredIsSuffix` shows that dropping the expired prefix gives the same result.
- Copying `T` into and out of the vector: values are immutable Dafny values, so aliasing does not arise.
- Concurrency: the class declares no synchronisation, and the model is sequential.
- Iteration over the stored entries without cleaning: the header declares no iterator.
