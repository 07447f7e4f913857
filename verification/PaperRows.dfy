/**
 The stored rows of the paper trader: what they always satisfy, that such rows
 replay in the order their events were produced in, and which writes keep it.
 */
module PaperRows {
  import opened Wrappers
  import opened Sorting
  import opened PaperLedger
  import opened Replay
  import opened History

  const MAX_OPEN_POSITIONS: nat := 10

  /** The key an event is stored and replayed under. */
  datatype Key = Key(at: int, kind: EventKind, id: nat)

  function KeyOf(e: Event): Key {
    Key(e.at, e.kind, e.trip.id)
  }

  function Keys(events: seq<Event>): (keys: seq<Key>)
    ensures |keys| == |events| && forall i | 0 <= i < |keys| :: keys[i] == KeyOf(events[i])
  {
    seq(|events|, i requires 0 <= i < |events| => KeyOf(events[i]))
  }

  predicate IsOpen(trip: Trip) {
    trip.close.None?
  }

  const unclosed := (trip: Trip) => IsOpen(trip)

  function OpenRows(trips: seq<Trip>): seq<Trip> {
    Filter(unclosed, trips)
  }

  ghost predicate IsKeyOf(key: Key, trips: seq<Trip>) {
    exists e :: IsEventOf(e, trips) && KeyOf(e) == key
  }

  /** The order events were produced in: each later than all before it. */
  ghost predicate Produced(produced: seq<Key>, trips: seq<Trip>) {
    && (forall i, j | 0 <= i < j < |produced| :: produced[i].at < produced[j].at)
    && (forall key :: key in produced <==> IsKeyOf(key, trips))
  }

  ghost predicate Recorded(trips: seq<Trip>, costs: seq<Cost>, produced: seq<Key>) {
    && OneTripPerMint(trips)
    && (forall t <- trips :: RowChecks(t))
    && (forall c <- costs :: c.usd >= 0.0)
    && |OpenRows(trips)| <= MAX_OPEN_POSITIONS
    && Produced(produced, trips)
  }

  lemma RecordedRows(trips: seq<Trip>, costs: seq<Cost>, produced: seq<Key>)
    requires Recorded(trips, costs, produced)
    ensures DistinctIds(trips) && forall t <- trips :: RowChecks(t)
  {
  }

  /** No stored event is later than `last`. */
  ghost predicate NoneAfter(trips: seq<Trip>, last: Option<int>) {
    forall e | IsEventOf(e, trips) :: last.Some? && e.at <= last.value
  }

  lemma NoneAfterLater(trips: seq<Trip>, last: Option<int>, later: int)
    requires NoneAfter(trips, last) && (last.Some? ==> last.value <= later)
    ensures NoneAfter(trips, Some(later))
  {
  }

  /** A stored row keeps everything but its counters, and a close never changes. */
  predicate SameTrip(a: Trip, b: Trip) {
    && b == a.(exitFailures := b.exitFailures, stuck := b.stuck, close := b.close)
    && (a.close.Some? ==> b == a)
  }

  /** The history is only ever added to. */
  ghost predicate Extends(before: seq<Trip>, after: seq<Trip>) {
    |before| <= |after| && forall i | 0 <= i < |before| :: SameTrip(before[i], after[i])
  }

  // ---- Replay of recorded rows ------------------------------------------------------

  predicate KeyNotAfter(a: Key, b: Key) {
    || a.at < b.at
    || (a.at == b.at && a.kind.CloseEvent? && b.kind.OpenEvent?)
    || (a.at == b.at && a.kind == b.kind && a.id <= b.id)
  }

  const keyOrder := (a: Key, b: Key) => KeyNotAfter(a, b)

  lemma KeysStrict(trips: seq<Trip>, events: seq<Event>)
    requires DistinctIds(trips) && Chronicle(events, trips)
    ensures Sorted(keyOrder, Keys(events))
    ensures forall i, j | 0 <= i < j < |events| :: Keys(events)[i] != Keys(events)[j]
  {
    forall i, j | 0 <= i < j < |events| ensures KeyOf(events[i]) != KeyOf(events[j]) {
      assert events[i] in events && events[j] in events;
      if events[i].trip.id == events[j].trip.id {
        SameIdSameRow(trips, events[i].trip, events[j].trip);
      }
    }
  }

  lemma KeysMembers(trips: seq<Trip>, events: seq<Event>)
    requires Chronicle(events, trips)
    ensures forall key :: key in Keys(events) <==> IsKeyOf(key, trips)
  {
    var keys := Keys(events);
    forall key ensures key in keys <==> IsKeyOf(key, trips) {
      if key in keys {
        var i :| 0 <= i < |keys| && keys[i] == key;
        assert events[i] in events;
      }
      if IsKeyOf(key, trips) {
        var e :| IsEventOf(e, trips) && KeyOf(e) == key;
        var i :| 0 <= i < |events| && events[i] == e;
        assert keys[i] == key;
      }
    }
  }

  lemma ProducedIsTimeline(produced: seq<Key>, trips: seq<Trip>)
    requires DistinctIds(trips) && Produced(produced, trips)
    ensures Keys(Timeline(trips)) == produced
  {
    TimelineIsChronicle(trips);
    KeysStrict(trips, Timeline(trips));
    KeysMembers(trips, Timeline(trips));
    SameMembersSameMultiset(Keys(Timeline(trips)), produced);
    SortedUnique(keyOrder, Keys(Timeline(trips)), produced);
  }

  lemma SameMembersSameMultiset<T(!new)>(s: seq<T>, t: seq<T>)
    requires forall i, j | 0 <= i < j < |s| :: s[i] != s[j]
    requires forall i, j | 0 <= i < j < |t| :: t[i] != t[j]
    requires forall x :: x in s <==> x in t
    ensures multiset(s) == multiset(t)
  {
    OnceInMultiset(s);
    OnceInMultiset(t);
    forall x ensures multiset(s)[x] == multiset(t)[x] {
      assert x in multiset(s) <==> x in s;
      assert x in multiset(t) <==> x in t;
    }
  }

  /**
   Recorded rows always replay, for the whole history and for every strategy
   version, and the events are replayed in the order they were produced.
   */
  lemma RecordedRowsReplay(trips: seq<Trip>, costs: seq<Cost>, produced: seq<Key>, version: nat)
    requires Recorded(trips, costs, produced)
    ensures Replayed(trips, costs).Success?
    ensures Replayed(Rows(trips, version, true), CostRows(costs, version, true)).Success?
    ensures Keys(Timeline(trips)) == produced
  {
    ReplaysExactlyWhenRowsCheck(trips, costs);
    VersionsReplayOnTheirOwn(trips, costs, version);
    ProducedIsTimeline(produced, trips);
  }

  // ---- The three writes of a tick ------------------------------------------------------

  lemma {:induction false} OpenRowsUpdate(trips: seq<Trip>, i: nat, trip: Trip)
    requires i < |trips|
    ensures |OpenRows(trips[i := trip])| ==
            |OpenRows(trips)| - (if IsOpen(trips[i]) then 1 else 0) + (if IsOpen(trip) then 1 else 0)
  {
    if i > 0 {
      assert trips[i := trip][1..] == trips[1..][i - 1 := trip];
      OpenRowsUpdate(trips[1..], i - 1, trip);
    } else {
      assert trips[i := trip][1..] == trips[1..];
    }
  }

  lemma EventsAfterUpdate(trips: seq<Trip>, i: nat, trip: Trip)
    requires DistinctIds(trips) && i < |trips| && trip.id == trips[i].id
    ensures DistinctIds(trips[i := trip])
    ensures forall t :: t in trips[i := trip] <==> t == trip || (t in trips && t != trips[i])
  {
    var after := trips[i := trip];
    forall t ensures t in after <==> t == trip || (t in trips && t != trips[i]) {
      if t in after {
        var k :| 0 <= k < |after| && after[k] == t;
        assert k != i ==> trips[k] == t;
      }
      if t in trips && t != trips[i] {
        var k :| 0 <= k < |trips| && trips[k] == t;
        assert after[k] == t;
      }
      assert after[i] == trip;
    }
  }

  lemma OpenedEvents(trips: seq<Trip>, trip: Trip)
    requires IsOpen(trip) && NoneAfter(trips, Some(trip.openedAt - 1))
    ensures NoneAfter(trips + [trip], Some(trip.openedAt))
  {
    forall e | IsEventOf(e, trips + [trip]) ensures e.at <= trip.openedAt {
      assert e.trip in trips ==> IsEventOf(e, trips);
    }
  }

  lemma OpenedProduced(trips: seq<Trip>, trip: Trip, produced: seq<Key>)
    requires Produced(produced, trips) && IsOpen(trip) && NoneAfter(trips, Some(trip.openedAt - 1))
    ensures Produced(produced + [Key(trip.openedAt, OpenEvent, trip.id)], trips + [trip])
  {
    OpenedKeys(trips, trip, produced);
    forall i | 0 <= i < |produced| ensures produced[i].at < trip.openedAt {
      assert produced[i] in produced;
      var e :| IsEventOf(e, trips) && KeyOf(e) == produced[i];
    }
  }

  lemma OpenedOnePerMint(trips: seq<Trip>, trip: Trip)
    requires OneTripPerMint(trips) && IsOpen(trip) && NoneAfter(trips, Some(trip.openedAt - 1))
    requires forall t <- trips :: t.id != trip.id && (t.mint == trip.mint ==> t.close.Some?)
    ensures OneTripPerMint(trips + [trip])
  {
    forall t <- trips | t.mint == trip.mint ensures Precedes(t, trip) {
      assert IsEventOf(CloseOf(t), trips);
    }
  }

  lemma OpenKeepsRecorded(trips: seq<Trip>, costs: seq<Cost>, produced: seq<Key>, trip: Trip)
    requires Recorded(trips, costs, produced) && NoneAfter(trips, Some(trip.openedAt - 1))
    requires IsOpen(trip) && RowChecks(trip) && |OpenRows(trips)| < MAX_OPEN_POSITIONS
    requires forall t <- trips :: t.id != trip.id && (t.mint == trip.mint ==> t.close.Some?)
    ensures Recorded(trips + [trip], costs, produced + [Key(trip.openedAt, OpenEvent, trip.id)])
    ensures NoneAfter(trips + [trip], Some(trip.openedAt))
    ensures |OpenRows(trips + [trip])| == |OpenRows(trips)| + 1
  {
    FilterLast(unclosed, trips, trip);
    OpenedOnePerMint(trips, trip);
    OpenedProduced(trips, trip, produced);
    OpenedEvents(trips, trip);
  }

  lemma OpenedKeys(trips: seq<Trip>, trip: Trip, produced: seq<Key>)
    requires IsOpen(trip)
    requires forall key :: key in produced <==> IsKeyOf(key, trips)
    ensures forall k :: k in produced + [Key(trip.openedAt, OpenEvent, trip.id)] <==> IsKeyOf(k, trips + [trip])
  {
    var after := trips + [trip];
    var key := Key(trip.openedAt, OpenEvent, trip.id);
    forall k ensures k in produced + [key] <==> IsKeyOf(k, after) {
      if k in produced {
        var e :| IsEventOf(e, trips) && KeyOf(e) == k;
        assert IsEventOf(e, after);
      }
      if k == key {
        assert IsEventOf(OpenOf(trip), after) && KeyOf(OpenOf(trip)) == k;
      }
      if IsKeyOf(k, after) {
        var e :| IsEventOf(e, after) && KeyOf(e) == k;
        assert e.trip in trips ==> IsEventOf(e, trips);
      }
    }
  }

  lemma CloseKeepsRecorded(trips: seq<Trip>, costs: seq<Cost>, produced: seq<Key>, i: nat, close: TripClose)
    requires Recorded(trips, costs, produced) && i < |trips| && IsOpen(trips[i])
    requires NoneAfter(trips, Some(close.closedAt - 1))
    requires RowChecks(trips[i].(close := Some(close)))
    ensures Recorded(trips[i := trips[i].(close := Some(close))], costs,
                     produced + [Key(close.closedAt, CloseEvent, trips[i].id)])
    ensures NoneAfter(trips[i := trips[i].(close := Some(close))], Some(close.closedAt))
    ensures |OpenRows(trips[i := trips[i].(close := Some(close))])| == |OpenRows(trips)| - 1
  {
    var was, now := trips[i], trips[i].(close := Some(close));
    var after := trips[i := now];
    var key := Key(close.closedAt, CloseEvent, was.id);
    OpenRowsUpdate(trips, i, now);
    EventsAfterUpdate(trips, i, now);
    assert was in trips && now in after;
    assert IsEventOf(OpenOf(was), trips);
    forall a, b | a in after && b in after && a != b && a.mint == b.mint ensures Precedes(a, b) || Precedes(b, a) {
      var a', b' := if a == now then was else a, if b == now then was else b;
      assert a' in trips && b' in trips;
      assert Precedes(a', b') || Precedes(b', a');
    }
    ClosedKeys(trips, i, close, produced);
    forall i | 0 <= i < |produced| ensures produced[i].at < key.at {
      assert produced[i] in produced;
      var e :| IsEventOf(e, trips) && KeyOf(e) == produced[i];
    }
    forall e | IsEventOf(e, after) ensures e.at <= close.closedAt {
      assert e.trip != now ==> IsEventOf(e, trips);
    }
  }

  lemma ClosedKeys(trips: seq<Trip>, i: nat, close: TripClose, produced: seq<Key>)
    requires DistinctIds(trips) && i < |trips| && IsOpen(trips[i])
    requires forall key :: key in produced <==> IsKeyOf(key, trips)
    ensures var after := trips[i := trips[i].(close := Some(close))];
            forall k :: k in produced + [Key(close.closedAt, CloseEvent, trips[i].id)] <==> IsKeyOf(k, after)
  {
    var was, now := trips[i], trips[i].(close := Some(close));
    var after := trips[i := now];
    var key := Key(close.closedAt, CloseEvent, was.id);
    EventsAfterUpdate(trips, i, now);
    assert was == trips[i] && now == after[i];
    assert was in trips && now in after;
    forall k ensures k in produced + [key] <==> IsKeyOf(k, after) {
      if k in produced {
        var e :| IsEventOf(e, trips) && KeyOf(e) == k;
        var e' := if e.trip == was then OpenOf(now) else e;
        assert IsEventOf(e', after) && KeyOf(e') == k;
      }
      if k == key {
        assert IsEventOf(CloseOf(now), after) && KeyOf(CloseOf(now)) == k;
      }
      if IsKeyOf(k, after) {
        var e :| IsEventOf(e, after) && KeyOf(e) == k;
        if e == OpenOf(now) {
          assert IsEventOf(OpenOf(was), trips) && KeyOf(OpenOf(was)) == k;
        } else if e.trip != now {
          assert IsEventOf(e, trips);
        }
      }
    }
  }

  lemma FailureKeepsRecorded(trips: seq<Trip>, costs: seq<Cost>, produced: seq<Key>, i: nat, trip: Trip)
    requires Recorded(trips, costs, produced) && i < |trips| && IsOpen(trips[i])
    requires trip == trips[i].(exitFailures := trip.exitFailures, stuck := trip.stuck)
    ensures Recorded(trips[i := trip], costs, produced)
    ensures forall last :: NoneAfter(trips, last) ==> NoneAfter(trips[i := trip], last)
    ensures |OpenRows(trips[i := trip])| == |OpenRows(trips)|
  {
    var was := trips[i];
    var after := trips[i := trip];
    OpenRowsUpdate(trips, i, trip);
    EventsAfterUpdate(trips, i, trip);
    assert was in trips && trip in after;
    forall a, b | a in after && b in after && a != b && a.mint == b.mint ensures Precedes(a, b) || Precedes(b, a) {
      var a', b' := if a == trip then was else a, if b == trip then was else b;
      assert a' in trips && b' in trips;
      assert Precedes(a', b') || Precedes(b', a');
    }
    forall k ensures IsKeyOf(k, trips) <==> IsKeyOf(k, after) {
      if IsKeyOf(k, trips) {
        var e :| IsEventOf(e, trips) && KeyOf(e) == k;
        var e' := if e.trip == was then OpenOf(trip) else e;
        assert IsEventOf(e', after) && KeyOf(e') == k;
      }
      if IsKeyOf(k, after) {
        var e :| IsEventOf(e, after) && KeyOf(e) == k;
        var e' := if e.trip == trip then OpenOf(was) else e;
        assert IsEventOf(e', trips) && KeyOf(e') == k;
      }
    }
    forall last | NoneAfter(trips, last) ensures NoneAfter(after, last) {
      forall e | IsEventOf(e, after) ensures last.Some? && e.at <= last.value {
        var e' := if e.trip == trip then OpenOf(was) else e;
        assert IsEventOf(e', trips);
      }
    }
  }

  // ---- Rows are only added to and closed --------------------------------------------

  lemma ExtendsItself(trips: seq<Trip>)
    ensures Extends(trips, trips)
  {
  }

  lemma ExtendsTransitive(a: seq<Trip>, b: seq<Trip>, c: seq<Trip>)
    requires Extends(a, b) && Extends(b, c)
    ensures Extends(a, c)
  {
    forall i | 0 <= i < |a| ensures SameTrip(a[i], c[i]) {
      assert SameTrip(a[i], b[i]) && SameTrip(b[i], c[i]);
    }
  }
}
