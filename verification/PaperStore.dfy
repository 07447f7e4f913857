/**
 The paper trader's tables (`jarvis-api/src/memecoin/store.rs`). Every call may
 fail, and a write may land although its answer never arrives.
 */
module PaperStore {
  import opened Wrappers
  import opened Sorting
  import opened PaperLedger
  import opened Replay
  import opened History
  import opened PaperRows
  import LateWrites

  const NANOSECONDS_PER_SECOND := 1_000_000_000
  const NANOSECONDS_PER_DAY := 86_400 * NANOSECONDS_PER_SECOND
  /** The most held rows one query returns. */
  const HELD_LIMIT: nat := 64

  /** A database call: its answer, or no answer at all. */
  datatype Reply<+T> = Answer(value: T) | NoAnswer

  function Day(at: int): int {
    at / NANOSECONDS_PER_DAY
  }

  predicate SameCostRow(cost: Cost, kind: CostKind, version: nat, at: int) {
    cost.kind == kind && cost.strategyVersion == version && Day(cost.at) == Day(at)
  }

  function AtMost<T>(limit: nat, rows: seq<T>): seq<T> {
    if |rows| > limit then rows[..limit] else rows
  }

  /** Row `i` of `before`, open and not stuck, became `row`. */
  predicate Rewritten(before: seq<Trip>, after: seq<Trip>, i: nat, row: Trip) {
    i < |before| && IsOpen(before[i]) && !before[i].stuck && after == before[i := row]
  }

  /** The row with this id was closed. */
  ghost predicate RowClosed(before: seq<Trip>, after: seq<Trip>, id: nat, close: TripClose) {
    exists i | 0 <= i < |before| && before[i].id == id :: Rewritten(before, after, i, before[i].(close := Some(close)))
  }

  function OnceMoreFailed(trip: Trip, cap: nat): Trip {
    trip.(exitFailures := trip.exitFailures + 1, stuck := trip.exitFailures + 1 >= cap)
  }

  /** One more failed exit was counted for the row with this id; `stuck` tells whether it reached the cap. */
  ghost predicate RowFailed(before: seq<Trip>, after: seq<Trip>, id: nat, cap: nat, stuck: bool) {
    exists i | 0 <= i < |before| && before[i].id == id ::
      Rewritten(before, after, i, OnceMoreFailed(before[i], cap)) && stuck == OnceMoreFailed(before[i], cap).stuck
  }

  /**
   One kind's and version's total grew by `usd` and no other changed; the row
   that holds it is dated `at`, and the rows of other days, kinds and versions
   are those of before.
   */
  ghost predicate Charged(before: seq<Cost>, after: seq<Cost>, kind: CostKind, version: nat, usd: real, at: int) {
    && (forall k, v :: FeesOf(k, CostRows(after, v, true)) ==
                       FeesOf(k, CostRows(before, v, true)) + (if k == kind && v == version then usd else 0.0))
    && (exists c <- after :: c.kind == kind && c.strategyVersion == version && c.at == at)
    && (forall c <- before | !SameCostRow(c, kind, version, at) :: c in after)
  }

  /** The paper rows, with the log of the events the trader stored. */
  class PaperDatabase {
    var trips: seq<Trip>
    var costs: seq<Cost>
    ghost var produced: seq<Key>
    /** How many statements got no answer. */
    ghost var failures: nat

    ghost predicate Valid()
      reads this
    {
      Recorded(trips, costs, produced)
    }

    constructor ()
      ensures Valid() && trips == [] && costs == [] && produced == []
    {
      trips, costs, produced, failures := [], [], [], 0;
      new;
      NothingRecorded();
    }

    /** Positions still held, oldest first, at most `HELD_LIMIT`. */
    method LoadHeld() returns (r: Reply<seq<Trip>>)
      requires Valid()
      modifies this`failures
      ensures failures == old(failures) + if r.NoAnswer? then 1 else 0
      ensures r.Answer? ==> multiset(r.value) == multiset(OpenRows(trips))
    {
      var lost: bool := *;
      var open := SortBy((a: Trip, b: Trip) => a.openedAt <= b.openedAt, OpenRows(trips));
      failures := failures + if lost then 1 else 0;
      return if lost then NoAnswer else Answer(AtMost(HELD_LIMIT, open));
    }

    /** The closed trip with the latest close, if there is one. */
    method LatestClosed() returns (r: Reply<Option<Trip>>)
      modifies this`failures
      ensures failures == old(failures) + if r.NoAnswer? then 1 else 0
      ensures r.Answer? && r.value.Some? ==> r.value.value in trips && !IsOpen(r.value.value)
      ensures r.Answer? ==>
                forall t <- trips | !IsOpen(t) ::
                  r.value.Some? && !IsOpen(r.value.value) && t.close.value.closedAt <= r.value.value.close.value.closedAt
    {
      var latest: Option<Trip> := None;
      for i := 0 to |trips|
        invariant latest.Some? ==> latest.value in trips && !IsOpen(latest.value)
        invariant forall t <- trips[..i] | !IsOpen(t) ::
                    latest.Some? && !IsOpen(latest.value) && t.close.value.closedAt <= latest.value.close.value.closedAt
      {
        if !IsOpen(trips[i])
           && (latest.None? || latest.value.close.value.closedAt <= trips[i].close.value.closedAt) {
          latest := Some(trips[i]);
        }
      }
      assert trips[..|trips|] == trips;
      var lost: bool := *;
      failures := failures + if lost then 1 else 0;
      return if lost then NoAnswer else Answer(latest);
    }

    method LoadCosts() returns (r: Reply<seq<Cost>>)
      modifies this`failures
      ensures failures == old(failures) + if r.NoAnswer? then 1 else 0
      ensures r.Answer? ==> r.value == costs
    {
      var lost: bool := *;
      failures := failures + if lost then 1 else 0;
      return if lost then NoAnswer else Answer(costs);
    }

    method LoadTrips() returns (r: Reply<seq<Trip>>)
      modifies this`failures
      ensures failures == old(failures) + if r.NoAnswer? then 1 else 0
      ensures r.Answer? ==> r.value == trips
    {
      var lost: bool := *;
      failures := failures + if lost then 1 else 0;
      return if lost then NoAnswer else Answer(trips);
    }

    /**
     Create an open row. Refused when its id is taken or its mint held; it may
     land although no answer arrives.
     */
    method OpenTrip(trip: Trip) returns (r: Reply<()>)
      requires Valid() && IsOpen(trip) && RowChecks(trip)
      requires NoneAfter(trips, Some(trip.openedAt - 1)) && |OpenRows(trips)| < MAX_OPEN_POSITIONS
      modifies this
      ensures failures == old(failures) + if r.NoAnswer? then 1 else 0
      ensures Valid() && costs == old(costs)
      ensures || (trips == old(trips) && produced == old(produced))
              || (trips == old(trips) + [trip] && produced == old(produced) + [Key(trip.openedAt, OpenEvent, trip.id)])
      ensures r.Answer? ==> trips == old(trips) + [trip]
      ensures LateWrites.Refused(old(trips), trip) ==> r.NoAnswer? && trips == old(trips)
      ensures NoneAfter(trips, Some(trip.openedAt)) && |OpenRows(trips)| <= |old(OpenRows(trips))| + 1
      ensures r.Answer? ==> |OpenRows(trips)| == |old(OpenRows(trips))| + 1
    {
      var lands: bool := *;
      if !lands || LateWrites.Refused(trips, trip) {
        NoneAfterLater(trips, Some(trip.openedAt - 1), trip.openedAt);
        failures := failures + 1;
        return NoAnswer;
      }
      OpenKeepsRecorded(trips, costs, produced, trip);
      trips := trips + [trip];
      produced := produced + [Key(trip.openedAt, OpenEvent, trip.id)];
      var lost: bool := *;
      failures := failures + if lost then 1 else 0;
      return if lost then NoAnswer else Answer(());
    }

    method FindOpen(id: nat) returns (found: Option<nat>)
      ensures found.Some? ==>
                found.value < |trips| && trips[found.value].id == id
                && IsOpen(trips[found.value]) && !trips[found.value].stuck
      ensures found.None? ==> forall t <- trips :: t.id == id ==> !IsOpen(t) || t.stuck
    {
      for i := 0 to |trips|
        invariant forall t <- trips[..i] :: t.id == id ==> !IsOpen(t) || t.stuck
      {
        if trips[i].id == id && IsOpen(trips[i]) && !trips[i].stuck {
          return Some(i);
        }
      }
      assert trips[..|trips|] == trips;
      return None;
    }

    /** Close an open row; the answer is whether there was one. */
    method CloseTrip(id: nat, close: TripClose) returns (r: Reply<bool>)
      requires Valid() && NoneAfter(trips, Some(close.closedAt - 1))
      requires forall t <- trips | t.id == id :: RowChecks(t.(close := Some(close)))
      modifies this
      ensures failures == old(failures) + if r.NoAnswer? then 1 else 0
      ensures Valid() && costs == old(costs)
      ensures Extends(old(trips), trips) && |trips| == |old(trips)|
      ensures || (trips == old(trips) && produced == old(produced))
              || (RowClosed(old(trips), trips, id, close) && produced == old(produced) + [Key(close.closedAt, CloseEvent, id)])
      ensures r == Answer(true) ==> RowClosed(old(trips), trips, id, close)
      ensures forall t: Trip :: t.id != id ==> (t in trips <==> t in old(trips))
      ensures NoneAfter(trips, Some(close.closedAt)) && |OpenRows(trips)| <= |old(OpenRows(trips))|
      ensures r == Answer(true) ==> |OpenRows(trips)| == |old(OpenRows(trips))| - 1
      ensures r == Answer(false) ==> forall t <- old(trips) :: t.id == id ==> !IsOpen(t) || t.stuck
    {
      var lands: bool := *;
      if !lands {
        failures := failures + 1;
        return NoAnswer;
      }
      var found := FindOpen(id);
      if found.Some? {
        ghost var before := trips;
        CloseKeepsRecorded(trips, costs, produced, found.value, close);
        EventsAfterUpdate(trips, found.value, trips[found.value].(close := Some(close)));
        SameIds(trips, found.value);
        trips := trips[found.value := trips[found.value].(close := Some(close))];
        assert Rewritten(before, trips, found.value, before[found.value].(close := Some(close)));
        produced := produced + [Key(close.closedAt, CloseEvent, id)];
      }
      var lost: bool := *;
      failures := failures + if lost then 1 else 0;
      return if lost then NoAnswer else Answer(found.Some?);
    }

    /** Count a failed exit of an open row; the answer is whether it is now stuck. */
    method RecordExitFailure(id: nat, cap: nat) returns (r: Reply<Option<bool>>)
      requires Valid()
      modifies this
      ensures failures == old(failures) + if r.NoAnswer? then 1 else 0
      ensures Valid() && costs == old(costs) && produced == old(produced)
      ensures Extends(old(trips), trips) && |trips| == |old(trips)|
      ensures forall t: Trip :: t.id != id ==> (t in trips <==> t in old(trips))
      ensures forall last :: NoneAfter(old(trips), last) ==> NoneAfter(trips, last)
      ensures |OpenRows(trips)| == |old(OpenRows(trips))|
      ensures r == Answer(None) ==> forall t <- old(trips) :: t.id == id ==> !IsOpen(t) || t.stuck
      ensures trips == old(trips) || exists stuck :: RowFailed(old(trips), trips, id, cap, stuck)
      ensures r.Answer? && r.value.Some? ==> RowFailed(old(trips), trips, id, cap, r.value.value)
    {
      var lands: bool := *;
      if !lands {
        failures := failures + 1;
        return NoAnswer;
      }
      var found := FindOpen(id);
      var stuck := None;
      if found.Some? {
        ghost var before := trips;
        var trip := OnceMoreFailed(trips[found.value], cap);
        stuck := Some(trip.stuck);
        FailureKeepsRecorded(trips, costs, produced, found.value, trip);
        EventsAfterUpdate(trips, found.value, trip);
        SameIds(trips, found.value);
        trips := trips[found.value := trip];
        assert Rewritten(before, trips, found.value, OnceMoreFailed(before[found.value], cap));
        assert RowFailed(before, trips, id, cap, trip.stuck);
      }
      var lost: bool := *;
      failures := failures + if lost then 1 else 0;
      return if lost then NoAnswer else Answer(stuck);
    }

    /** A statement of an abandoned tick takes effect, between two ticks. */
    method LandLate(w: LateWrites.Write)
      requires Valid() && LateWrites.InTime(trips, w)
      modifies this
      ensures failures == old(failures)
      ensures Valid() && costs == old(costs)
      ensures trips == LateWrites.Land(old(trips), w) && Extends(old(trips), trips)
      ensures produced == LateWrites.Logged(old(produced), LateWrites.NewKeys(old(trips), w))
    {
      LateWrites.LandKeepsRecorded(trips, costs, produced, w);
      produced := LateWrites.Logged(produced, LateWrites.NewKeys(trips, w));
      trips := LateWrites.Land(trips, w);
    }

    /** One more charge on the row its day, kind and version share. */
    method AddCost(kind: CostKind, version: nat, usd: real, at: int) returns (r: Reply<()>)
      requires Valid() && usd >= 0.0
      modifies this`costs, this`failures
      ensures failures == old(failures) + if r.NoAnswer? then 1 else 0
      ensures Valid()
      ensures costs == old(costs) || Charged(old(costs), costs, kind, version, usd, at)
      ensures r.Answer? ==> Charged(old(costs), costs, kind, version, usd, at)
    {
      var lands: bool := *;
      if !lands {
        failures := failures + 1;
        return NoAnswer;
      }
      var i := 0;
      while i < |costs| && !SameCostRow(costs[i], kind, version, at)
        invariant i <= |costs|
      {
        i := i + 1;
      }
      hide Charged;
      var row := Cost(kind, (if i < |costs| then costs[i].usd else 0.0) + usd, at, version);
      RowCharged(costs, i, row, usd);
      costs := if i < |costs| then costs[i := row] else costs + [row];
      var lost: bool := *;
      failures := failures + if lost then 1 else 0;
      return if lost then NoAnswer else Answer(());
    }
  }

  lemma NothingRecorded()
    ensures Recorded([], [], [])
  {
  }

  /** No other row has the id of row `i`. */
  lemma SameIds(trips: seq<Trip>, i: nat)
    requires DistinctIds(trips) && i < |trips|
    ensures forall t <- trips :: t.id == trips[i].id ==> t == trips[i]
  {
  }

  /** Writing or adding one cost row changes only its kind's and version's total. */
  lemma CostAdded(costs: seq<Cost>, i: nat, row: Cost, kind: CostKind, version: nat)
    requires i <= |costs|
    requires i < |costs| ==> costs[i].kind == row.kind && costs[i].strategyVersion == row.strategyVersion
    ensures var after := if i < |costs| then costs[i := row] else costs + [row];
            FeesOf(kind, CostRows(after, version, true)) ==
            FeesOf(kind, CostRows(costs, version, true)) +
            if kind == row.kind && version == row.strategyVersion then
              row.usd - (if i < |costs| then costs[i].usd else 0.0)
            else 0.0
  {
    var keep := (c: Cost) => (c.strategyVersion == version) == true;
    if i < |costs| {
      CostsAround(costs, i, kind, keep);
      CostsAround(costs[i := row], i, kind, keep);
      assert costs[i := row][..i] == costs[..i] && costs[i := row][i + 1..] == costs[i + 1..];
    } else {
      FilterLast(keep, costs, row);
      FeesAppend(kind, Filter(keep, costs), [row]);
    }
  }

  lemma CostsAround(costs: seq<Cost>, i: nat, kind: CostKind, keep: Cost -> bool)
    requires i < |costs|
    ensures FeesOf(kind, Filter(keep, costs)) ==
            FeesOf(kind, Filter(keep, costs[..i])) + FeesOf(kind, Filter(keep, costs[i + 1..])) +
            if keep(costs[i]) && costs[i].kind == kind then costs[i].usd else 0.0
  {
    assert costs == costs[..i] + [costs[i]] + costs[i + 1..];
    FilterAppend(keep, costs[..i] + [costs[i]], costs[i + 1..]);
    FilterLast(keep, costs[..i], costs[i]);
    FeesAppend(kind, Filter(keep, costs[..i] + [costs[i]]), Filter(keep, costs[i + 1..]));
    FeesAppend(kind, Filter(keep, costs[..i]), [costs[i]]);
  }

  lemma ClosedIsStored(before: seq<Trip>, after: seq<Trip>, trip: Trip, close: TripClose)
    requires RowClosed(before, after, trip.id, close) && forall t <- before :: t.id == trip.id ==> t == trip
    ensures trip.(close := Some(close)) in after
  {
    var i :| 0 <= i < |before| && before[i].id == trip.id && Rewritten(before, after, i, before[i].(close := Some(close)));
    assert before[i] in before && after[i] in after;
  }

  lemma FailedIsStored(before: seq<Trip>, after: seq<Trip>, trip: Trip, cap: nat, stuck: bool)
    requires RowFailed(before, after, trip.id, cap, stuck) && forall t <- before :: t.id == trip.id ==> t == trip
    ensures trip.(exitFailures := trip.exitFailures + 1, stuck := stuck) in after
    ensures stuck <==> trip.exitFailures + 1 >= cap
  {
    var i :| 0 <= i < |before| && before[i].id == trip.id
          && Rewritten(before, after, i, OnceMoreFailed(before[i], cap)) && stuck == OnceMoreFailed(before[i], cap).stuck;
    assert before[i] in before && after[i] in after;
  }

  /** The written row is there, and every row but the one it took the place of. */
  lemma RowCharged(costs: seq<Cost>, i: nat, row: Cost, usd: real)
    requires i <= |costs| && (i < |costs| ==> SameCostRow(costs[i], row.kind, row.strategyVersion, row.at))
    requires row.usd == (if i < |costs| then costs[i].usd else 0.0) + usd
    ensures Charged(costs, if i < |costs| then costs[i := row] else costs + [row], row.kind, row.strategyVersion, usd, row.at)
  {
    var after := if i < |costs| then costs[i := row] else costs + [row];
    forall k, v
      ensures FeesOf(k, CostRows(after, v, true)) ==
              FeesOf(k, CostRows(costs, v, true)) + (if k == row.kind && v == row.strategyVersion then usd else 0.0)
    {
      CostAdded(costs, i, row, k, v);
    }
    assert after[i] == row;
    forall c <- costs | !SameCostRow(c, row.kind, row.strategyVersion, row.at) ensures c in after {
      var k :| 0 <= k < |costs| && costs[k] == c;
      assert after[k] == c;
    }
  }
}
