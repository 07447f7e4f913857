/**
 The paper trader's tick (`PaperTask::tick` in `jarvis-api/src/memecoin.rs`).

 Every database call may fail, and a write may land although the tick never
 hears of it, so a tick can stop after any write. The wall clock may return
 any time at all. Market data, strategy and dice are arbitrary.
 */
module PaperTrader {
  import opened Wrappers
  import opened Shared
  import opened Sorting
  import opened PaperLedger
  import opened Replay
  import opened History
  import opened PaperRows
  import opened PaperStore
  import LateWrites

  const CLOCK_TOLERANCE := 300 * NANOSECONDS_PER_SECOND
  const OBSERVE_COOLDOWN := 900 * NANOSECONDS_PER_SECOND
  const UNIX_EPOCH := 0
  const MAX_ENTRY_CANDIDATES_PER_TICK: nat := 5
  const EXIT_FAILURE_CAP: nat := 10

  /** Outcome of one simulated attempt. */
  datatype Fill = Filled(amountOut: real, feesUsd: real) | Failed(feesUsd: real)

  /** What every simulated attempt guarantees: fees are never negative, and a fill fills something. */
  predicate Possible(fill: Fill) {
    fill.feesUsd >= 0.0 && (fill.Filled? ==> fill.amountOut > 0.0)
  }

  datatype TickError =
    | DatabaseFailed
    | DatedAhead
    | TripNotOpen
    | DoesNotReplay

  datatype TickStats = TickStats(entries: nat, exits: nat, failedAttempts: nat, unpricedExits: nat, stuck: nat)

  /** A buy that the strategy decided on, with what the dice make of it. */
  datatype Offer = Offer(size: real, liquidityUsd: real, fill: Fill, id: nat)

  /** What a tick learned and tried, in order. */
  datatype TickEvent =
    | HistoryRead(intact: bool)
    | ExitDecided(id: nat, sell: bool, fill: Option<Fill>)
    | PauseRead(paused: bool)
    | EntryDecided(mint: string, decision: Option<Offer>)
    | BuyTried(mint: string, offer: Offer)

  /** The wall clock: any time at all, also an earlier one than before. */
  class Clock {
    ghost var readings: seq<int>

    constructor ()
      ensures readings == []
    {
      readings := [];
    }

    method Now() returns (at: int)
      modifies this
      ensures readings == old(readings) + [at]
    {
      at := *;
      readings := readings + [at];
    }
  }

  /** The clock's time, but later than every event known, and never before the epoch. */
  function StampAt(last: Option<int>, reading: int): int {
    var floor := if last.Some? then last.value + 1 else UNIX_EPOCH;
    if reading < floor then floor else reading
  }

  /** What an exit attempt makes of a row. */
  predicate AsDecided(e: TickEvent, before: Trip, after: Trip) {
    && e.ExitDecided? && e.id == before.id
    && if !e.sell then after == before
       else if e.fill.Some? && e.fill.value.Filled? then
         && after.close.Some? && after == before.(close := after.close)
         && after.close.value.usdOut == e.fill.value.amountOut
         && after.close.value.exitFeesUsd == e.fill.value.feesUsd
       else
         after == before.(exitFailures := before.exitFailures + 1, stuck := before.exitFailures + 1 >= EXIT_FAILURE_CAP)
  }

  /** No exits; every buy was for one of these mints, and right before it entries were not paused. */
  ghost predicate BuysAmong(trace: seq<TickEvent>, from: nat, mints: seq<string>) {
    && (forall i | from <= i < |trace| :: !trace[i].ExitDecided?)
    && (forall i | from <= i < |trace| && trace[i].BuyTried? ::
          i > from && trace[i - 1] == PauseRead(false) && trace[i].mint in mints)
  }

  /** The same for a single mint. */
  ghost predicate OneBuy(trace: seq<TickEvent>, from: nat, mint: string) {
    BuysAmong(trace, from, [mint])
  }

  /** The row of a filled buy. */
  function RowBought(mint: string, offer: Offer, version: nat, at: int): Trip
    requires offer.fill.Filled?
  {
    Trip(offer.id, mint, version, offer.fill.amountOut, offer.size + offer.fill.feesUsd, offer.liquidityUsd, at, 0, false, None)
  }

  /** The row is that of a filled buy. */
  predicate TriedToBuy(trace: seq<TickEvent>, from: nat, row: Trip) {
    exists i | from <= i < |trace| ::
      trace[i].BuyTried? && trace[i].offer.fill.Filled?
      && row == RowBought(trace[i].mint, trace[i].offer, row.strategyVersion, row.openedAt)
  }

  /** What follows the decision on a candidate: a look for a pause, and without one the buy. */
  function EntryEvents(mint: string, decision: Option<Offer>, paused: bool): seq<TickEvent> {
    [EntryDecided(mint, decision)] +
    if decision.None? then []
    else [PauseRead(paused)] + if paused then [] else [BuyTried(mint, decision.value)]
  }

  /** A row that was added was bought. */
  ghost predicate AddedByBuys(before: seq<Trip>, after: seq<Trip>, trace: seq<TickEvent>, from: nat) {
    forall k | |before| <= k < |after| :: TriedToBuy(trace, from, after[k])
  }

  /** These mints were observed, at times the clock showed, and no other. */
  ghost predicate SeenUpTo(before: map<string, int>, after: map<string, int>, mints: seq<string>, times: seq<int>) {
    && (forall m <- mints :: m in after && after[m] in times)
    && (forall m: string | m !in mints :: Lookup(after, m) == Lookup(before, m))
  }

  /** `a` was not observed later than `b`; a mint never observed comes first. */
  predicate ObservedEarlier(seen: map<string, int>, a: string, b: string) {
    a !in seen || (b in seen && seen[a] <= seen[b])
  }

  /** Not held, and not observed for the cooldown. */
  predicate IsDue(m: string, seen: map<string, int>, held: set<string>, now: int) {
    m !in held && (m !in seen || now - seen[m] >= OBSERVE_COOLDOWN)
  }

  /** A few due mints of the watchlist, and no other due one had waited longer for an observation. */
  ghost predicate ChosenFrom(due: seq<string>, seen: map<string, int>, watchlist: seq<string>, held: set<string>, now: int) {
    && |due| <= MAX_ENTRY_CANDIDATES_PER_TICK
    && (forall m <- due :: m in watchlist && IsDue(m, seen, held, now))
    && (forall i, j | 0 <= i < j < |due| :: due[i] != due[j] && ObservedEarlier(seen, due[i], due[j]))
    && (forall m <- watchlist | IsDue(m, seen, held, now) && m !in due ::
          |due| == MAX_ENTRY_CANDIDATES_PER_TICK && forall d <- due :: ObservedEarlier(seen, d, m))
  }

  /** The mints that were decided on as candidates, in order. */
  function DecidedMints(trace: seq<TickEvent>): seq<string> {
    if trace == [] then []
    else
      var e := trace[|trace| - 1];
      DecidedMints(trace[..|trace| - 1]) + if e.EntryDecided? then [e.mint] else []
  }

  /** A pause was seen. */
  ghost predicate PauseSeen(trace: seq<TickEvent>, from: nat) {
    exists i | from <= i < |trace| :: trace[i] == PauseRead(true)
  }

  /**
   A few due mints were chosen, and one after the other observed and decided on:
   all of them, unless the positions were full or a pause came.
   */
  ghost predicate Considered(seen: map<string, int>, after: map<string, int>, watchlist: seq<string>, held: set<string>,
                             now: int, times: seq<int>, before: seq<TickEvent>, trace: seq<TickEvent>, stopped: bool) {
    exists due, part ::
      && ChosenFrom(due, seen, watchlist, held, now) && part <= due && (part == due || stopped)
      && SeenUpTo(seen, after, part, times)
      && DecidedMints(trace) == DecidedMints(before) + part
  }

  /** Whatever was observed was observed at one of these times. */
  ghost predicate OnlyObserved(before: map<string, int>, after: map<string, int>, times: seq<int>) {
    forall m: string :: Lookup(after, m) == Lookup(before, m) || (m in after && after[m] in times)
  }

  /** The mints with an open row. */
  ghost function MintsHeld(trips: seq<Trip>): set<string> {
    set t | t in trips && IsOpen(t) :: t.mint
  }

  /** Only exits of rows that were not given up. */
  ghost predicate OnlyExits(asked: seq<TickEvent>, rows: seq<Trip>) {
    forall e <- asked :: e.ExitDecided? && exists j | 0 <= j < |rows| :: !rows[j].stuck && rows[j].id == e.id
  }

  /** Each of the first `n` rows was decided on, and became what the decision says. */
  ghost predicate AllDecided(asked: seq<TickEvent>, rows: seq<Trip>, held: seq<Trip>, n: nat) {
    && n <= |rows| == |held|
    && forall j | 0 <= j < n ::
         if rows[j].stuck then held[j] == rows[j] else exists e <- asked :: AsDecided(e, rows[j], held[j])
  }

  /** Exits come before buys, and a buy only after the history was read and a look for a pause right before it. */
  ghost predicate BoughtInOrder(trace: seq<TickEvent>, from: nat) {
    && (forall i | from <= i < |trace| && trace[i].BuyTried? ::
          i > from && trace[i - 1] == PauseRead(false) && trace[from] == HistoryRead(true))
    && (forall i, j | from <= i < j < |trace| && trace[i].BuyTried? :: !trace[j].ExitDecided?)
  }

  predicate NotHeld(trips: seq<Trip>, mint: string) {
    forall t <- trips | t.mint == mint :: !IsOpen(t)
  }

  /** The history was read, and nothing bought since. */
  ghost predicate NoBuyYet(trace: seq<TickEvent>, from: nat, intact: bool) {
    && from < |trace| && trace[from] == HistoryRead(intact)
    && (forall i | from <= i < |trace| :: !trace[i].BuyTried?)
  }

  /** What a tick did: buys in order, and every row it added was one of them, of a listed mint that was not held. */
  ghost predicate Traded(before: seq<Trip>, after: seq<Trip>, trace: seq<TickEvent>, from: nat, watchlist: seq<string>) {
    && BoughtInOrder(trace, from) && AddedByBuys(before, after, trace, from)
    && (forall k | |before| <= k < |after| :: after[k].mint in watchlist && NotHeld(before, after[k].mint))
  }

  /** A decision was made on every position that was held and not given up. */
  ghost predicate ExitsDecided(trips: seq<Trip>, trace: seq<TickEvent>, from: nat) {
    forall t <- trips | IsOpen(t) && !t.stuck ::
      exists i | from <= i < |trace| :: trace[i].ExitDecided? && trace[i].id == t.id
  }

  /** A stamp that was loaded. */
  ghost predicate IsStampOf(at: int, held: seq<Trip>, closed: Option<Trip>, costs: seq<Cost>) {
    || (exists t <- held :: t.openedAt == at)
    || (closed.Some? && closed.value.close.Some? && closed.value.close.value.closedAt == at)
    || (exists c <- costs :: c.at == at)
  }

  function Larger(a: nat, b: nat): nat {
    if a < b then b else a
  }

  // ---- The tick ------------------------------------------------------------------------------

  /** The rows a tick holds, as far as it still has to act on them. */
  ghost predicate Mirrors(held: seq<Trip>, from: nat, trips: seq<Trip>) {
    && from <= |held|
    && (forall j | from <= j < |held| :: IsOpen(held[j]) && held[j] in trips)
    && (forall i, j | 0 <= i < j < |held| :: held[i].id != held[j].id)
  }

  /** Only these mints have an open row. */
  ghost predicate OpenOnlyIn(trips: seq<Trip>, mints: set<string>) {
    forall t <- trips | IsOpen(t) :: t.mint in mints
  }

  /** Rows were kept, and no row with another id changed. */
  ghost predicate OnlyThisRow(before: seq<Trip>, after: seq<Trip>, id: nat) {
    && Extends(before, after) && |after| == |before|
    && (forall t: Trip :: t.id != id ==> (t in after <==> t in before))
  }

  /** Nothing, or one row of `mint`, was added. */
  ghost predicate Bought(before: seq<Trip>, after: seq<Trip>, mint: string) {
    after == before || (|after| == |before| + 1 && after[..|before|] == before && after[|before|].mint == mint)
  }

  class PaperTask {
    const db: PaperDatabase
    const clock: Clock
    const watchlist: seq<string>
    const maxOpenPositions: nat
    const version: nat
    /** When a mint was last observed for an entry. */
    var seen: map<string, int>
    /** Stamp of the latest event, known or produced. */
    var last: Option<int>
    ghost var trace: seq<TickEvent>

    ghost predicate Ready()
      reads this, db
    {
      && db.Valid()
      && maxOpenPositions <= MAX_OPEN_POSITIONS
      && (forall i, j | 0 <= i < j < |watchlist| :: watchlist[i] != watchlist[j])
    }

    /** A profile lists distinct mints and at most ten open positions. */
    constructor (db: PaperDatabase, clock: Clock, watchlist: seq<string>, maxOpenPositions: nat, version: nat)
      requires db.Valid() && maxOpenPositions <= MAX_OPEN_POSITIONS
      requires forall i, j | 0 <= i < j < |watchlist| :: watchlist[i] != watchlist[j]
      ensures Ready() && this.db == db
    {
      this.db, this.clock := db, clock;
      this.watchlist, this.maxOpenPositions, this.version := watchlist, maxOpenPositions, version;
      seen, last, trace := map[], None, [];
    }

    /** A stamp later than every event known, even if the clock steps back. */
    method Stamp() returns (at: int)
      modifies this`last, clock
      ensures last == Some(at)
      ensures |clock.readings| == |old(clock.readings)| + 1 && old(clock.readings) <= clock.readings
      ensures at == StampAt(old(last), clock.readings[|clock.readings| - 1])
      ensures old(last).Some? ==> old(last).value < at
    {
      var now := clock.Now();
      var floor := if last.Some? then last.value + 1 else UNIX_EPOCH;
      at := if now < floor then floor else now;
      last := Some(at);
    }

    /** The latest event among the held rows, the latest close and the costs. */
    method LatestEvent(held: seq<Trip>, closed: Option<Trip>, costs: seq<Cost>) returns (latest: Option<int>)
      requires Ready()
      requires multiset(held) == multiset(OpenRows(db.trips))
      requires closed.Some? ==> !IsOpen(closed.value)
      requires forall t <- db.trips | !IsOpen(t) ::
                 closed.Some? && t.close.value.closedAt <= closed.value.close.value.closedAt
      ensures NoneAfter(db.trips, latest)
      ensures forall c <- costs :: latest.Some? && c.at <= latest.value
      ensures latest.Some? ==> IsStampOf(latest.value, held, closed, costs)
    {
      latest := if closed.Some? then Some(closed.value.close.value.closedAt) else None;
      for i := 0 to |held|
        invariant forall t <- held[..i] :: latest.Some? && t.openedAt <= latest.value
        invariant closed.Some? ==> latest.Some? && closed.value.close.value.closedAt <= latest.value
        invariant latest.Some? ==> IsStampOf(latest.value, held, closed, costs)
      {
        assert held[i] in held;
        latest := Some(if latest.Some? && held[i].openedAt < latest.value then latest.value else held[i].openedAt);
      }
      assert held[..|held|] == held;
      for i := 0 to |costs|
        invariant forall t <- held :: latest.Some? && t.openedAt <= latest.value
        invariant closed.Some? ==> latest.Some? && closed.value.close.value.closedAt <= latest.value
        invariant forall c <- costs[..i] :: latest.Some? && c.at <= latest.value
        invariant latest.Some? ==> IsStampOf(latest.value, held, closed, costs)
      {
        assert costs[i] in costs;
        latest := Some(if latest.Some? && costs[i].at < latest.value then latest.value else costs[i].at);
      }
      assert costs[..|costs|] == costs;
      SameElements(held, OpenRows(db.trips));
      forall e | IsEventOf(e, db.trips) ensures latest.Some? && e.at <= latest.value {
        if IsOpen(e.trip) {
          assert e.trip in held;
        }
      }
    }

    /** The stored ledger, whole and for the current version. */
    method LoadHistory() returns (r: Result<Book, TickError>)
      requires Ready()
      modifies this`trace, db`failures
      ensures trace == old(trace) + [HistoryRead(r.Success?)]
      ensures r.Failure? ==> r.error == DatabaseFailed
      ensures db.failures >= old(db.failures) && (db.failures > old(db.failures) <==> r.Failure?)
      ensures r.Success? ==>
                Replayed(Rows(db.trips, version, true), CostRows(db.costs, version, true)) == Success(r.value)
    {
      var trips := db.LoadTrips();
      var costs := db.LoadCosts();
      if trips.NoAnswer? || costs.NoAnswer? {
        trace := trace + [HistoryRead(false)];
        return Failure(DatabaseFailed);
      }
      RecordedRowsReplay(db.trips, db.costs, db.produced, version);
      var all := Rebuild(trips.value, costs.value);
      var ours := Rebuild(Rows(trips.value, version, true), CostRows(costs.value, version, true));
      r := if all.Failure? || ours.Failure? then Failure(DoesNotReplay) else Success(ours.value);
      trace := trace + [HistoryRead(r.Success?)];
    }

    /** What the market and the dice make of one held position. */
    method DecideExit(trip: Trip) returns (sell: bool, fill: Option<Fill>, reason: string)
      modifies this`trace
      ensures fill.Some? ==> Possible(fill.value)
      ensures trace == old(trace) + [ExitDecided(trip.id, sell, fill)]
    {
      sell, reason := *, *;
      var filled: bool, priced: bool := *, *;
      var out: real, fees: real := *, *;
      fill := if !priced || fees < 0.0 || out <= 0.0 then None
              else if filled then Some(Filled(out, fees))
              else Some(Failed(fees));
      trace := trace + [ExitDecided(trip.id, sell, fill)];
    }

    /** Whether entries are paused right now. */
    method ReadPause() returns (paused: bool)
      modifies this`trace
      ensures trace == old(trace) + [PauseRead(paused)]
    {
      paused := *;
      trace := trace + [PauseRead(paused)];
    }

    /** What the market, the strategy and the dice make of one candidate. */
    method DecideEntry(mint: string) returns (decision: Option<Offer>)
      modifies this`trace
      ensures trace == old(trace) + [EntryDecided(mint, decision)]
      ensures decision.Some? ==> Possible(decision.value.fill) && decision.value.size > 0.0
    {
      var accepted: bool, filled: bool := *, *;
      var out: real, fees: real := *, *;
      var size: real, liquidity: real, id: nat := *, *, *;
      decision := if !accepted || fees < 0.0 || out <= 0.0 || size <= 0.0 then None
                  else if filled then Some(Offer(size, liquidity, Filled(out, fees), id))
                  else Some(Offer(size, liquidity, Failed(fees), id));
      trace := trace + [EntryDecided(mint, decision)];
    }

    /** Close the row of a sold position with its net result. */
    method CloseSold(trip: Trip, amountOut: real, feesUsd: real, reason: string, before: TickStats)
      returns (now: Trip, stats: TickStats, error: Option<TickError>)
      requires amountOut >= 0.0 && feesUsd >= 0.0
      requires Ready() && NoneAfter(db.trips, last)
      requires trip in db.trips && IsOpen(trip) && !trip.stuck
      modifies this`last, db, clock
      ensures old(clock.readings) <= clock.readings
      ensures Ready() && NoneAfter(db.trips, last)
      ensures |clock.readings| > 0 && last == Some(StampAt(old(last), clock.readings[|clock.readings| - 1]))
      ensures OnlyThisRow(old(db.trips), db.trips, trip.id) && now.id == trip.id && stats.entries == before.entries
      ensures old(db.produced) <= db.produced && |OpenRows(db.trips)| <= |old(OpenRows(db.trips))|
      ensures error.Some? ==> error.value == DatabaseFailed
      ensures db.failures >= old(db.failures) && (db.failures > old(db.failures) <==> error.Some?)
      ensures error.None? ==>
                && now in db.trips && stats.exits == before.exits + 1 && last.Some?
                && now == trip.(close := Some(
                     TripClose(last.value, amountOut, feesUsd, amountOut - feesUsd - trip.costUsd, reason)))
                && |OpenRows(db.trips)| + 1 == |old(OpenRows(db.trips))|
    {
      hide Recorded, FeesOf, OpenRows, RowClosed;
      ghost var rows := db.trips;
      RecordedRows(db.trips, db.costs, db.produced);
      SameRowById(db.trips, trip);
      var net := amountOut - feesUsd - trip.costUsd;
      var at := Stamp();
      var close := TripClose(at, amountOut, feesUsd, net, reason);
      var closed := db.CloseTrip(trip.id, close);
      error := if closed.NoAnswer? then Some(DatabaseFailed)
               else if !closed.value then Some(TripNotOpen)
               else None;
      now := trip.(close := Some(close));
      stats := before.(exits := before.exits + 1);
      if error.None? {
        ClosedIsStored(rows, db.trips, trip, close);
      }
    }

    /** Store the fee of a failed sale, if there is one, then count the failure. */
    method CountFailure(trip: Trip, feesUsd: Option<real>, before: TickStats)
      returns (now: Trip, stats: TickStats, error: Option<TickError>)
      requires feesUsd.Some? ==> feesUsd.value >= 0.0
      requires Ready() && NoneAfter(db.trips, last)
      requires trip in db.trips && IsOpen(trip) && !trip.stuck
      modifies this`last, db, clock
      ensures old(clock.readings) <= clock.readings
      ensures Ready() && NoneAfter(db.trips, last)
      ensures OnlyThisRow(old(db.trips), db.trips, trip.id) && now.id == trip.id && stats.entries == before.entries
      ensures old(db.produced) <= db.produced && |OpenRows(db.trips)| == |old(OpenRows(db.trips))|
      ensures error.Some? ==> error.value == DatabaseFailed
      ensures db.failures >= old(db.failures) && (db.failures > old(db.failures) <==> error.Some?)
      ensures error.None? ==>
                && now in db.trips && stats.exits == before.exits
                && now == trip.(exitFailures := trip.exitFailures + 1, stuck := trip.exitFailures + 1 >= EXIT_FAILURE_CAP)
                && |OpenRows(db.trips)| == |old(OpenRows(db.trips))|
      ensures feesUsd.None? ==> db.costs == old(db.costs)
      ensures feesUsd.Some? ==>
                |clock.readings| > 0 && last == Some(StampAt(old(last), clock.readings[|clock.readings| - 1]))
      ensures error.None? && feesUsd.Some? ==>
                last.Some?
                && Charged(old(db.costs), db.costs, FailedTx, trip.strategyVersion, feesUsd.value, last.value)
    {
      hide Recorded, NoneAfter, FeesOf, OpenRows, RowFailed;
      now, stats, error := trip, before, None;
      ghost var rows := db.trips;
      ExtendsItself(db.trips);
      RecordedRows(db.trips, db.costs, db.produced);
      SameRowById(db.trips, trip);
      if feesUsd.Some? {
        // Were the counter to be lost after this, the sale would only be tried again.
        var at := Stamp();
        NoneAfterLater(db.trips, old(last), at);
        var charged := db.AddCost(FailedTx, trip.strategyVersion, feesUsd.value, at);
        if charged.NoAnswer? {
          error := Some(DatabaseFailed);
          return;
        }
        stats := stats.(failedAttempts := stats.failedAttempts + 1);
      } else {
        stats := stats.(unpricedExits := stats.unpricedExits + 1);
      }
      var counted := db.RecordExitFailure(trip.id, EXIT_FAILURE_CAP);
      error := if counted.NoAnswer? then Some(DatabaseFailed)
               else if counted.value.None? then Some(TripNotOpen)
               else None;
      if error.None? {
        now := trip.(exitFailures := trip.exitFailures + 1, stuck := counted.value.value);
        FailedIsStored(rows, db.trips, trip, EXIT_FAILURE_CAP, now.stuck);
        stats := stats.(stuck := stats.stuck + if now.stuck then 1 else 0);
      }
    }

    /** Try to sell one held position: close its row, or count the failure. */
    method ExitOne(trip: Trip, before: TickStats) returns (now: Trip, stats: TickStats, error: Option<TickError>)
      requires Ready() && NoneAfter(db.trips, last)
      requires trip in db.trips && IsOpen(trip) && !trip.stuck
      modifies this`last, this`trace, db, clock
      ensures old(clock.readings) <= clock.readings
      ensures Ready() && NoneAfter(db.trips, last)
      ensures OnlyThisRow(old(db.trips), db.trips, trip.id) && now.id == trip.id && stats.entries == before.entries
      ensures |OpenRows(db.trips)| <= |old(OpenRows(db.trips))|
      ensures old(db.produced) <= db.produced
      ensures error.Some? ==> error.value == DatabaseFailed
      ensures db.failures >= old(db.failures) && (db.failures > old(db.failures) <==> error.Some?)
      ensures |trace| == |old(trace)| + 1 && old(trace) <= trace
      ensures trace[|old(trace)|].ExitDecided? && trace[|old(trace)|].id == trip.id
      ensures error.None? ==>
                && now in db.trips && AsDecided(trace[|old(trace)|], trip, now)
                && stats.exits == before.exits + (if IsOpen(now) then 0 else 1)
                && |OpenRows(db.trips)| + (if IsOpen(now) then 0 else 1) == |old(OpenRows(db.trips))|
    {
      hide Recorded, NoneAfter, OpenRows;
      now, stats, error := trip, before, None;
      ExtendsItself(db.trips);
      var sell, fill, reason := DecideExit(trip);
      if !sell {
        return;
      }
      if fill.Some? && fill.value.Filled? {
        now, stats, error := CloseSold(trip, fill.value.amountOut, fill.value.feesUsd, reason, before);
      } else {
        var fees := if fill.Some? then Some(fill.value.feesUsd) else None;
        now, stats, error := CountFailure(trip, fees, before);
      }
    }

    /** One attempt to sell each position that is held and not given up. */
    method Exits(rows: seq<Trip>) returns (held: seq<Trip>, stats: TickStats, error: Option<TickError>)
      requires Ready() && Mirrors(rows, 0, db.trips) && NoneAfter(db.trips, last)
      requires |OpenRows(rows)| == |OpenRows(db.trips)|
      modifies this`last, this`trace, db, clock
      ensures old(clock.readings) <= clock.readings
      ensures Ready() && NoneAfter(db.trips, last)
      ensures Extends(old(db.trips), db.trips) && |db.trips| == |old(db.trips)|
      ensures |OpenRows(db.trips)| <= |old(OpenRows(db.trips))|
      ensures old(db.produced) <= db.produced
      ensures error.Some? ==> error.value == DatabaseFailed
      ensures db.failures >= old(db.failures) && (db.failures > old(db.failures) <==> error.Some?)
      ensures stats.entries == 0
      ensures old(trace) <= trace && OnlyExits(trace[|old(trace)|..], rows)
      ensures error.None? ==>
                && |held| == |rows| && AllDecided(trace[|old(trace)|..], rows, held, |rows|)
                && |OpenRows(held)| == |OpenRows(db.trips)|
                && |OpenRows(db.trips)| + stats.exits == |old(OpenRows(db.trips))|
    {
      hide Recorded, NoneAfter, OpenRows, Extends, AsDecided, OnlyExits, AllDecided;
      held, stats, error := rows, TickStats(0, 0, 0, 0, 0), None;
      ExtendsItself(db.trips);
      NothingDecided(rows);
      ghost var start := |trace|;
      assert trace[start..] == [];
      for i := 0 to |held|
        invariant Ready() && NoneAfter(db.trips, last)
        invariant |held| == |rows| && Mirrors(held, i, db.trips) && forall j | i <= j < |held| :: held[j] == rows[j]
        invariant Extends(old(db.trips), db.trips) && |db.trips| == |old(db.trips)|
        invariant old(db.produced) <= db.produced
        invariant |OpenRows(held)| == |OpenRows(db.trips)| && stats.entries == 0 && error.None?
        invariant |OpenRows(db.trips)| + stats.exits == |old(OpenRows(db.trips))|
        invariant db.failures == old(db.failures)
        invariant old(clock.readings) <= clock.readings
        invariant start == |old(trace)| && old(trace) <= trace
        invariant OnlyExits(trace[start..], rows) && AllDecided(trace[start..], rows, held, i)
      {
        ghost var asked := trace[start..];
        if !held[i].stuck {
          ghost var before := db.trips;
          var now;
          now, stats, error := ExitOne(held[i], stats);
          ExtendsTransitive(old(db.trips), before, db.trips);
          assert trace[start..] == asked + [trace[start + |asked|]];
          ExitLogged(asked, rows, i, trace[start + |asked|]);
          if error.Some? {
            return;
          }
          OpenRowsUpdate(held, i, now);
          MirrorsNext(held, i, now, before, db.trips);
          DecidedNext(asked, rows, held, i, trace[start + |asked|], now);
          held := held[i := now];
        } else {
          DecidedStuck(asked, rows, held, i);
        }
      }
    }

    /** The candidates of a tick: those that waited longest for an observation. */
    method Due(heldMints: set<string>, now: int) returns (due: seq<string>)
      requires Ready()
      ensures ChosenFrom(due, seen, watchlist, heldMints, now)
    {
      var known := seen;
      var eligible := (m: string) =>
          m !in heldMints && (m !in known || now - known[m] >= OBSERVE_COOLDOWN);
      var earlier := (a: string, b: string) => ObservedEarlier(known, a, b);
      hide ChosenFrom, Filter, SortBy, Ready;
      DueIsChosen(known, watchlist, heldMints, now, eligible, earlier);
      var candidates := Filter(eligible, watchlist);
      due := AtMost(MAX_ENTRY_CANDIDATES_PER_TICK, SortBy(earlier, candidates));
    }

    /** Buy one candidate: store the position, or the cost of the failed attempt. */
    method Buy(mint: string, offer: Offer, before: TickStats) returns (stats: TickStats, error: Option<TickError>)
      requires Ready() && NoneAfter(db.trips, last)
      requires Possible(offer.fill) && offer.size > 0.0 && |OpenRows(db.trips)| < MAX_OPEN_POSITIONS
      requires NotHeld(db.trips, mint)
      modifies this`last, this`trace, db, clock
      ensures Ready() && NoneAfter(db.trips, last)
      ensures |clock.readings| > 0 && old(clock.readings) <= clock.readings
      ensures last == Some(StampAt(old(last), clock.readings[|clock.readings| - 1]))
      ensures trace == old(trace) + [BuyTried(mint, offer)] && |OpenRows(db.trips)| <= |old(OpenRows(db.trips))| + 1
      ensures old(db.produced) <= db.produced
      ensures || db.trips == old(db.trips)
              || (offer.fill.Filled? && db.trips == old(db.trips) + [RowBought(mint, offer, version, last.value)])
      ensures offer.fill.Filled? ==>
                && db.costs == old(db.costs)
                && (error.None? ==> |db.trips| == |old(db.trips)| + 1 && stats.entries == before.entries + 1)
      ensures offer.fill.Failed? && error.None? ==>
                Charged(old(db.costs), db.costs, FailedTx, version, offer.fill.feesUsd, last.value)
      ensures error.Some? ==> error.value == DatabaseFailed
      ensures db.failures >= old(db.failures) && (db.failures > old(db.failures) <==> error.Some?)
      ensures stats.exits == before.exits && stats.entries >= before.entries
      ensures error.None? ==>
                && |db.trips| == |old(db.trips)| + (stats.entries - before.entries)
                && |OpenRows(db.trips)| == |old(OpenRows(db.trips))| + (stats.entries - before.entries)
    {
      stats, error := before, None;
      trace := trace + [BuyTried(mint, offer)];
      var at := Stamp();
      if offer.fill.Filled? {
        var trip := Trip(offer.id, mint, version, offer.fill.amountOut, offer.size + offer.fill.feesUsd,
                         offer.liquidityUsd, at, 0, false, None);
        var stored := db.OpenTrip(trip);
        if stored.NoAnswer? {
          error := Some(DatabaseFailed);
        } else {
          stats := stats.(entries := stats.entries + 1);
        }
      } else {
        var charged := db.AddCost(FailedTx, version, offer.fill.feesUsd, at);
        if charged.NoAnswer? {
          error := Some(DatabaseFailed);
        } else {
          stats := stats.(failedAttempts := stats.failedAttempts + 1);
        }
      }
    }

    /** One candidate: observe it, decide, look for a pause once more, buy. */
    method EntryOne(mint: string, before: TickStats) returns (stats: TickStats, error: Option<TickError>, stop: bool)
      requires Ready() && NoneAfter(db.trips, last)
      requires |OpenRows(db.trips)| < MAX_OPEN_POSITIONS && NotHeld(db.trips, mint)
      modifies this, db, clock
      ensures Ready() && NoneAfter(db.trips, last)
      ensures old(db.produced) <= db.produced
      ensures Bought(old(db.trips), db.trips, mint) && |OpenRows(db.trips)| <= |old(OpenRows(db.trips))| + 1
      ensures old(clock.readings) < clock.readings && seen == old(seen)[mint := clock.readings[|old(clock.readings)|]]
      ensures exists decision :: trace == old(trace) + EntryEvents(mint, decision, stop)
      ensures |db.trips| > |old(db.trips)| ==> TriedToBuy(trace, |old(trace)|, db.trips[|old(db.trips)|])
      ensures error.Some? ==> error.value == DatabaseFailed
      ensures db.failures >= old(db.failures) && (db.failures > old(db.failures) <==> error.Some?)
      ensures stop ==> trace[|trace| - 1] == PauseRead(true)
      ensures error.None? ==>
                && stats.exits == before.exits && stats.entries >= before.entries
                && |db.trips| == |old(db.trips)| + (stats.entries - before.entries)
                && |OpenRows(db.trips)| == |old(OpenRows(db.trips))| + (stats.entries - before.entries)
    {
      hide Recorded, NoneAfter, OpenRows, Charged;
      stats, error, stop := before, None, false;
      var observed := clock.Now();
      seen := seen[mint := observed];
      var decision := DecideEntry(mint);
      if decision.None? {
        assert trace == old(trace) + EntryEvents(mint, decision, stop);
        return;
      }
      stop := ReadPause();
      if stop {
        assert trace == old(trace) + EntryEvents(mint, decision, stop);
        return;
      }
      stats, error := Buy(mint, decision.value, stats);
      assert trace == old(trace) + EntryEvents(mint, decision, stop);
      assert trace[|old(trace)| + 2] == BuyTried(mint, decision.value);
    }

    /**
     Entries: observe, decide, buy. A pause can come at any time and is looked
     for before every buy; no buy is made with the profile's positions full.
     */
    method Entries(due: seq<string>, openNow: nat, ghost heldMints: set<string>, before: TickStats)
      returns (stats: TickStats, error: Option<TickError>, ghost visited: nat)
      requires Ready() && NoneAfter(db.trips, last)
      requires openNow == |OpenRows(db.trips)| && OpenOnlyIn(db.trips, heldMints)
      requires forall m <- due :: m !in heldMints
      requires forall i, j | 0 <= i < j < |due| :: due[i] != due[j]
      modifies this, db, clock
      ensures Ready() && NoneAfter(db.trips, last)
      ensures Extends(old(db.trips), db.trips) && old(db.produced) <= db.produced
      ensures |OpenRows(db.trips)| <= Larger(|old(OpenRows(db.trips))|, maxOpenPositions)
      ensures old(trace) <= trace && visited <= |due|
      ensures BuysAmong(trace, |old(trace)|, due[..visited]) && AddedByBuys(old(db.trips), db.trips, trace, |old(trace)|)
      ensures |db.trips| <= |old(db.trips)| + |due|
      ensures old(clock.readings) <= clock.readings
      ensures SeenUpTo(old(seen), seen, due[..visited], clock.readings[|old(clock.readings)|..])
      ensures error.Some? ==> error.value == DatabaseFailed
      ensures db.failures >= old(db.failures) && (db.failures > old(db.failures) <==> error.Some?)
      ensures DecidedMints(trace) == DecidedMints(old(trace)) + due[..visited]
      ensures error.None? && visited < |due| ==>
                |OpenRows(db.trips)| >= maxOpenPositions || PauseSeen(trace, |old(trace)|)
      ensures error.None? ==>
                && stats.exits == before.exits
                && stats.entries >= before.entries
                && |db.trips| == |old(db.trips)| + (stats.entries - before.entries)
    {
      hide Recorded, NoneAfter, OpenRows, Extends, SeenUpTo, AddedByBuys, BuysAmong, DecidedMints, PauseSeen, Bought;
      hide OpenOnlyIn, NotHeld, EntryEvents, ChosenFrom;
      stats, error, visited := before, None, 0;
      var open := openNow;
      ExtendsItself(db.trips);
      NothingBought(db.trips, trace);
      NothingSeen(seen);
      ghost var from, start := |trace|, |clock.readings|;
      assert clock.readings[start..] == [] && due[..0] == [] && heldMints + MintsOf(due[..0]) == heldMints;
      for i := 0 to |due|
        invariant Ready() && NoneAfter(db.trips, last)
        invariant open == |OpenRows(db.trips)| <= Larger(openNow, maxOpenPositions) && error.None? && visited == i
        invariant OpenOnlyIn(db.trips, heldMints + MintsOf(due[..i]))
        invariant Extends(old(db.trips), db.trips) && old(db.produced) <= db.produced
        invariant stats.exits == before.exits && stats.entries >= before.entries
        invariant |db.trips| == |old(db.trips)| + (stats.entries - before.entries)
        invariant from == |old(trace)| && old(trace) <= trace && BuysAmong(trace, from, due[..i])
        invariant AddedByBuys(old(db.trips), db.trips, trace, from) && |db.trips| <= |old(db.trips)| + i
        invariant start == |old(clock.readings)| && old(clock.readings) <= clock.readings
        invariant SeenUpTo(old(seen), seen, due[..i], clock.readings[start..])
        invariant db.failures == old(db.failures)
        invariant DecidedMints(trace) == DecidedMints(old(trace)) + due[..i]
      {
        NextMint(due, i, heldMints);
        NotHeldYet(db.trips, heldMints + MintsOf(due[..i]), due[i]);
        assert due[..i + 1] == due[..i] + [due[i]];
        ghost var quiet := trace;
        var paused := ReadPause();
        PauseLogged(quiet, from, paused, due[..i], old(db.trips), db.trips);
        PauseDecidesNothing(quiet, paused, from);
        if paused || open >= maxOpenPositions {
          break;
        }
        ghost var rows, known, shown := db.trips, seen, clock.readings[start..];
        quiet := trace;
        var entries, stop := stats.entries, false;
        stats, error, stop := EntryOne(due[i], stats);
        EntryIsOneBuy(quiet, trace, due[i], stop);
        EntryDecides(quiet, trace, due[i], stop, from);
        visited := i + 1;
        ExtendsBought(old(db.trips), rows, db.trips, due[i]);
        EntryLogged(quiet, trace, from, due[..i], due[i], old(db.trips), rows, db.trips);
        SeenNext(old(seen), known, due[..i], due[i], shown, clock.readings[start..]);
        if error.Some? {
          return;
        }
        open := open + (stats.entries - entries);
        if stop {
          break;
        }
      }
    }

    /** Load the held rows and the latest event, and check the clock against it. */
    method Begin() returns (held: seq<Trip>, now: int, error: Option<TickError>)
      requires Ready()
      modifies this`last, clock, db`failures
      ensures old(clock.readings) <= clock.readings
      ensures error.Some? ==> error.value == DatabaseFailed || error.value == DatedAhead
      ensures db.failures >= old(db.failures) && (db.failures > old(db.failures) <==> error == Some(DatabaseFailed))
      ensures error.None? ==> multiset(held) == multiset(OpenRows(db.trips)) && NoneAfter(db.trips, last)
      ensures error != Some(DatabaseFailed) ==>
                && |clock.readings| > |old(clock.readings)| && now == clock.readings[|clock.readings| - 1]
                && (error == Some(DatedAhead) <==> last.Some? && last.value > now + CLOCK_TOLERANCE)
    {
      held, now, error := [], 0, Some(DatabaseFailed);
      var loaded := db.LoadHeld();
      var closed := db.LatestClosed();
      var costs := db.LoadCosts();
      if loaded.Answer? && closed.Answer? && costs.Answer? {
        held := loaded.value;
        last := LatestEvent(held, closed.value, costs.value);
        now := clock.Now();
        error := if last.Some? && last.value > now + CLOCK_TOLERANCE then Some(DatedAhead) else None;
      }
    }

    /** Entries with the history's consent, after the exits, and the report. */
    method Trade(held: seq<Trip>, openNow: nat, now: int, history: Result<Book, TickError>, before: TickStats,
                 ghost start: seq<Trip>, ghost from: nat)
      returns (r: Result<TickStats, TickError>)
      requires Ready() && NoneAfter(db.trips, last) && openNow == |OpenRows(db.trips)|
      requires multiset(held) == multiset(OpenRows(start)) && Extends(start, db.trips) && |start| == |db.trips|
      requires from < |trace| && NoBuyYet(trace, from, history.Success?) && (history.Failure? ==> history.error == DatabaseFailed)
      requires before.entries == 0
      modifies this, db, clock
      ensures Ready()
      ensures Extends(start, db.trips) && old(db.produced) <= db.produced
      ensures |OpenRows(db.trips)| <= Larger(|old(OpenRows(db.trips))|, maxOpenPositions)
      ensures |db.trips| <= |start| + MAX_ENTRY_CANDIDATES_PER_TICK
      ensures old(trace) <= trace && Traded(start, db.trips, trace, from, watchlist)
      ensures r.Failure? ==> r.error == DatabaseFailed
      ensures db.failures >= old(db.failures) && (db.failures > old(db.failures) || history.Failure? <==> r.Failure?)
      ensures r.Success? ==> |db.trips| == |start| + r.value.entries
      ensures old(clock.readings) <= clock.readings
      ensures OnlyObserved(old(seen), seen, clock.readings[|old(clock.readings)|..])
      ensures r.Success? ==>
                Considered(old(seen), seen, watchlist, MintsHeld(start), now, clock.readings[|old(clock.readings)|..],
                           old(trace), trace, |OpenRows(db.trips)| >= maxOpenPositions || PauseSeen(trace, |old(trace)|))
    {
      hide Recorded, NoneAfter, OpenRows, Extends, OpenOnlyIn, SeenUpTo, BuysAmong, NotHeld, AddedByBuys, Traded, NoBuyYet;
      hide ChosenFrom, Considered, OnlyObserved, PauseSeen, DecidedMints, MintsHeld, Replayed, AtMost;
      var heldMints := set t | t in held :: t.mint;
      HeldMintsAre(held, start);
      HeldMintsCover(held, start);
      OpenMintsShrink(start, db.trips, heldMints);
      var due := Due(heldMints, now);
      ChosenAreApart(due, seen, watchlist, heldMints, now);
      NoneHeld(start, heldMints, due);
      if history.Failure? {
        due := [];
      }
      ghost var afterExits, quiet := db.trips, trace;
      var after, stopped;
      ghost var visited;
      after, stopped, visited := Entries(due, openNow, heldMints, before);
      SeenIsObserved(old(seen), seen, due[..visited], clock.readings[|old(clock.readings)|..]);
      ExtendsTransitive(start, afterExits, db.trips);
      TickLogged(quiet, trace, from, history.Success?, due[..visited], start, afterExits, db.trips, watchlist);
      if stopped.Some? {
        return Failure(stopped.value);
      }
      if history.Failure? {
        return Failure(history.error);
      }
      ghost var traded := trace;
      var report := LoadHistory();
      ReportLogged(traded, from, report.Success?, start, db.trips, watchlist);
      ReadDecidesNothing(traded, report.Success?, |old(trace)|);
      DueConsidered(old(seen), seen, watchlist, heldMints, now, clock.readings[|old(clock.readings)|..], old(trace), trace,
                    |OpenRows(db.trips)| >= maxOpenPositions || PauseSeen(trace, |old(trace)|), due, visited);
      return if report.Failure? then Failure(report.error) else Success(after);
    }

    /** The exits and the entries of a tick whose held rows and latest event are loaded. */
    method Work(held: seq<Trip>, now: int) returns (r: Result<TickStats, TickError>)
      requires Ready() && NoneAfter(db.trips, last) && multiset(held) == multiset(OpenRows(db.trips))
      modifies this, db, clock
      ensures Ready()
      ensures Extends(old(db.trips), db.trips) && old(db.produced) <= db.produced
      ensures |OpenRows(db.trips)| <= Larger(|old(OpenRows(db.trips))|, maxOpenPositions)
      ensures |db.trips| <= |old(db.trips)| + MAX_ENTRY_CANDIDATES_PER_TICK
      ensures old(trace) <= trace && Traded(old(db.trips), db.trips, trace, |old(trace)|, watchlist)
      ensures r.Success? ==> ExitsDecided(old(db.trips), trace, |old(trace)|)
      ensures r.Failure? ==> r.error == DatabaseFailed
      ensures db.failures >= old(db.failures) && (db.failures > old(db.failures) <==> r.Failure?)
      ensures r.Success? ==> |db.trips| == |old(db.trips)| + r.value.entries
      ensures old(clock.readings) <= clock.readings
      ensures OnlyObserved(old(seen), seen, clock.readings[|old(clock.readings)|..])
      ensures r.Success? ==>
                Considered(old(seen), seen, watchlist, MintsHeld(old(db.trips)), now, clock.readings[|old(clock.readings)|..],
                           old(trace), trace, |OpenRows(db.trips)| >= maxOpenPositions || PauseSeen(trace, |old(trace)|))
    {
      hide SeenUpTo, ChosenFrom, Considered, OnlyObserved, PauseSeen, DecidedMints, MintsHeld;
      hide Recorded, NoneAfter, OpenRows, Extends, Mirrors, OnlyExits, AllDecided, NotHeld, AddedByBuys, Traded, NoBuyYet;
      hide ExitsDecided, BoughtInOrder;
      ghost var from, start := |trace|, db.trips;
      var history := LoadHistory();
      ReadDecidesNothing(old(trace), history.Success?, from);
      ghost var read := trace;
      NothingObserved(seen);
      RecordedRows(db.trips, db.costs, db.produced);
      HeldMirrors(held, db.trips);
      var rows, stats, failed := Exits(held);
      ExitsLogged(trace, from, history.Success?, held, start, db.trips, watchlist);
      if failed.Some? {
        return Failure(failed.value);
      }
      HeldDecided(start, held, rows, trace, from);
      ghost var quiet, shown := trace, clock.readings;
      ExitsDecideNothing(read, quiet, held);
      r := Trade(held, |OpenRows(rows)|, now, history, stats, start, from);
      WorkConsidered(old(seen), seen, watchlist, MintsHeld(start), now, |OpenRows(db.trips)| >= maxOpenPositions,
                     old(trace), quiet, trace, old(clock.readings), shown, clock.readings);
      StillDecided(start, quiet, trace, from);
    }

    /**
     One tick. Wherever it stops, the stored rows replay, nothing stored is
     taken back, and its events are stamped after everything stored before. It
     never finds an unreplayable ledger or a held trip that is not open, never
     holds more than the profile allows (or than it found), and buys only mints
     of the watchlist that were not held when it began, with the history read
     and no pause.
     */
    method Tick() returns (r: Result<TickStats, TickError>)
      requires Ready()
      modifies this, db, clock
      ensures Ready()
      ensures Extends(old(db.trips), db.trips) && old(db.produced) <= db.produced
      ensures |OpenRows(db.trips)| <= Larger(|old(OpenRows(db.trips))|, maxOpenPositions)
      ensures |db.trips| <= |old(db.trips)| + MAX_ENTRY_CANDIDATES_PER_TICK
      ensures old(trace) <= trace && Traded(old(db.trips), db.trips, trace, |old(trace)|, watchlist)
      ensures r.Success? ==> ExitsDecided(old(db.trips), trace, |old(trace)|)
      ensures r.Failure? ==> r.error == DatabaseFailed || r.error == DatedAhead
      ensures db.failures >= old(db.failures) && (db.failures > old(db.failures) <==> r == Failure(DatabaseFailed))
      ensures r.Success? ==> |db.trips| == |old(db.trips)| + r.value.entries
      ensures old(clock.readings) <= clock.readings
      ensures OnlyObserved(old(seen), seen, clock.readings[|old(clock.readings)|..])
      ensures r.Success? ==>
                exists now <- clock.readings[|old(clock.readings)|..] ::
                  Considered(old(seen), seen, watchlist, MintsHeld(old(db.trips)), now,
                             clock.readings[|old(clock.readings)|..], old(trace), trace,
                             |OpenRows(db.trips)| >= maxOpenPositions || PauseSeen(trace, |old(trace)|))
    {
      hide Recorded, NoneAfter, OpenRows, Extends, Traded, ExitsDecided, Considered, OnlyObserved, PauseSeen, MintsHeld;
      NothingObserved(seen);
      ExtendsItself(db.trips);
      NothingTraded(db.trips, trace, watchlist);
      var held, now, error := Begin();
      if error.Some? {
        return Failure(error.value);
      }
      ghost var shown := clock.readings;
      r := Work(held, now);
      TickConsidered(old(seen), seen, watchlist, MintsHeld(old(db.trips)), now, old(trace), trace,
                     |OpenRows(db.trips)| >= maxOpenPositions || PauseSeen(trace, |old(trace)|),
                     old(clock.readings), shown, clock.readings);
    }

    /** Any number of ticks, each stopping wherever it stops. */
    method Run(ticks: nat)
      requires Ready()
      modifies this, db, clock
      ensures Ready()
      ensures Extends(old(db.trips), db.trips) && old(db.produced) <= db.produced
      ensures |OpenRows(db.trips)| <= Larger(|old(OpenRows(db.trips))|, maxOpenPositions)
      ensures Replayed(db.trips, db.costs).Success? && Keys(Timeline(db.trips)) == db.produced
    {
      hide OpenRows, Recorded, Extends;
      ExtendsItself(db.trips);
      for i := 0 to ticks
        invariant Ready()
        invariant Extends(old(db.trips), db.trips) && old(db.produced) <= db.produced
        invariant |OpenRows(db.trips)| <= Larger(|old(OpenRows(db.trips))|, maxOpenPositions)
      {
        ghost var before := db.trips;
        var outcome := Tick();
        ExtendsTransitive(old(db.trips), before, db.trips);
      }
      RecordedRowsReplay(db.trips, db.costs, db.produced, version);
    }

    /**
     Ticks, and between them statements of abandoned ticks that land in time, in
     any order: every tick finds a ledger that replays, and no position is bought
     twice.
     */
    method RunWithLandings(turns: nat)
      requires Ready()
      modifies this, db, clock
      ensures Ready() && Extends(old(db.trips), db.trips)
      ensures Replayed(db.trips, db.costs).Success? && Keys(Timeline(db.trips)) == db.produced
    {
      hide Recorded, Extends, LateWrites.InTime, LateWrites.Land, LateWrites.Logged, LateWrites.NewKeys;
      ExtendsItself(db.trips);
      for i := 0 to turns
        invariant Ready() && Extends(old(db.trips), db.trips)
      {
        ghost var before := db.trips;
        ExtendsItself(before);
        var ticks: bool, w: LateWrites.Write := *, *;
        if ticks {
          var outcome := Tick();
          assert outcome.Failure? ==> outcome.error != DoesNotReplay && outcome.error != TripNotOpen;
        } else if LateWrites.InTime(db.trips, w) {
          db.LandLate(w);
        }
        ExtendsTransitive(old(db.trips), before, db.trips);
      }
      RecordedRowsReplay(db.trips, db.costs, db.produced, version);
    }
  }

  // ---- What the trace shows ---------------------------------------------------------------------

  lemma NothingDecided(rows: seq<Trip>)
    ensures OnlyExits([], rows) && AllDecided([], rows, rows, 0)
  {
  }

  lemma ExitLogged(asked: seq<TickEvent>, rows: seq<Trip>, i: nat, e: TickEvent)
    requires OnlyExits(asked, rows) && i < |rows| && !rows[i].stuck && e.ExitDecided? && e.id == rows[i].id
    ensures OnlyExits(asked + [e], rows)
  {
  }

  lemma DecidedNext(asked: seq<TickEvent>, rows: seq<Trip>, held: seq<Trip>, i: nat, e: TickEvent, now: Trip)
    requires AllDecided(asked, rows, held, i) && i < |rows| && !rows[i].stuck && AsDecided(e, rows[i], now)
    ensures AllDecided(asked + [e], rows, held[i := now], i + 1)
  {
    hide AsDecided;
    var all, after := asked + [e], held[i := now];
    assert e in all && forall x <- asked :: x in all;
    forall j | 0 <= j < i + 1 && !rows[j].stuck ensures exists x <- all :: AsDecided(x, rows[j], after[j]) {
      if j < i {
        var x :| x in asked && AsDecided(x, rows[j], held[j]);
        assert x in all;
      }
    }
  }

  lemma DecidedStuck(asked: seq<TickEvent>, rows: seq<Trip>, held: seq<Trip>, i: nat)
    requires AllDecided(asked, rows, held, i) && i < |rows| && rows[i].stuck && held[i] == rows[i]
    ensures AllDecided(asked, rows, held, i + 1)
  {
    hide AsDecided;
  }

  lemma NothingBought(trips: seq<Trip>, trace: seq<TickEvent>)
    ensures BuysAmong(trace, |trace|, []) && AddedByBuys(trips, trips, trace, |trace|) && BoughtInOrder(trace, |trace|)
  {
  }

  /** A longer trace shows what the shorter one does. */
  lemma StillTried(trace: seq<TickEvent>, e: TickEvent, from: nat, row: Trip)
    requires TriedToBuy(trace, from, row)
    ensures TriedToBuy(trace + [e], from, row)
  {
    var i :| from <= i < |trace| && trace[i].BuyTried? && trace[i].offer.fill.Filled?
          && row == RowBought(trace[i].mint, trace[i].offer, row.strategyVersion, row.openedAt);
    assert (trace + [e])[i] == trace[i];
  }

  lemma PauseLogged(trace: seq<TickEvent>, from: nat, paused: bool, mints: seq<string>, before: seq<Trip>, after: seq<Trip>)
    requires from <= |trace| && BuysAmong(trace, from, mints) && AddedByBuys(before, after, trace, from)
    ensures BuysAmong(trace + [PauseRead(paused)], from, mints)
    ensures AddedByBuys(before, after, trace + [PauseRead(paused)], from)
  {
    forall k | |before| <= k < |after| ensures TriedToBuy(trace + [PauseRead(paused)], from, after[k]) {
      StillTried(trace, PauseRead(paused), from, after[k]);
    }
  }

  lemma EntryLogged(trace: seq<TickEvent>, later: seq<TickEvent>, from: nat, mints: seq<string>, mint: string,
                    before: seq<Trip>, rows: seq<Trip>, after: seq<Trip>)
    requires from <= |trace| && trace <= later && OneBuy(later, |trace|, mint)
    requires BuysAmong(trace, from, mints) && AddedByBuys(before, rows, trace, from) && |before| <= |rows|
    requires Bought(rows, after, mint) && (|after| > |rows| ==> TriedToBuy(later, |trace|, after[|rows|]))
    ensures BuysAmong(later, from, mints + [mint]) && AddedByBuys(before, after, later, from)
  {
    assert forall i | 0 <= i < |trace| :: later[i] == trace[i];
    forall k | |before| <= k < |after| ensures TriedToBuy(later, from, after[k]) {
      if k < |rows| {
        assert after[k] == rows[k];
        var i :| from <= i < |trace| && trace[i].BuyTried? && trace[i].offer.fill.Filled?
              && rows[k] == RowBought(trace[i].mint, trace[i].offer, rows[k].strategyVersion, rows[k].openedAt);
        assert later[i] == trace[i];
      } else {
        var i :| |trace| <= i < |later| && later[i].BuyTried? && later[i].offer.fill.Filled?
              && after[k] == RowBought(later[i].mint, later[i].offer, after[k].strategyVersion, after[k].openedAt);
      }
    }
  }

  lemma EntryIsOneBuy(trace: seq<TickEvent>, later: seq<TickEvent>, mint: string, stop: bool)
    requires exists decision :: later == trace + EntryEvents(mint, decision, stop)
    ensures trace <= later && OneBuy(later, |trace|, mint)
  {
    var decision :| later == trace + EntryEvents(mint, decision, stop);
    var events := EntryEvents(mint, decision, stop);
    assert forall i | |trace| <= i < |later| :: later[i] == events[i - |trace|];
  }

  lemma DecidedAppend(trace: seq<TickEvent>, e: TickEvent)
    ensures DecidedMints(trace + [e]) == DecidedMints(trace) + if e.EntryDecided? then [e.mint] else []
  {
    assert (trace + [e])[..|trace|] == trace;
  }

  lemma PauseDecidesNothing(trace: seq<TickEvent>, paused: bool, from: nat)
    requires from <= |trace|
    ensures DecidedMints(trace + [PauseRead(paused)]) == DecidedMints(trace)
    ensures paused ==> PauseSeen(trace + [PauseRead(paused)], from)
  {
    DecidedAppend(trace, PauseRead(paused));
    assert (trace + [PauseRead(paused)])[|trace|] == PauseRead(paused);
  }

  lemma EntryDecides(trace: seq<TickEvent>, later: seq<TickEvent>, mint: string, stop: bool, from: nat)
    requires exists decision :: later == trace + EntryEvents(mint, decision, stop)
    requires from <= |trace| && (stop ==> later != [] && later[|later| - 1] == PauseRead(true))
    ensures DecidedMints(later) == DecidedMints(trace) + [mint]
    ensures |later| > |trace| && (stop ==> PauseSeen(later, from))
  {
    var decision :| later == trace + EntryEvents(mint, decision, stop);
    var decided := trace + [EntryDecided(mint, decision)];
    DecidedAppend(trace, EntryDecided(mint, decision));
    if decision.None? {
      assert later == decided;
    } else {
      var looked := decided + [PauseRead(stop)];
      DecidedAppend(decided, PauseRead(stop));
      if stop {
        assert later == looked;
        assert later[|later| - 1] == PauseRead(true);
      } else {
        assert later == looked + [BuyTried(mint, decision.value)];
        DecidedAppend(looked, BuyTried(mint, decision.value));
      }
    }
  }

  lemma {:induction false} ExitsDecideNothing(trace: seq<TickEvent>, later: seq<TickEvent>, rows: seq<Trip>)
    requires trace <= later && OnlyExits(later[|trace|..], rows)
    ensures DecidedMints(later) == DecidedMints(trace)
    decreases |later|
  {
    if |later| > |trace| {
      var last := |later| - 1;
      assert later[|trace|..][last - |trace|] == later[last];
      assert later[last] in later[|trace|..];
      forall e <- later[..last][|trace|..] ensures e in later[|trace|..] {
      }
      ExitsDecideNothing(trace, later[..last], rows);
    } else {
      assert later == trace;
    }
  }

  lemma ReadDecidesNothing(trace: seq<TickEvent>, intact: bool, from: nat)
    ensures DecidedMints(trace + [HistoryRead(intact)]) == DecidedMints(trace)
    ensures PauseSeen(trace, from) ==> PauseSeen(trace + [HistoryRead(intact)], from)
  {
    DecidedAppend(trace, HistoryRead(intact));
    if PauseSeen(trace, from) {
      var i :| from <= i < |trace| && trace[i] == PauseRead(true);
      assert (trace + [HistoryRead(intact)])[i] == PauseRead(true);
    }
  }

  lemma PauseSeenFrom(trace: seq<TickEvent>, from: nat, start: nat)
    requires start <= from && PauseSeen(trace, from)
    ensures PauseSeen(trace, start)
  {
  }

  /** The chosen mints were considered as far as `visited`. */
  lemma DueConsidered(seen: map<string, int>, after: map<string, int>, watchlist: seq<string>, held: set<string>, now: int,
                      times: seq<int>, before: seq<TickEvent>, trace: seq<TickEvent>, stopped: bool,
                      due: seq<string>, visited: nat)
    requires ChosenFrom(due, seen, watchlist, held, now) && visited <= |due| && (visited == |due| || stopped)
    requires SeenUpTo(seen, after, due[..visited], times) && DecidedMints(trace) == DecidedMints(before) + due[..visited]
    ensures Considered(seen, after, watchlist, held, now, times, before, trace, stopped)
  {
    assert due[..|due|] == due;
  }

  lemma ConsideredWithin(seen: map<string, int>, after: map<string, int>, watchlist: seq<string>, held: set<string>, now: int,
                         times: seq<int>, longer: seq<int>, before: seq<TickEvent>, trace: seq<TickEvent>, stopped: bool)
    requires Considered(seen, after, watchlist, held, now, times, before, trace, stopped)
    requires forall t <- times :: t in longer
    ensures Considered(seen, after, watchlist, held, now, longer, before, trace, stopped)
  {
    var due, part :|
      && ChosenFrom(due, seen, watchlist, held, now) && part <= due && (part == due || stopped)
      && SeenUpTo(seen, after, part, times)
      && DecidedMints(trace) == DecidedMints(before) + part;
    hide ChosenFrom;
    forall m <- part ensures m in after && after[m] in longer {
      var t := after[m];
      assert t in times;
    }
    assert SeenUpTo(seen, after, part, longer);
  }

  lemma SeenIsObserved(before: map<string, int>, after: map<string, int>, mints: seq<string>, times: seq<int>)
    requires SeenUpTo(before, after, mints, times)
    ensures OnlyObserved(before, after, times)
  {
  }

  lemma ObservedWithin(before: map<string, int>, after: map<string, int>, times: seq<int>, longer: seq<int>)
    requires OnlyObserved(before, after, times) && forall t <- times :: t in longer
    ensures OnlyObserved(before, after, longer)
  {
    forall m: string | m in after && after[m] in times ensures after[m] in longer {
      var t := after[m];
      assert t in times;
    }
  }

  lemma NothingObserved(seen: map<string, int>)
    ensures OnlyObserved(seen, seen, [])
    ensures forall times: seq<int> :: OnlyObserved(seen, seen, times)
  {
  }

  lemma ChosenAreApart(due: seq<string>, seen: map<string, int>, watchlist: seq<string>, held: set<string>, now: int)
    requires ChosenFrom(due, seen, watchlist, held, now)
    ensures |due| <= MAX_ENTRY_CANDIDATES_PER_TICK && forall m <- due :: m in watchlist && m !in held
    ensures forall i, j | 0 <= i < j < |due| :: due[i] != due[j]
  {
  }

  lemma PartOf(first: seq<int>, from: seq<int>, to: seq<int>)
    requires first <= from <= to
    ensures forall t <- to[|from|..] :: t in to[|first|..]
  {
    forall t <- to[|from|..] ensures t in to[|first|..] {
      var k :| 0 <= k < |to[|from|..]| && to[|from|..][k] == t;
      assert to[|first|..][k + |from| - |first|] == t;
    }
  }

  lemma WorkConsidered(seen: map<string, int>, after: map<string, int>, watchlist: seq<string>, held: set<string>, now: int,
                       full: bool, before: seq<TickEvent>, quiet: seq<TickEvent>, trace: seq<TickEvent>,
                       first: seq<int>, shown: seq<int>, times: seq<int>)
    requires first <= shown <= times && before <= quiet && DecidedMints(before) == DecidedMints(quiet)
    ensures OnlyObserved(seen, after, times[|shown|..]) ==> OnlyObserved(seen, after, times[|first|..])
    ensures Considered(seen, after, watchlist, held, now, times[|shown|..], quiet, trace,
                       full || PauseSeen(trace, |quiet|)) ==>
              Considered(seen, after, watchlist, held, now, times[|first|..], before, trace,
                         full || PauseSeen(trace, |before|))
  {
    PartOf(first, shown, times);
    if OnlyObserved(seen, after, times[|shown|..]) {
      ObservedWithin(seen, after, times[|shown|..], times[|first|..]);
    }
    if PauseSeen(trace, |quiet|) {
      PauseSeenFrom(trace, |quiet|, |before|);
    }
    var stopped := full || PauseSeen(trace, |quiet|);
    if Considered(seen, after, watchlist, held, now, times[|shown|..], quiet, trace, stopped) {
      ConsideredWithin(seen, after, watchlist, held, now, times[|shown|..], times[|first|..], quiet, trace, stopped);
      hide ChosenFrom, SeenUpTo, PauseSeen, DecidedMints;
      assert Considered(seen, after, watchlist, held, now, times[|first|..], before, trace, stopped);
    }
  }

  lemma TickConsidered(seen: map<string, int>, after: map<string, int>, watchlist: seq<string>, held: set<string>, now: int,
                       before: seq<TickEvent>, trace: seq<TickEvent>, stopped: bool,
                       first: seq<int>, shown: seq<int>, times: seq<int>)
    requires first < shown <= times && shown[|shown| - 1] == now
    ensures now in times[|first|..]
    ensures OnlyObserved(seen, after, times[|shown|..]) ==> OnlyObserved(seen, after, times[|first|..])
    ensures Considered(seen, after, watchlist, held, now, times[|shown|..], before, trace, stopped) ==>
              Considered(seen, after, watchlist, held, now, times[|first|..], before, trace, stopped)
  {
    hide Considered, OnlyObserved;
    PartOf(first, shown, times);
    assert times[|first|..][|shown| - 1 - |first|] == now;
    if OnlyObserved(seen, after, times[|shown|..]) {
      ObservedWithin(seen, after, times[|shown|..], times[|first|..]);
    }
    if Considered(seen, after, watchlist, held, now, times[|shown|..], before, trace, stopped) {
      ConsideredWithin(seen, after, watchlist, held, now, times[|shown|..], times[|first|..], before, trace, stopped);
    }
  }

  lemma HeldMintsAre(held: seq<Trip>, trips: seq<Trip>)
    requires multiset(held) == multiset(OpenRows(trips))
    ensures (set t | t in held :: t.mint) == MintsHeld(trips)
  {
    SameElements(held, OpenRows(trips));
  }

  lemma NotHeldYet(trips: seq<Trip>, mints: set<string>, mint: string)
    requires OpenOnlyIn(trips, mints) && mint !in mints
    ensures NotHeld(trips, mint)
  {
  }

  lemma NothingSeen(seen: map<string, int>)
    ensures SeenUpTo(seen, seen, [], [])
  {
  }

  lemma SeenNext(before: map<string, int>, known: map<string, int>, mints: seq<string>, mint: string,
                 times: seq<int>, later: seq<int>)
    requires SeenUpTo(before, known, mints, times) && times < later
    ensures SeenUpTo(before, known[mint := later[|times|]], mints + [mint], later)
  {
  }

  lemma NothingTraded(trips: seq<Trip>, trace: seq<TickEvent>, watchlist: seq<string>)
    ensures Traded(trips, trips, trace, |trace|, watchlist)
  {
  }

  /** The exits of a tick buy nothing. */
  lemma ExitsLogged(trace: seq<TickEvent>, from: nat, intact: bool, held: seq<Trip>, before: seq<Trip>, after: seq<Trip>,
                    watchlist: seq<string>)
    requires from < |trace| && trace[from] == HistoryRead(intact)
    requires OnlyExits(trace[from + 1..], held) && |before| == |after|
    ensures Traded(before, after, trace, from, watchlist) && NoBuyYet(trace, from, intact)
  {
    var asked := trace[from + 1..];
    forall i | from <= i < |trace| ensures !trace[i].BuyTried? {
      if i > from {
        assert trace[i] == asked[i - from - 1] && asked[i - from - 1] in asked;
      }
    }
  }

  lemma HeldDecided(trips: seq<Trip>, held: seq<Trip>, rows: seq<Trip>, trace: seq<TickEvent>, from: nat)
    requires multiset(held) == multiset(OpenRows(trips)) && from < |trace|
    requires AllDecided(trace[from + 1..], held, rows, |held|)
    ensures ExitsDecided(trips, trace, from)
  {
    SameElements(held, OpenRows(trips));
    var asked := trace[from + 1..];
    forall t <- trips | IsOpen(t) && !t.stuck ensures exists i | from <= i < |trace| :: trace[i].ExitDecided? && trace[i].id == t.id {
      assert t in held;
      var j :| 0 <= j < |held| && held[j] == t;
      var e :| e in asked && AsDecided(e, held[j], rows[j]);
      var k :| 0 <= k < |asked| && asked[k] == e;
      assert trace[from + 1 + k] == e;
    }
  }

  lemma StillDecided(trips: seq<Trip>, trace: seq<TickEvent>, later: seq<TickEvent>, from: nat)
    requires ExitsDecided(trips, trace, from) && trace <= later
    ensures ExitsDecided(trips, later, from)
  {
    forall t <- trips | IsOpen(t) && !t.stuck ensures exists i | from <= i < |later| :: later[i].ExitDecided? && later[i].id == t.id {
      var i :| from <= i < |trace| && trace[i].ExitDecided? && trace[i].id == t.id;
      assert later[i] == trace[i];
    }
  }

  lemma NoneHeld(trips: seq<Trip>, mints: set<string>, due: seq<string>)
    requires OpenOnlyIn(trips, mints) && forall m <- due :: m !in mints
    ensures forall m <- due :: NotHeld(trips, m)
  {
  }

  /** The entries of a tick, after its exits. */
  lemma TickLogged(quiet: seq<TickEvent>, trace: seq<TickEvent>, from: nat, intact: bool, mints: seq<string>,
                   start: seq<Trip>, before: seq<Trip>, after: seq<Trip>, watchlist: seq<string>)
    requires quiet <= trace && NoBuyYet(quiet, from, intact) && (intact || mints == [])
    requires BuysAmong(trace, |quiet|, mints) && AddedByBuys(before, after, trace, |quiet|) && |start| == |before|
    requires forall m <- mints :: m in watchlist && NotHeld(start, m)
    ensures Traded(start, after, trace, from, watchlist)
  {
    hide NotHeld;
    assert forall i | from <= i < |quiet| :: trace[i] == quiet[i];
    forall k | |start| <= k < |after| ensures TriedToBuy(trace, from, after[k]) && after[k].mint in mints {
      assert TriedToBuy(trace, |quiet|, after[k]);
      var i :| |quiet| <= i < |trace| && trace[i].BuyTried? && trace[i].offer.fill.Filled?
            && after[k] == RowBought(trace[i].mint, trace[i].offer, after[k].strategyVersion, after[k].openedAt);
    }
  }

  /** Reading the history once more, for the report. */
  lemma ReportLogged(trace: seq<TickEvent>, from: nat, intact: bool, before: seq<Trip>, after: seq<Trip>, watchlist: seq<string>)
    requires from < |trace| && Traded(before, after, trace, from, watchlist)
    ensures Traded(before, after, trace + [HistoryRead(intact)], from, watchlist)
  {
    var all := trace + [HistoryRead(intact)];
    assert forall i | 0 <= i < |trace| :: all[i] == trace[i];
    forall k | |before| <= k < |after| ensures TriedToBuy(all, from, after[k]) {
      StillTried(trace, HistoryRead(intact), from, after[k]);
    }
  }

  // ---- Bookkeeping for the tick's proof -----------------------------------------------------

  /** The first few of a list of all due mints that is sorted by their observation. */
  lemma FirstAreChosen(seen: map<string, int>, watchlist: seq<string>, held: set<string>, now: int, sorted: seq<string>)
    requires forall m: string :: m in sorted <==> m in watchlist && IsDue(m, seen, held, now)
    requires forall i, j | 0 <= i < j < |sorted| :: sorted[i] != sorted[j]
    requires forall i, j | 0 <= i < j < |sorted| :: ObservedEarlier(seen, sorted[i], sorted[j])
    ensures ChosenFrom(AtMost(MAX_ENTRY_CANDIDATES_PER_TICK, sorted), seen, watchlist, held, now)
  {
    hide IsDue, ObservedEarlier;
    var due := AtMost(MAX_ENTRY_CANDIDATES_PER_TICK, sorted);
    assert due <= sorted;
    forall m <- due ensures m in sorted {
    }
    forall k: nat | k < |due| ensures sorted[k] in due {
      assert due[k] == sorted[k];
    }
    forall m: string, d: string | m in sorted && m !in due && d in due ensures ObservedEarlier(seen, d, m) {
      var i :| 0 <= i < |due| && due[i] == d;
      var j :| 0 <= j < |sorted| && sorted[j] == m;
      assert due[i] == sorted[i];
    }
  }

  lemma DueIsChosen(seen: map<string, int>, watchlist: seq<string>, held: set<string>, now: int,
                    eligible: string -> bool, earlier: (string, string) -> bool)
    requires forall m: string :: eligible(m) <==> IsDue(m, seen, held, now)
    requires forall a: string, b: string :: earlier(a, b) <==> ObservedEarlier(seen, a, b)
    requires Total(earlier)
    requires forall i, j | 0 <= i < j < |watchlist| :: watchlist[i] != watchlist[j]
    ensures ChosenFrom(AtMost(MAX_ENTRY_CANDIDATES_PER_TICK, SortBy(earlier, Filter(eligible, watchlist))),
                       seen, watchlist, held, now)
  {
    hide IsDue, ObservedEarlier, Filter, SortBy, Sorted, Total, ChosenFrom;
    var candidates := Filter(eligible, watchlist);
    FilterDistinct(eligible, watchlist);
    SortByDistinct(earlier, candidates);
    SortBySorted(earlier, candidates);
    var sorted := SortBy(earlier, candidates);
    SameElements(sorted, candidates);
    SortedPairs(earlier, sorted);
    FirstAreChosen(seen, watchlist, held, now, sorted);
  }

  lemma SortedPairs(leq: (string, string) -> bool, s: seq<string>)
    requires Sorted(leq, s)
    ensures forall i, j | 0 <= i < j < |s| :: leq(s[i], s[j])
  {
  }

  lemma ExtendsBought(a: seq<Trip>, b: seq<Trip>, c: seq<Trip>, mint: string)
    requires Extends(a, b) && Bought(b, c, mint)
    ensures Extends(a, c) && |c| <= |b| + 1
    ensures forall mints :: OpenOnlyIn(b, mints) ==> OpenOnlyIn(c, mints + {mint})
  {
  }

  function MintsOf(mints: seq<string>): set<string> {
    set m | m in mints
  }

  lemma NextMint(due: seq<string>, i: nat, mints: set<string>)
    requires i < |due| && due[i] !in mints
    requires forall i, j | 0 <= i < j < |due| :: due[i] != due[j]
    ensures due[i] !in mints + MintsOf(due[..i])
    ensures mints + MintsOf(due[..i + 1]) == mints + MintsOf(due[..i]) + {due[i]}
  {
    assert due[..i + 1] == due[..i] + [due[i]];
  }

  lemma SameRowById(trips: seq<Trip>, trip: Trip)
    requires DistinctIds(trips) && trip in trips
    ensures forall t <- trips :: t.id == trip.id ==> t == trip
  {
    forall t <- trips | t.id == trip.id ensures t == trip {
      SameIdSameRow(trips, t, trip);
    }
  }

  lemma HeldMirrors(held: seq<Trip>, trips: seq<Trip>)
    requires DistinctIds(trips) && multiset(held) == multiset(OpenRows(trips))
    ensures Mirrors(held, 0, trips) && |OpenRows(held)| == |OpenRows(trips)|
  {
    SameElements(held, OpenRows(trips));
    FilterIds(unclosed, trips);
    forall i, j | 0 <= i < j < |held| ensures held[i].id != held[j].id {
      assert held[i] in OpenRows(trips) && held[j] in OpenRows(trips);
      if held[i].id == held[j].id {
        SameIdSameRow(OpenRows(trips), held[i], held[j]);
        TwiceInMultiset(held, i, j);
        DistinctIdsOnce(OpenRows(trips), held[i]);
      }
    }
    FilterAll(held);
  }

  lemma DistinctIdsOnce(trips: seq<Trip>, trip: Trip)
    requires DistinctIds(trips) && trip in trips
    ensures multiset(trips)[trip] == 1
  {
    OnceInMultiset(trips);
  }

  lemma {:induction false} FilterAll(held: seq<Trip>)
    requires forall t <- held :: IsOpen(t)
    ensures OpenRows(held) == held
  {
    if held != [] {
      FilterAll(held[1..]);
    }
  }

  lemma MirrorsNext(held: seq<Trip>, i: nat, now: Trip, before: seq<Trip>, after: seq<Trip>)
    requires i < |held| && Mirrors(held, i, before) && now.id == held[i].id
    requires forall t: Trip :: t.id != now.id ==> (t in before <==> t in after)
    ensures Mirrors(held[i := now], i + 1, after)
  {
  }

  lemma HeldMintsCover(held: seq<Trip>, trips: seq<Trip>)
    requires multiset(held) == multiset(OpenRows(trips))
    ensures OpenOnlyIn(trips, set t | t in held :: t.mint)
  {
    SameElements(held, OpenRows(trips));
    forall t <- trips | IsOpen(t) ensures t.mint in (set t | t in held :: t.mint) {
      assert t in held;
    }
  }

  lemma OpenMintsShrink(before: seq<Trip>, after: seq<Trip>, mints: set<string>)
    requires OpenOnlyIn(before, mints) && Extends(before, after) && |before| == |after|
    ensures OpenOnlyIn(after, mints)
  {
    forall t <- after | IsOpen(t) ensures t.mint in mints {
      var i :| 0 <= i < |after| && after[i] == t;
      assert SameTrip(before[i], after[i]) && before[i] in before;
    }
  }

  lemma {:induction false} FilterDistinct<T(!new)>(keep: T -> bool, s: seq<T>)
    requires forall i, j | 0 <= i < j < |s| :: s[i] != s[j]
    ensures forall i, j | 0 <= i < j < |Filter(keep, s)| :: Filter(keep, s)[i] != Filter(keep, s)[j]
  {
    if s != [] {
      FilterDistinct(keep, s[1..]);
      var rest := Filter(keep, s[1..]);
      forall k | 0 <= k < |rest| ensures rest[k] != s[0] {
        assert rest[k] in s[1..];
        var m :| 0 <= m < |s[1..]| && s[1..][m] == rest[k];
        assert s[m + 1] == rest[k];
      }
    }
  }

  lemma SortByDistinct<T(!new)>(leq: (T, T) -> bool, s: seq<T>)
    requires forall i, j | 0 <= i < j < |s| :: s[i] != s[j]
    ensures forall i, j | 0 <= i < j < |SortBy(leq, s)| :: SortBy(leq, s)[i] != SortBy(leq, s)[j]
  {
    var r := SortBy(leq, s);
    OnceInMultiset(s);
    SameElements(r, s);
    forall i, j | 0 <= i < j < |r| ensures r[i] != r[j] {
      assert r[i] in s;
      if r[i] == r[j] {
        TwiceInMultiset(r, i, j);
      }
    }
  }
}
