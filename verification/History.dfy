/**
 What `Replay` promises about whole histories: which ones replay, that the
 order of the stored rows does not matter, and that the history of one
 strategy version stands on its own.
 */
module History {
  import opened Wrappers
  import opened Sorting
  import opened PaperLedger
  import opened Replay

  ghost predicate DistinctIds(trips: seq<Trip>) {
    forall i, j | 0 <= i < j < |trips| :: trips[i].id != trips[j].id
  }

  /** `a` was over when `b` began. */
  predicate Precedes(a: Trip, b: Trip) {
    a.close.Some? && a.close.value.closedAt <= b.openedAt
  }

  /** Rows of one table, each closed after it was opened, with one open trip per mint at any time. */
  ghost predicate OneTripPerMint(trips: seq<Trip>) {
    && DistinctIds(trips)
    && (forall t <- trips :: t.close.Some? ==> t.openedAt < t.close.value.closedAt)
    && (forall a, b | a in trips && b in trips && a != b && a.mint == b.mint :: Precedes(a, b) || Precedes(b, a))
  }

  /** Amounts a ledger accepts, and a stored result that is the trip's own arithmetic. */
  predicate RowChecks(trip: Trip) {
    && trip.tokens > 0.0
    && trip.costUsd >= 0.0
    && (trip.close.Some? ==>
          && trip.close.value.usdOut >= 0.0
          && trip.close.value.exitFeesUsd >= 0.0
          && trip.close.value.netPnlUsd == trip.close.value.usdOut - trip.close.value.exitFeesUsd - trip.costUsd)
  }

  // ---- The timeline -------------------------------------------------------------

  ghost predicate IsEventOf(e: Event, trips: seq<Trip>) {
    e.trip in trips && e in EventsOf(e.trip)
  }

  /** The events of `trips`, each once, in strict key order. */
  ghost predicate Chronicle(events: seq<Event>, trips: seq<Trip>) {
    && (forall e :: e in events <==> IsEventOf(e, trips))
    && (forall i, j | 0 <= i < j < |events| :: NotAfter(events[i], events[j]) && events[i] != events[j])
  }

  lemma SameIdSameRow(trips: seq<Trip>, a: Trip, b: Trip)
    requires DistinctIds(trips) && a in trips && b in trips && a.id == b.id
    ensures a == b
  {
    var i :| 0 <= i < |trips| && trips[i] == a;
    var j :| 0 <= j < |trips| && trips[j] == b;
    assert i == j;
  }

  lemma {:induction false} EventsMembers(trips: seq<Trip>)
    ensures forall e :: e in Events(trips) <==> IsEventOf(e, trips)
  {
    if trips != [] {
      var last := |trips| - 1;
      EventsMembers(trips[..last]);
      assert trips == trips[..last] + [trips[last]];
      forall e ensures e in Events(trips) <==> IsEventOf(e, trips) {
        assert e in EventsOf(trips[last]) ==> e.trip == trips[last];
        assert e.trip in trips <==> e.trip in trips[..last] || e.trip == trips[last];
      }
    }
  }

  lemma {:induction false} EventsOnce(trips: seq<Trip>)
    requires DistinctIds(trips)
    ensures forall i, j | 0 <= i < j < |Events(trips)| :: Events(trips)[i] != Events(trips)[j]
  {
    if trips != [] {
      var last := |trips| - 1;
      EventsOnce(trips[..last]);
      EventsMembers(trips[..last]);
      var old', new' := Events(trips[..last]), EventsOf(trips[last]);
      forall i, j | 0 <= i < j < |Events(trips)| ensures Events(trips)[i] != Events(trips)[j] {
        if i < |old'| <= j {
          assert old'[i] in old' && IsEventOf(old'[i], trips[..last]);
          assert new'[j - |old'|].trip == trips[last];
          var k :| 0 <= k < last && trips[..last][k] == old'[i].trip;
          assert trips[k].id != trips[last].id;
        } else if j < |old'| {
          assert old'[i] != old'[j];
        }
      }
    }
  }

  lemma KeyIsTotal()
    ensures Total(byKey)
  {
  }

  lemma KeyDistinguishes(trips: seq<Trip>)
    requires DistinctIds(trips)
    ensures Distinguishes(byKey, Events(trips))
  {
    EventsMembers(trips);
    forall x, y | x in Events(trips) && y in Events(trips) && byKey(x, y) && byKey(y, x) ensures x == y {
      assert IsEventOf(x, trips) && IsEventOf(y, trips);
      SameIdSameRow(trips, x.trip, y.trip);
    }
  }

  lemma OnceInMultiset<T>(s: seq<T>)
    requires forall i, j | 0 <= i < j < |s| :: s[i] != s[j]
    ensures forall x <- s :: multiset(s)[x] == 1
  {
    forall x <- s ensures multiset(s)[x] == 1 {
      var k :| 0 <= k < |s| && s[k] == x;
      assert s == s[..k] + [x] + s[k + 1..];
      assert x !in multiset(s[..k]) && x !in multiset(s[k + 1..]);
    }
  }

  lemma TwiceInMultiset<T>(s: seq<T>, i: nat, j: nat)
    requires i < j < |s| && s[i] == s[j]
    ensures multiset(s)[s[i]] >= 2
  {
    assert s == s[..i] + [s[i]] + s[i + 1..j] + [s[j]] + s[j + 1..];
  }

  lemma TimelineIsChronicle(trips: seq<Trip>)
    requires DistinctIds(trips)
    ensures Chronicle(Timeline(trips), trips)
  {
    var events := Timeline(trips);
    KeyIsTotal();
    SortBySorted(byKey, Events(trips));
    SameElements(events, Events(trips));
    EventsMembers(trips);
    EventsOnce(trips);
    OnceInMultiset(Events(trips));
    forall i, j | 0 <= i < j < |events| ensures NotAfter(events[i], events[j]) && events[i] != events[j] {
      assert byKey(events[i], events[j]);
      assert events[i] in Events(trips);
      if events[i] == events[j] {
        TwiceInMultiset(events, i, j);
      }
    }
  }

  // ---- Replaying one event of a chronicle -----------------------------------------

  function OpenOf(trip: Trip): Event {
    Event(trip.openedAt, OpenEvent, trip)
  }

  function CloseOf(trip: Trip): Event
    requires trip.close.Some?
  {
    Event(trip.close.value.closedAt, CloseEvent, trip)
  }

  /** The trip is open after the first `k` events. */
  ghost predicate HeldAt(events: seq<Event>, k: nat, trip: Trip)
    requires k <= |events|
  {
    OpenOf(trip) in events[..k] && (trip.close.Some? ==> CloseOf(trip) !in events[..k])
  }

  /** One lot for each open trip, at most one per mint. */
  ghost predicate LotsAt(events: seq<Event>, k: nat, lots: seq<Position>)
    requires k <= |events|
  {
    && (forall lot <- lots :: exists trip :: HeldAt(events, k, trip) && lot == PositionOf(trip))
    && (forall trip :: HeldAt(events, k, trip) ==> PositionOf(trip) in lots)
    && (forall a, b | 0 <= a < b < |lots| :: lots[a].mint != lots[b].mint)
  }

  predicate EventChecks(e: Event) {
    match e.kind
    case OpenEvent => e.trip.tokens > 0.0 && e.trip.costUsd >= 0.0
    case CloseEvent =>
      e.trip.close.Some?
      && e.trip.close.value.usdOut >= 0.0
      && e.trip.close.value.exitFeesUsd >= 0.0
      && e.trip.close.value.netPnlUsd == e.trip.close.value.usdOut - e.trip.close.value.exitFeesUsd - e.trip.costUsd
  }

  /** The completed round trip a close event stands for. */
  function Completed(e: Event): seq<ClosedTrade> {
    if e.kind.CloseEvent? && e.trip.close.Some? then
      [ClosedTrade(e.trip.mint, e.trip.openedAt, e.trip.close.value.closedAt, e.trip.close.value.netPnlUsd)]
    else []
  }

  lemma {:induction false} HeldSingle(lots: seq<Position>, p: nat)
    requires Sound(lots) && p < |lots|
    requires forall a, b | 0 <= a < b < |lots| :: lots[a].mint != lots[b].mint
    ensures Held(lots, lots[p].mint) == lots[p].tokens
  {
    if p == 0 {
      HeldNone(lots[1..], lots[0].mint);
    } else {
      assert lots[1..][p - 1] == lots[p];
      HeldSingle(lots[1..], p - 1);
    }
  }

  lemma {:induction false} HeldNone(lots: seq<Position>, mint: string)
    requires forall lot <- lots :: lot.mint != mint
    ensures Held(lots, mint) == 0.0
  {
    if lots != [] {
      HeldNone(lots[1..], mint);
    }
  }

  lemma {:induction false} RemainingAll(lots: seq<Position>)
    requires Sound(lots)
    ensures Remaining(lots) == lots
  {
    if lots != [] {
      RemainingAll(lots[1..]);
    }
  }

  /** Selling the whole of the only lot of a mint takes that lot out. */
  lemma {:induction false} ConsumeSingle(lots: seq<Position>, p: nat)
    requires Sound(lots) && p < |lots|
    requires forall a, b | 0 <= a < b < |lots| :: lots[a].mint != lots[b].mint
    ensures var sale := Consume(lots, lots[p].mint, lots[p].tokens);
            && Remaining(sale.lots) == lots[..p] + lots[p + 1..]
            && sale.cost == lots[p].costUsd
            && sale.oldest == Some(lots[p].openedAt)
  {
    if p == 0 {
      assert Consume(lots[1..], lots[0].mint, 0.0) == Sale(lots[1..], 0.0, None);
      RemainingAll(lots[1..]);
      var sale := Consume(lots, lots[0].mint, lots[0].tokens);
      assert sale.lots[1..] == lots[1..];
      assert lots[..0] + lots[1..] == lots[1..];
    } else {
      assert lots[1..][p - 1] == lots[p];
      ConsumeSingle(lots[1..], p - 1);
      var rest := Consume(lots[1..], lots[p].mint, lots[p].tokens);
      var sale := Consume(lots, lots[p].mint, lots[p].tokens);
      assert sale.lots[0] == lots[0] && sale.lots[1..] == rest.lots;
      assert [lots[0]] + (lots[1..][..p - 1] + lots[1..][p..]) == lots[..p] + lots[p + 1..];
    }
  }

  lemma EarlierNotAfter(trips: seq<Trip>, events: seq<Event>, k: nat)
    requires Chronicle(events, trips) && k < |events|
    ensures forall x <- events[..k] :: NotAfter(x, events[k]) && x != events[k]
  {
    forall x <- events[..k] ensures NotAfter(x, events[k]) && x != events[k] {
      var i :| 0 <= i < k && events[..k][i] == x;
      assert events[i] == x;
    }
  }

  /** An event that must come before the `k`-th one is among the first `k`. */
  lemma AmongEarlier(trips: seq<Trip>, events: seq<Event>, k: nat, e: Event)
    requires Chronicle(events, trips) && k < |events| && IsEventOf(e, trips) && !NotAfter(events[k], e)
    ensures e in events[..k]
  {
    var i :| 0 <= i < |events| && events[i] == e;
    assert NotAfter(events[k], events[k]);
    assert i < k;
    assert events[..k][i] == e;
  }

  /** At its close event a trip is open; at its open event no trip of its mint is. */
  lemma TripAtEvent(trips: seq<Trip>, events: seq<Event>, k: nat)
    requires OneTripPerMint(trips) && Chronicle(events, trips) && k < |events|
    ensures events[k].kind.CloseEvent? ==> events[k].trip.close.Some? && events[k] == CloseOf(events[k].trip)
                                           && HeldAt(events, k, events[k].trip)
    ensures events[k].kind.OpenEvent? ==>
              events[k] == OpenOf(events[k].trip)
              && forall other | HeldAt(events, k, other) :: other.mint != events[k].trip.mint
  {
    var e := events[k];
    assert e in events && IsEventOf(e, trips);
    EarlierNotAfter(trips, events, k);
    if e.kind.CloseEvent? {
      assert IsEventOf(OpenOf(e.trip), trips);
      AmongEarlier(trips, events, k, OpenOf(e.trip));
    } else {
      forall other | HeldAt(events, k, other) ensures other.mint != e.trip.mint {
        OpenTripsOfOtherMints(trips, events, k, other);
      }
    }
  }

  lemma OpenTripsOfOtherMints(trips: seq<Trip>, events: seq<Event>, k: nat, other: Trip)
    requires OneTripPerMint(trips) && Chronicle(events, trips) && k < |events|
    requires HeldAt(events, k, other) && events[k] == OpenOf(events[k].trip)
    ensures other.mint != events[k].trip.mint
  {
    EarlierNotAfter(trips, events, k);
    var i :| 0 <= i < k && events[..k][i] == OpenOf(other);
    assert events[i] in events && IsEventOf(OpenOf(other), trips);
    assert events[k] in events && IsEventOf(events[k], trips);
    if Precedes(other, events[k].trip) {
      assert IsEventOf(CloseOf(other), trips);
      AmongEarlier(trips, events, k, CloseOf(other));
    }
  }

  lemma HeldNext(events: seq<Event>, k: nat, trip: Trip)
    requires k < |events|
    ensures HeldAt(events, k + 1, trip) <==>
            && (HeldAt(events, k, trip) || (events[k] == OpenOf(trip) && (trip.close.Some? ==> CloseOf(trip) !in events[..k])))
            && (trip.close.Some? ==> events[k] != CloseOf(trip))
  {
    assert events[..k + 1] == events[..k] + [events[k]];
  }

  lemma OpenNext(trips: seq<Trip>, events: seq<Event>, k: nat, lots: seq<Position>)
    requires OneTripPerMint(trips) && Chronicle(events, trips) && k < |events| && events[k].kind.OpenEvent?
    requires LotsAt(events, k, lots)
    ensures LotsAt(events, k + 1, lots + [PositionOf(events[k].trip)])
  {
    TripAtEvent(trips, events, k);
    var e := events[k];
    var after := lots + [PositionOf(e.trip)];
    assert e in events && IsEventOf(e, trips);
    EarlierNotAfter(trips, events, k);
    HeldNext(events, k, e.trip);
    assert HeldAt(events, k + 1, e.trip);
    forall lot <- after ensures exists trip :: HeldAt(events, k + 1, trip) && lot == PositionOf(trip) {
      if lot in lots {
        var trip :| HeldAt(events, k, trip) && lot == PositionOf(trip);
        HeldNext(events, k, trip);
      }
    }
    forall trip | HeldAt(events, k + 1, trip) ensures PositionOf(trip) in after {
      HeldNext(events, k, trip);
    }
    forall a, b | 0 <= a < b < |after| ensures after[a].mint != after[b].mint {
      if b == |lots| {
        assert lots[a] in lots;
        var trip :| HeldAt(events, k, trip) && lots[a] == PositionOf(trip);
      }
    }
  }

  lemma CloseNext(events: seq<Event>, k: nat, lots: seq<Position>, p: nat)
    requires k < |events| && LotsAt(events, k, lots) && p < |lots|
    requires events[k].trip.close.Some? && events[k] == CloseOf(events[k].trip)
    requires HeldAt(events, k, events[k].trip) && lots[p] == PositionOf(events[k].trip)
    requires forall trip | HeldAt(events, k, trip) && trip.mint == events[k].trip.mint :: trip == events[k].trip
    ensures LotsAt(events, k + 1, lots[..p] + lots[p + 1..])
  {
    var after := lots[..p] + lots[p + 1..];
    forall lot <- after ensures exists trip :: HeldAt(events, k + 1, trip) && lot == PositionOf(trip) {
      var a :| 0 <= a < |after| && after[a] == lot;
      var b := if a < p then a else a + 1;
      assert lots[b] == lot && b != p && lot in lots;
      var trip :| HeldAt(events, k, trip) && lot == PositionOf(trip);
      assert lots[b].mint != lots[p].mint;
      HeldNext(events, k, trip);
    }
    forall trip | HeldAt(events, k + 1, trip) ensures PositionOf(trip) in after {
      HeldNext(events, k, trip);
      assert trip != events[k].trip && trip.mint != events[k].trip.mint;
      var b :| 0 <= b < |lots| && lots[b] == PositionOf(trip);
      assert b != p;
      assert after[if b < p then b else b - 1] == lots[b];
    }
  }

  /** Two open trips never share a mint. */
  lemma HeldUnique(trips: seq<Trip>, events: seq<Event>, k: nat, a: Trip, b: Trip)
    requires OneTripPerMint(trips) && Chronicle(events, trips) && k <= |events|
    requires HeldAt(events, k, a) && HeldAt(events, k, b) && a.mint == b.mint
    ensures a == b
  {
    var i :| 0 <= i < k && events[..k][i] == OpenOf(a);
    var j :| 0 <= j < k && events[..k][j] == OpenOf(b);
    assert events[i] in events && events[j] in events;
    assert IsEventOf(events[i], trips) && IsEventOf(events[j], trips);
    if a != b {
      if i < j {
        TripAtEvent(trips, events, j);
        HeldEarlier(trips, events, i, j, k, a);
      } else {
        assert i != j;
        TripAtEvent(trips, events, i);
        HeldEarlier(trips, events, j, i, k, b);
      }
    }
  }

  lemma HeldEarlier(trips: seq<Trip>, events: seq<Event>, i: nat, j: nat, k: nat, trip: Trip)
    requires i < j <= k <= |events| && events[i] == OpenOf(trip) && HeldAt(events, k, trip)
    ensures HeldAt(events, j, trip)
  {
    assert events[..j][i] == OpenOf(trip);
    forall e | e in events[..j] ensures e in events[..k] {
      var m :| 0 <= m < j && events[..j][m] == e;
      assert events[..k][m] == e;
    }
  }

  ghost predicate Follows(events: seq<Event>, k: nat, book: Book)
    requires k <= |events|
  {
    && Sound(book.lots)
    && LotsAt(events, k, book.lots)
    && book.openTrips == map[]
    && book.lastEventAt == (if k == 0 then None else Some(events[k - 1].at))
  }

  /** Replaying the sale of the whole, only lot of a mint. */
  lemma SellWhole(book: Book, p: nat, e: Event)
    requires Sound(book.lots) && p < |book.lots| && book.openTrips == map[]
    requires forall a, b | 0 <= a < b < |book.lots| :: book.lots[a].mint != book.lots[b].mint
    requires e.kind.CloseEvent? && e.trip.close.Some? && book.lots[p] == PositionOf(e.trip)
    requires InOrder(book.lastEventAt, e.trip.close.value.closedAt)
    ensures Play1(book, e).Success? <==> EventChecks(e)
    ensures EventChecks(e) ==>
              Play1(book, e).value ==
              book.(lots := book.lots[..p] + book.lots[p + 1..],
                    lastEventAt := Some(e.trip.close.value.closedAt),
                    closed := book.closed + Completed(e))
  {
    HeldSingle(book.lots, p);
    ConsumeSingle(book.lots, p);
    var rest := book.lots[..p] + book.lots[p + 1..];
    assert !HoldsMint(rest, e.trip.mint);
    assert book.openTrips - {e.trip.mint} == map[];
  }

  /** One event of a chronicle replays exactly when its row checks. */
  lemma PlayNext(trips: seq<Trip>, events: seq<Event>, k: nat, book: Book)
    requires OneTripPerMint(trips) && Chronicle(events, trips) && k < |events|
    requires Follows(events, k, book)
    ensures Play1(book, events[k]).Success? <==> EventChecks(events[k])
    ensures EventChecks(events[k]) ==>
              var after := Play1(book, events[k]).value;
              && Follows(events, k + 1, after)
              && after.closed == book.closed + Completed(events[k])
              && after.failedTxFeesUsd == book.failedTxFeesUsd && after.aiCostUsd == book.aiCostUsd
  {
    var e := events[k];
    TripAtEvent(trips, events, k);
    if k > 0 {
      assert NotAfter(events[k - 1], events[k]);
    }
    if e.kind.OpenEvent? {
      OpenNext(trips, events, k, book.lots);
    } else {
      var p :| 0 <= p < |book.lots| && book.lots[p] == PositionOf(e.trip);
      SellWhole(book, p, e);
      forall trip | HeldAt(events, k, trip) && trip.mint == e.trip.mint ensures trip == e.trip {
        HeldUnique(trips, events, k, trip, e.trip);
      }
      CloseNext(events, k, book.lots, p);
    }
  }

  function CompletedAll(events: seq<Event>): seq<ClosedTrade> {
    if events == [] then [] else CompletedAll(events[..|events| - 1]) + Completed(events[|events| - 1])
  }

  /** One more event, unless the replay has failed. */
  function PlayOn(r: Result<Book, ReplayError>, e: Event): Result<Book, ReplayError>
    requires r.Success? ==> Sound(r.value.lots)
  {
    if r.Success? then Play1(r.value, e) else r
  }

  lemma PlayUnfold(events: seq<Event>, k: nat)
    requires k < |events|
    ensures Play(events[..k + 1]) == PlayOn(Play(events[..k]), events[k])
    ensures CompletedAll(events[..k + 1]) == CompletedAll(events[..k]) + Completed(events[k])
  {
    assert events[..k + 1][..k] == events[..k];
  }

  ghost predicate AllCheck(events: seq<Event>, k: nat)
    requires k <= |events|
  {
    forall i | 0 <= i < k :: EventChecks(events[i])
  }

  /** The outcome of replaying the first `k` events. */
  ghost predicate PlaysTo(events: seq<Event>, k: nat, closed: seq<ClosedTrade>, r: Result<Book, ReplayError>)
    requires k <= |events|
  {
    && (r.Success? <==> AllCheck(events, k))
    && (r.Success? ==>
          && Follows(events, k, r.value) && r.value.closed == closed
          && r.value.failedTxFeesUsd == 0.0 && r.value.aiCostUsd == 0.0)
  }

  lemma PlaysOn(trips: seq<Trip>, events: seq<Event>, k: nat, closed: seq<ClosedTrade>, r: Result<Book, ReplayError>,
                closed': seq<ClosedTrade>, r': Result<Book, ReplayError>)
    requires OneTripPerMint(trips) && Chronicle(events, trips) && k < |events| && PlaysTo(events, k, closed, r)
    requires r.Success? ==> Sound(r.value.lots)
    requires closed' == closed + Completed(events[k]) && r' == PlayOn(r, events[k])
    ensures PlaysTo(events, k + 1, closed', r')
  {
    assert AllCheck(events, k + 1) <==> AllCheck(events, k) && EventChecks(events[k]);
    if r.Success? {
      PlayNext(trips, events, k, r.value);
    }
  }

  lemma PlaysNothing(events: seq<Event>)
    ensures PlaysTo(events, 0, CompletedAll([]), Play([]))
  {
  }

  lemma {:induction false} PlayPrefix(trips: seq<Trip>, events: seq<Event>, k: nat)
    requires OneTripPerMint(trips) && Chronicle(events, trips) && k <= |events|
    ensures PlaysTo(events, k, CompletedAll(events[..k]), Play(events[..k]))
  {
    hide Play, CompletedAll, PlaysTo, PlayOn, Chronicle, OneTripPerMint;
    if k == 0 {
      PlaysNothing(events);
      assert events[..0] == [];
    } else {
      PlayPrefix(trips, events, k - 1);
      PlayUnfold(events, k - 1);
      PlaysOn(trips, events, k - 1, CompletedAll(events[..k - 1]), Play(events[..k - 1]),
              CompletedAll(events[..k]), Play(events[..k]));
    }
  }

  // ---- Which histories replay -------------------------------------------------------

  function FeesOf(kind: CostKind, costs: seq<Cost>): real {
    if costs == [] then 0.0
    else FeesOf(kind, costs[..|costs| - 1]) +
         if costs[|costs| - 1].kind == kind then costs[|costs| - 1].usd else 0.0
  }

  lemma {:induction false} ChargeAll(book: Book, costs: seq<Cost>)
    ensures Charge(book, costs).Success? <==> forall c <- costs :: c.usd >= 0.0
    ensures Charge(book, costs).Success? ==>
              Charge(book, costs).value ==
              book.(failedTxFeesUsd := book.failedTxFeesUsd + FeesOf(FailedTx, costs),
                    aiCostUsd := book.aiCostUsd + FeesOf(AiCost, costs))
    ensures Charge(book, costs).Failure? ==> Charge(book, costs) == Failure(LedgerRefused(InvalidAmount))
  {
    if costs != [] {
      var last := |costs| - 1;
      ChargeAll(book, costs[..last]);
      assert costs == costs[..last] + [costs[last]];
    }
  }

  /** After the last event, what is held is what was never closed. */
  lemma LotsAtTheEnd(trips: seq<Trip>, events: seq<Event>, book: Book)
    requires Chronicle(events, trips) && Follows(events, |events|, book)
    ensures forall t <- trips :: t.close.None? ==> PositionOf(t) in book.lots
    ensures forall lot <- book.lots :: exists t <- trips :: t.close.None? && lot == PositionOf(t)
  {
    forall t <- trips | t.close.None? ensures PositionOf(t) in book.lots {
      assert IsEventOf(OpenOf(t), trips);
      assert HeldAt(events, |events|, t);
    }
    forall lot <- book.lots ensures exists t <- trips :: t.close.None? && lot == PositionOf(t) {
      var t :| HeldAt(events, |events|, t) && lot == PositionOf(t);
      assert IsEventOf(OpenOf(t), trips);
      assert t.close.Some? ==> IsEventOf(CloseOf(t), trips);
    }
  }

  lemma RowsCheckWhenEventsDo(trips: seq<Trip>, events: seq<Event>)
    requires Chronicle(events, trips)
    ensures (forall i | 0 <= i < |events| :: EventChecks(events[i])) <==> (forall t <- trips :: RowChecks(t))
  {
    if forall i | 0 <= i < |events| :: EventChecks(events[i]) {
      forall t <- trips ensures RowChecks(t) {
        assert IsEventOf(OpenOf(t), trips);
        assert OpenOf(t) in events && EventChecks(OpenOf(t));
        if t.close.Some? {
          assert IsEventOf(CloseOf(t), trips);
          assert CloseOf(t) in events && EventChecks(CloseOf(t));
        }
      }
    }
    if forall t <- trips :: RowChecks(t) {
      forall i | 0 <= i < |events| ensures EventChecks(events[i]) {
        assert events[i] in events && IsEventOf(events[i], trips);
      }
    }
  }

  /**
   A history with one open trip per mint replays exactly when every row's
   amounts and stored result check and no cost is negative. The rebuilt ledger
   then holds one lot per open trip, every stored result in closing order, no
   round trip half sold, and the costs in full.
   */
  lemma ReplaysExactlyWhenRowsCheck(trips: seq<Trip>, costs: seq<Cost>)
    requires OneTripPerMint(trips)
    ensures Replayed(trips, costs).Success? <==>
            (forall t <- trips :: RowChecks(t)) && (forall c <- costs :: c.usd >= 0.0)
    ensures Replayed(trips, costs).Success? ==>
              var book := Replayed(trips, costs).value;
              && book.closed == CompletedAll(Timeline(trips))
              && book.openTrips == map[]
              && (forall t <- trips :: t.close.None? ==> PositionOf(t) in book.lots)
              && (forall lot <- book.lots :: exists t <- trips :: t.close.None? && lot == PositionOf(t))
              && book.failedTxFeesUsd == FeesOf(FailedTx, costs)
              && book.aiCostUsd == FeesOf(AiCost, costs)
  {
    var events := Timeline(trips);
    TimelineIsChronicle(trips);
    PlayPrefix(trips, events, |events|);
    assert events[..|events|] == events;
    RowsCheckWhenEventsDo(trips, events);
    if Play(events).Success? {
      var book := Play(events).value;
      ChargeAll(book, costs);
      LotsAtTheEnd(trips, events, book);
    }
  }

  // ---- The order of the rows ------------------------------------------------------------

  lemma {:induction false} EventsAppend(a: seq<Trip>, b: seq<Trip>)
    ensures Events(a + b) == Events(a) + Events(b)
  {
    if b == [] {
      assert a + b == a;
    } else {
      assert (a + b)[..|a + b| - 1] == a + b[..|b| - 1];
      EventsAppend(a, b[..|b| - 1]);
    }
  }

  lemma CutAt<T>(s: seq<T>, k: nat)
    requires k < |s|
    ensures s == s[..k] + [s[k]] + s[k + 1..]
    ensures k == |s| - 1 ==> s == s[..k] + [s[k]]
  {
  }

  lemma Inserted<T>(rest: seq<T>, before: seq<T>, part: seq<T>, after: seq<T>)
    requires multiset(rest) == multiset(before + after)
    ensures multiset(rest + part) == multiset(before + part + after)
  {
  }

  /** Putting a row back adds the same events, wherever it goes. */
  lemma EventsPutBack(a: seq<Trip>, rest: seq<Trip>, b: seq<Trip>, before: seq<Trip>, after: seq<Trip>, trip: Trip)
    requires a == rest + [trip] && b == before + [trip] + after
    requires multiset(Events(rest)) == multiset(Events(before + after))
    ensures multiset(Events(a)) == multiset(Events(b))
  {
    EventsLast(rest, trip);
    EventsAppend(before + [trip], after);
    EventsLast(before, trip);
    EventsAppend(before, after);
    Inserted(Events(rest), Events(before), EventsOf(trip), Events(after));
  }

  lemma {:induction false} EventsPermutation(a: seq<Trip>, b: seq<Trip>)
    requires multiset(a) == multiset(b)
    ensures multiset(Events(a)) == multiset(Events(b))
    decreases |a|
  {
    if a == [] {
      SameElements(a, b);
    } else {
      var k := TakeOut(a, b);
      CutAt(a, |a| - 1);
      CutAt(b, k);
      EventsPermutation(a[..|a| - 1], b[..k] + b[k + 1..]);
      EventsPutBack(a, a[..|a| - 1], b, b[..k], b[k + 1..], b[k]);
    }
  }

  lemma {:induction false} FeesAppend(kind: CostKind, a: seq<Cost>, b: seq<Cost>)
    ensures FeesOf(kind, a + b) == FeesOf(kind, a) + FeesOf(kind, b)
  {
    if b == [] {
      assert a + b == a;
    } else {
      assert (a + b)[..|a + b| - 1] == a + b[..|b| - 1];
      FeesAppend(kind, a, b[..|b| - 1]);
    }
  }

  lemma FeesAround(kind: CostKind, costs: seq<Cost>, k: nat)
    requires k < |costs|
    ensures FeesOf(kind, costs) ==
            FeesOf(kind, costs[..k] + costs[k + 1..]) + if costs[k].kind == kind then costs[k].usd else 0.0
  {
    assert costs == costs[..k + 1] + costs[k + 1..] && costs[..k + 1][..k] == costs[..k];
    FeesAppend(kind, costs[..k + 1], costs[k + 1..]);
    FeesAppend(kind, costs[..k], costs[k + 1..]);
  }

  lemma {:induction false} FeesPermutation(kind: CostKind, a: seq<Cost>, b: seq<Cost>)
    requires multiset(a) == multiset(b)
    ensures FeesOf(kind, a) == FeesOf(kind, b)
    decreases |a|
  {
    if a == [] {
      SameElements(a, b);
    } else {
      var k := TakeOut(a, b);
      FeesPermutation(kind, a[..|a| - 1], b[..k] + b[k + 1..]);
      FeesAround(kind, b, k);
    }
  }

  lemma ChargePermutation(book: Book, a: seq<Cost>, b: seq<Cost>)
    requires multiset(a) == multiset(b)
    ensures Charge(book, a) == Charge(book, b)
  {
    SameElements(a, b);
    ChargeAll(book, a);
    ChargeAll(book, b);
    FeesPermutation(FailedTx, a, b);
    FeesPermutation(AiCost, a, b);
  }

  lemma TimelinePermutation(trips: seq<Trip>, trips': seq<Trip>)
    requires DistinctIds(trips) && multiset(trips) == multiset(trips')
    ensures Timeline(trips) == Timeline(trips')
  {
    EventsPermutation(trips, trips');
    KeyIsTotal();
    KeyDistinguishes(trips);
    SortByPermutation(byKey, Events(trips), Events(trips'));
  }

  /** Whatever the rows say, replaying them does not depend on their order, errors included. */
  lemma ReplayIgnoresRowOrder(trips: seq<Trip>, trips': seq<Trip>, costs: seq<Cost>, costs': seq<Cost>)
    requires DistinctIds(trips)
    requires multiset(trips) == multiset(trips') && multiset(costs) == multiset(costs')
    ensures Replayed(trips, costs) == Replayed(trips', costs')
  {
    TimelinePermutation(trips, trips');
    var played := Play(Timeline(trips));
    if played.Success? {
      ChargePermutation(played.value, costs, costs');
    }
  }

  // ---- One strategy version ---------------------------------------------------------------

  /** The rows of one version, and the rows of all others. */
  function Rows(trips: seq<Trip>, version: nat, mine: bool): seq<Trip> {
    Filter((t: Trip) => (t.strategyVersion == version) == mine, trips)
  }

  function CostRows(costs: seq<Cost>, version: nat, mine: bool): seq<Cost> {
    Filter((c: Cost) => (c.strategyVersion == version) == mine, costs)
  }

  lemma {:induction false} FilterIds(keep: Trip -> bool, trips: seq<Trip>)
    requires DistinctIds(trips)
    ensures DistinctIds(Filter(keep, trips))
  {
    if trips != [] {
      FilterIds(keep, trips[1..]);
      var rest := Filter(keep, trips[1..]);
      forall k | 0 <= k < |rest| ensures rest[k].id != trips[0].id {
        assert rest[k] in trips[1..];
        var m :| 0 <= m < |trips[1..]| && trips[1..][m] == rest[k];
        assert trips[m + 1] == rest[k];
      }
    }
  }

  lemma {:induction false} FilterAppend<T(!new)>(keep: T -> bool, a: seq<T>, b: seq<T>)
    ensures Filter(keep, a + b) == Filter(keep, a) + Filter(keep, b)
  {
    if a == [] {
      assert a + b == b;
    } else {
      assert (a + b)[1..] == a[1..] + b;
      FilterAppend(keep, a[1..], b);
    }
  }

  lemma EventsLast(trips: seq<Trip>, trip: Trip)
    ensures Events(trips + [trip]) == Events(trips) + EventsOf(trip)
  {
    assert (trips + [trip])[..|trips|] == trips;
  }

  lemma RowEventsFilter(keep: Trip -> bool, trip: Trip)
    ensures Filter((e: Event) => keep(e.trip), EventsOf(trip)) == if keep(trip) then EventsOf(trip) else []
  {
    var events := EventsOf(trip);
    assert events[1..] == if trip.close.Some? then [Event(trip.close.value.closedAt, CloseEvent, trip)] else [];
  }

  lemma {:induction false} EventsFilter(keep: Trip -> bool, trips: seq<Trip>)
    ensures Events(Filter(keep, trips)) == Filter((e: Event) => keep(e.trip), Events(trips))
  {
    if trips != [] {
      hide Events, EventsOf;
      var rest, trip := trips[..|trips| - 1], trips[|trips| - 1];
      var keepEvent := (e: Event) => keep(e.trip);
      EventsFilter(keep, rest);
      assert trips == rest + [trip];
      hide Filter;
      FilterLast(keep, rest, trip);
      EventsLast(rest, trip);
      EventsLast(Filter(keep, rest), trip);
      FilterAppend(keepEvent, Events(rest), EventsOf(trip));
      RowEventsFilter(keep, trip);
      assert Filter(keepEvent, Events(rest)) + [] == Filter(keepEvent, Events(rest));
      assert Filter(keep, rest) + [] == Filter(keep, rest);
    }
  }

  function NetOf(events: seq<Event>): real {
    ClosedNet(CompletedAll(events))
  }

  lemma {:induction false} NetSplits(keep: Event -> bool, drop: Event -> bool, events: seq<Event>)
    requires forall e <- events :: drop(e) == !keep(e)
    ensures NetOf(events) == NetOf(Filter(keep, events)) + NetOf(Filter(drop, events))
  {
    if events != [] {
      var rest, e := events[..|events| - 1], events[|events| - 1];
      NetSplits(keep, drop, rest);
      assert events == rest + [e];
      NetLast(rest, e);
      FilterLast(keep, rest, e);
      FilterLast(drop, rest, e);
      NetLast(if keep(e) then Filter(keep, rest) else Filter(drop, rest), e);
    }
  }

  lemma FilterLast<T(!new)>(keep: T -> bool, s: seq<T>, x: T)
    ensures Filter(keep, s + [x]) == if keep(x) then Filter(keep, s) + [x] else Filter(keep, s)
  {
    FilterAppend(keep, s, [x]);
    assert Filter(keep, [x]) == if keep(x) then [x] else [];
    assert Filter(keep, s) + [] == Filter(keep, s);
  }

  lemma NetLast(events: seq<Event>, e: Event)
    ensures NetOf(events + [e]) == NetOf(events) + ClosedNet(Completed(e))
  {
    assert (events + [e])[..|events|] == events;
    var done := CompletedAll(events);
    if Completed(e) == [] {
      assert done + [] == done;
    } else {
      assert (done + Completed(e))[..|done|] == done;
      assert Completed(e)[..0] == [];
    }
  }

  lemma {:induction false} FeesSplit(kind: CostKind, costs: seq<Cost>, version: nat)
    ensures FeesOf(kind, costs) == FeesOf(kind, CostRows(costs, version, true)) + FeesOf(kind, CostRows(costs, version, false))
  {
    if costs != [] {
      assert costs == [costs[0]] + costs[1..];
      FeesAppend(kind, [costs[0]], costs[1..]);
      FeesSplit(kind, costs[1..], version);
      var mine, others := CostRows(costs[1..], version, true), CostRows(costs[1..], version, false);
      FeesAppend(kind, [costs[0]], mine);
      FeesAppend(kind, [costs[0]], others);
    }
  }

  /**
   A history that replays still replays when cut down to one strategy version:
   its completed trips are that version's part of the whole timeline, and the
   results and costs of the version and of all others add up to the whole.
   */
  lemma VersionsReplayOnTheirOwn(trips: seq<Trip>, costs: seq<Cost>, version: nat)
    requires OneTripPerMint(trips) && Replayed(trips, costs).Success?
    ensures var mine := Replayed(Rows(trips, version, true), CostRows(costs, version, true));
            var others := Replayed(Rows(trips, version, false), CostRows(costs, version, false));
            var whole := Replayed(trips, costs).value;
            && mine.Success? && others.Success?
            && mine.value.closed ==
               CompletedAll(Filter((e: Event) => e.trip.strategyVersion == version, Timeline(trips)))
            && ClosedNet(mine.value.closed) + ClosedNet(others.value.closed) == ClosedNet(whole.closed)
            && mine.value.failedTxFeesUsd + others.value.failedTxFeesUsd == whole.failedTxFeesUsd
            && mine.value.aiCostUsd + others.value.aiCostUsd == whole.aiCostUsd
  {
    ReplaysExactlyWhenRowsCheck(trips, costs);
    VersionTimeline(trips, version, true);
    VersionTimeline(trips, version, false);
    ReplaysExactlyWhenRowsCheck(Rows(trips, version, true), CostRows(costs, version, true));
    ReplaysExactlyWhenRowsCheck(Rows(trips, version, false), CostRows(costs, version, false));
    var keep := (e: Event) => (e.trip.strategyVersion == version) == true;
    var drop := (e: Event) => (e.trip.strategyVersion == version) == false;
    NetSplits(keep, drop, Timeline(trips));
    SameFilter((e: Event) => e.trip.strategyVersion == version, keep, Timeline(trips));
    FeesSplit(FailedTx, costs, version);
    FeesSplit(AiCost, costs, version);
  }

  lemma {:induction false} SameFilter<T(!new)>(p: T -> bool, q: T -> bool, s: seq<T>)
    requires forall x <- s :: p(x) == q(x)
    ensures Filter(p, s) == Filter(q, s)
  {
    if s != [] {
      SameFilter(p, q, s[1..]);
    }
  }

  lemma VersionTimeline(trips: seq<Trip>, version: nat, mine: bool)
    requires OneTripPerMint(trips)
    ensures OneTripPerMint(Rows(trips, version, mine))
    ensures Timeline(Rows(trips, version, mine)) ==
            Filter((e: Event) => (e.trip.strategyVersion == version) == mine, Timeline(trips))
  {
    var keep := (t: Trip) => (t.strategyVersion == version) == mine;
    var keepEvent := (e: Event) => (e.trip.strategyVersion == version) == mine;
    FilterIds(keep, trips);
    KeyIsTotal();
    KeyDistinguishes(trips);
    EventsFilter(keep, trips);
    SameFilter((e: Event) => keep(e.trip), keepEvent, Events(trips));
    FilterSortBy(byKey, keepEvent, Events(trips));
  }
}
