/**
 The paper ledger as its stored rows tell it (`replay` in
 `jarvis-api/src/memecoin.rs`): their events sorted by time, a close ahead of an
 open with the same stamp, and each stored result worked out anew.
 */
module Replay {
  import opened Wrappers
  import opened Sorting
  import opened PaperLedger

  datatype TripClose = TripClose(closedAt: int, usdOut: real, exitFeesUsd: real, netPnlUsd: real, exitReason: string)

  /**
   A purchase with everything that became of it. Ids are fixed-width
   identifiers whose text order is the order of their numbers.
   */
  datatype Trip = Trip(
    id: nat,
    mint: string,
    strategyVersion: nat,
    tokens: real,
    costUsd: real,
    entryLiquidityUsd: real,
    openedAt: int,
    exitFailures: nat,
    stuck: bool,
    close: Option<TripClose>)

  datatype CostKind = FailedTx | AiCost

  datatype Cost = Cost(kind: CostKind, usd: real, at: int, strategyVersion: nat)

  datatype ReplayError = LedgerRefused(error: LedgerError) | Mismatch

  datatype EventKind = CloseEvent | OpenEvent

  /** A stored event with the row it comes from. */
  datatype Event = Event(at: int, kind: EventKind, trip: Trip)

  function PositionOf(trip: Trip): Position {
    Position(trip.mint, trip.tokens, trip.costUsd, trip.openedAt, trip.entryLiquidityUsd)
  }

  function EventsOf(trip: Trip): seq<Event> {
    [Event(trip.openedAt, OpenEvent, trip)]
    + if trip.close.Some? then [Event(trip.close.value.closedAt, CloseEvent, trip)] else []
  }

  function Events(trips: seq<Trip>): seq<Event> {
    if trips == [] then [] else Events(trips[..|trips| - 1]) + EventsOf(trips[|trips| - 1])
  }

  /** The sort key: time, then closes before opens, then the row id. */
  predicate NotAfter(a: Event, b: Event) {
    || a.at < b.at
    || (a.at == b.at && a.kind.CloseEvent? && b.kind.OpenEvent?)
    || (a.at == b.at && a.kind == b.kind && a.trip.id <= b.trip.id)
  }

  const byKey := (a: Event, b: Event) => NotAfter(a, b)

  function Timeline(trips: seq<Trip>): seq<Event> {
    SortBy(byKey, Events(trips))
  }

  function Lift<T>(r: Result<T, LedgerError>): Result<T, ReplayError> {
    match r
    case Success(value) => Success(value)
    case Failure(e) => Failure(LedgerRefused(e))
  }

  function Play1(book: Book, event: Event): Result<Book, ReplayError>
    requires Sound(book.lots)
  {
    if event.kind.CloseEvent? && event.trip.close.Some? then
      var close := event.trip.close.value;
      var (after, net) :-
        Lift(CloseLots(book, event.trip.mint, event.trip.tokens, close.usdOut, close.exitFeesUsd, close.closedAt));
      if net != close.netPnlUsd then Failure(Mismatch) else Success(after)
    else
      Lift(OpenLot(book, PositionOf(event.trip)))
  }

  lemma Play1Sound(book: Book, event: Event)
    requires Sound(book.lots) && Play1(book, event).Success?
    ensures Sound(Play1(book, event).value.lots)
  {
    if event.kind.CloseEvent? && event.trip.close.Some? {
      var close := event.trip.close.value;
      SaleKeepsSound(book.lots, event.trip.mint, event.trip.tokens);
    }
  }

  function Play(events: seq<Event>): (r: Result<Book, ReplayError>)
    ensures r.Success? ==> Sound(r.value.lots)
  {
    if events == [] then Success(EMPTY_BOOK)
    else
      var before :- Play(events[..|events| - 1]);
      var r := Play1(before, events[|events| - 1]);
      if r.Success? then Play1Sound(before, events[|events| - 1]); r else r
  }

  function Charge1(book: Book, cost: Cost): Result<Book, ReplayError> {
    Lift(match cost.kind
         case FailedTx => AddFailedTx(book, cost.usd)
         case AiCost => AddAiCost(book, cost.usd))
  }

  function Charge(book: Book, costs: seq<Cost>): Result<Book, ReplayError> {
    if costs == [] then Success(book)
    else
      var before :- Charge(book, costs[..|costs| - 1]);
      Charge1(before, costs[|costs| - 1])
  }

  /** The book that stored rows stand for. */
  function Replayed(trips: seq<Trip>, costs: seq<Cost>): Result<Book, ReplayError> {
    var book :- Play(Timeline(trips));
    Charge(book, costs)
  }

  // ---- The method --------------------------------------------------------------

  lemma {:induction false} PlaySticks(events: seq<Event>, k: nat)
    requires k <= |events| && Play(events[..k]).Failure?
    ensures Play(events) == Play(events[..k])
  {
    if k < |events| {
      assert events[..|events| - 1][..k] == events[..k];
      PlaySticks(events[..|events| - 1], k);
    } else {
      assert events[..k] == events;
    }
  }

  lemma {:induction false} ChargeSticks(book: Book, costs: seq<Cost>, k: nat)
    requires k <= |costs| && Charge(book, costs[..k]).Failure?
    ensures Charge(book, costs) == Charge(book, costs[..k])
  {
    if k < |costs| {
      assert costs[..|costs| - 1][..k] == costs[..k];
      ChargeSticks(book, costs[..|costs| - 1], k);
    } else {
      assert costs[..k] == costs;
    }
  }

  /** One more event; a failure stays. */
  lemma PlayTurn(events: seq<Event>, i: nat)
    requires i < |events| && Play(events[..i]).Success?
    ensures Play(events[..i + 1]) == Play1(Play(events[..i]).value, events[i])
    ensures Play(events[..i + 1]).Failure? ==> Play(events) == Play(events[..i + 1])
  {
    assert events[..i + 1][..i] == events[..i];
    if Play(events[..i + 1]).Failure? {
      PlaySticks(events, i + 1);
    }
  }

  lemma ChargeTurn(book: Book, costs: seq<Cost>, i: nat)
    requires i < |costs| && Charge(book, costs[..i]).Success?
    ensures Charge(book, costs[..i + 1]) == Charge1(Charge(book, costs[..i]).value, costs[i])
    ensures Charge(book, costs[..i + 1]).Failure? ==> Charge(book, costs) == Charge(book, costs[..i + 1])
  {
    assert costs[..i + 1][..i] == costs[..i];
    if Charge(book, costs[..i + 1]).Failure? {
      ChargeSticks(book, costs, i + 1);
    }
  }

  method CollectEvents(trips: seq<Trip>) returns (events: seq<Event>)
    ensures events == Events(trips)
  {
    events := [];
    for i := 0 to |trips|
      invariant events == Events(trips[..i])
    {
      assert trips[..i + 1][..i] == trips[..i];
      events := events + [Event(trips[i].openedAt, OpenEvent, trips[i])];
      if trips[i].close.Some? {
        events := events + [Event(trips[i].close.value.closedAt, CloseEvent, trips[i])];
      }
    }
    assert trips[..|trips|] == trips;
  }

  /** Feed one event to the ledger and check a stored result. */
  method Feed(ledger: Ledger, event: Event) returns (r: Result<(), ReplayError>)
    requires ledger.Valid()
    modifies ledger
    ensures ledger.Valid()
    ensures match Play1(old(ledger.State()), event)
            case Success(book) => r == Success(()) && ledger.State() == book
            case Failure(e) => r == Failure(e)
  {
    if event.kind.CloseEvent? && event.trip.close.Some? {
      var close := event.trip.close.value;
      var net := ledger.Close(event.trip.mint, event.trip.tokens, close.usdOut, close.exitFeesUsd, close.closedAt);
      if net.Failure? {
        return Failure(LedgerRefused(net.error));
      }
      if net.value != close.netPnlUsd {
        return Failure(Mismatch);
      }
    } else {
      var entered := ledger.Open(PositionOf(event.trip));
      if entered.Failure? {
        return Failure(LedgerRefused(entered.error));
      }
    }
    return Success(());
  }

  method FeedCost(ledger: Ledger, cost: Cost) returns (r: Result<(), ReplayError>)
    requires ledger.Valid()
    modifies ledger
    ensures ledger.Valid()
    ensures match Charge1(old(ledger.State()), cost)
            case Success(book) => r == Success(()) && ledger.State() == book
            case Failure(e) => r == Failure(e)
  {
    var charged: Result<(), LedgerError>;
    match cost.kind {
      case FailedTx => charged := ledger.RecordFailedTx(cost.usd);
      case AiCost => charged := ledger.RecordAiCost(cost.usd);
    }
    return if charged.Success? then Success(()) else Failure(LedgerRefused(charged.error));
  }

  /** Feed the costs, after the events. */
  method FeedCosts(ledger: Ledger, costs: seq<Cost>) returns (r: Result<(), ReplayError>)
    requires ledger.Valid()
    modifies ledger
    ensures ledger.Valid()
    ensures match Charge(old(ledger.State()), costs)
            case Success(book) => r == Success(()) && ledger.State() == book
            case Failure(e) => r == Failure(e)
  {
    ghost var played := ledger.State();
    for i := 0 to |costs|
      invariant ledger.Valid()
      invariant Charge(played, costs[..i]) == Success(ledger.State())
    {
      ChargeTurn(played, costs, i);
      var fed := FeedCost(ledger, costs[i]);
      if fed.Failure? {
        return fed;
      }
    }
    assert costs[..|costs|] == costs;
    return Success(());
  }

  /** The whole replay, on a ledger that is fed event by event. */
  method Rebuild(trips: seq<Trip>, costs: seq<Cost>) returns (r: Result<Book, ReplayError>)
    ensures r == Replayed(trips, costs)
  {
    var collected := CollectEvents(trips);
    var events := SortBy(byKey, collected);
    var ledger := new Ledger();
    for i := 0 to |events|
      invariant ledger.Valid()
      invariant Play(events[..i]) == Success(ledger.State())
    {
      PlayTurn(events, i);
      var fed := Feed(ledger, events[i]);
      if fed.Failure? {
        return Failure(fed.error);
      }
    }
    assert events[..|events|] == events;
    var charged := FeedCosts(ledger, costs);
    return if charged.Success? then Success(ledger.State()) else Failure(charged.error);
  }
}
