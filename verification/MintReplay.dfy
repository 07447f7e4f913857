/**
 Replay taken apart by mint: rows of one mint never touch the lots of another,
 so a table replays exactly when the rows of each mint do, on lots alone.
 */
module MintReplay {
  import opened Wrappers
  import opened Sorting
  import opened PaperLedger
  import opened Replay
  import opened History

  function LotIn(mint: string): Position -> bool {
    (lot: Position) => lot.mint == mint
  }

  function RowIn(mint: string): Trip -> bool {
    (t: Trip) => t.mint == mint
  }

  function EventIn(mint: string): Event -> bool {
    (e: Event) => e.trip.mint == mint
  }

  function LotsOf(lots: seq<Position>, mint: string): seq<Position> {
    Filter(LotIn(mint), lots)
  }

  function RowsOf(trips: seq<Trip>, mint: string): seq<Trip> {
    Filter(RowIn(mint), trips)
  }

  function EventsFor(events: seq<Event>, mint: string): seq<Event> {
    Filter(EventIn(mint), events)
  }

  /** An event of a row whose amounts and stored result check. */
  predicate Regular(e: Event) {
    RowChecks(e.trip) && e in EventsOf(e.trip)
  }

  /** One event on the lots of its mint: a sale must cost what its row says. */
  function Step(lots: seq<Position>, e: Event): (r: Result<seq<Position>, ReplayError>)
    requires Sound(lots) && Regular(e)
    ensures r.Success? ==> Sound(r.value)
  {
    if e.kind.OpenEvent? then Success(lots + [PositionOf(e.trip)])
    else if e.trip.tokens > Held(lots, e.trip.mint) then Failure(LedgerRefused(InsufficientTokens))
    else
      var sale := Consume(lots, e.trip.mint, e.trip.tokens);
      SaleKeepsSound(lots, e.trip.mint, e.trip.tokens);
      if sale.cost != e.trip.costUsd then Failure(Mismatch) else Success(Remaining(sale.lots))
  }

  /** A list of events, in order, on lots alone. */
  function Steps(lots: seq<Position>, events: seq<Event>): (r: Result<seq<Position>, ReplayError>)
    requires Sound(lots) && forall e <- events :: Regular(e)
    ensures r.Success? ==> Sound(r.value)
    decreases |events|
  {
    if events == [] then Success(lots)
    else
      var next :- Step(lots, events[0]);
      Steps(next, events[1..])
  }

  function StepsOn(r: Result<seq<Position>, ReplayError>, events: seq<Event>): Result<seq<Position>, ReplayError>
    requires (r.Success? ==> Sound(r.value)) && forall e <- events :: Regular(e)
  {
    if r.Success? then Steps(r.value, events) else r
  }

  lemma {:induction false} StepsAppend(lots: seq<Position>, a: seq<Event>, b: seq<Event>)
    requires Sound(lots) && forall e <- a + b :: Regular(e)
    ensures forall e <- a :: Regular(e)
    ensures forall e <- b :: Regular(e)
    ensures Steps(lots, a + b) == StepsOn(Steps(lots, a), b)
    decreases |a|
  {
    hide Regular, Step;
    assert forall e <- a :: e in a + b;
    assert forall e <- b :: e in a + b;
    if a == [] {
      assert a + b == b;
    } else {
      assert (a + b)[0] == a[0] && (a + b)[1..] == a[1..] + b;
      var next := Step(lots, a[0]);
      if next.Success? {
        StepsAppend(next.value, a[1..], b);
      }
    }
  }

  lemma StepsOne(lots: seq<Position>, e: Event)
    requires Sound(lots) && Regular(e)
    ensures Steps(lots, [e]) == Step(lots, e)
  {
    var next := Step(lots, e);
    if next.Success? {
      assert Steps(next.value, []) == next;
    }
  }

  // ---- The ledger's sale, mint by mint ------------------------------------------------

  lemma {:induction false} HeldOfMint(lots: seq<Position>, mint: string)
    ensures Held(LotsOf(lots, mint), mint) == Held(lots, mint)
  {
    if lots != [] {
      HeldOfMint(lots[1..], mint);
      assert ([lots[0]] + LotsOf(lots[1..], mint))[1..] == LotsOf(lots[1..], mint);
    }
  }

  lemma LotsFront(lot: Position, rest: seq<Position>, mint: string)
    ensures LotsOf([lot] + rest, mint) == if lot.mint == mint then [lot] + LotsOf(rest, mint) else LotsOf(rest, mint)
  {
    assert ([lot] + rest)[1..] == rest;
  }

  lemma ConsumeFront(lot: Position, rest: seq<Position>, mint: string, left: real)
    requires Sound([lot] + rest) && left != 0.0
    ensures lot.tokens > 0.0 && Sound(rest)
    ensures var turn := SellFrom(lot, mint, left);
            var sale := Consume(rest, mint, turn.left);
            && Consume([lot] + rest, mint, left).lots == [turn.rest] + sale.lots
            && Consume([lot] + rest, mint, left).cost == turn.share + sale.cost
            && turn.rest.mint == lot.mint
  {
    assert lot in [lot] + rest && forall x <- rest :: x in [lot] + rest;
    assert ([lot] + rest)[1..] == rest;
  }

  lemma {:induction false} ConsumeOfMint(lots: seq<Position>, mint: string, left: real)
    requires Sound(lots)
    ensures var sale, own := Consume(lots, mint, left), Consume(LotsOf(lots, mint), mint, left);
            && sale.cost == own.cost
            && LotsOf(sale.lots, mint) == own.lots
            && forall other | other != mint :: LotsOf(sale.lots, other) == LotsOf(lots, other)
  {
    if lots == [] || left == 0.0 {
      assert Consume(lots, mint, left) == Sale(lots, 0.0, None);
      assert Consume(LotsOf(lots, mint), mint, left) == Sale(LotsOf(lots, mint), 0.0, None);
    } else {
      var lot, rest := lots[0], lots[1..];
      assert lots == [lot] + rest;
      hide Consume, LotsOf, SellFrom;
      ConsumeFront(lot, rest, mint, left);
      var turn := SellFrom(lot, mint, left);
      ConsumeOfMint(rest, mint, turn.left);
      var sold := Consume(rest, mint, turn.left).lots;
      forall m ensures LotsOf(lots, m) == if lot.mint == m then [lot] + LotsOf(rest, m) else LotsOf(rest, m)
               ensures LotsOf([turn.rest] + sold, m) ==
                       if lot.mint == m then [turn.rest] + LotsOf(sold, m) else LotsOf(sold, m)
      {
        LotsFront(lot, rest, m);
        LotsFront(turn.rest, sold, m);
      }
      if lot.mint == mint {
        SoundOfMint(lots, mint);
        ConsumeFront(lot, LotsOf(rest, mint), mint, left);
      } else {
        SkippedTurn(lot, mint, left);
      }
    }
  }

  lemma SkippedTurn(lot: Position, mint: string, left: real)
    requires lot.mint != mint && lot.tokens > 0.0
    ensures SellFrom(lot, mint, left) == Turn(lot, 0.0, left)
  {
  }

  lemma SoundOfMint(lots: seq<Position>, mint: string)
    requires Sound(lots)
    ensures Sound(LotsOf(lots, mint))
  {
  }

  lemma {:induction false} RemainingOfMint(lots: seq<Position>, mint: string)
    ensures LotsOf(Remaining(lots), mint) == Remaining(LotsOf(lots, mint))
  {
    if lots != [] {
      RemainingOfMint(lots[1..], mint);
      LotsFront(lots[0], Remaining(lots[1..]), mint);
      assert [] + Remaining(lots[1..]) == Remaining(lots[1..]);
      var own := LotsOf(lots[1..], mint);
      assert ([lots[0]] + own)[1..] == own;
      assert [] + Remaining(own) == Remaining(own);
    }
  }

  /** Selling one mint is selling from its own lots; the lots of every other mint stay. */
  lemma SaleOfMint(lots: seq<Position>, mint: string, tokens: real)
    requires Sound(lots)
    ensures Sound(LotsOf(lots, mint))
    ensures var sale, own := Consume(lots, mint, tokens), Consume(LotsOf(lots, mint), mint, tokens);
            && sale.cost == own.cost
            && LotsOf(Remaining(sale.lots), mint) == Remaining(own.lots)
            && forall other | other != mint :: LotsOf(Remaining(sale.lots), other) == LotsOf(lots, other)
  {
    hide Consume, Remaining, LotsOf;
    SoundOfMint(lots, mint);
    ConsumeOfMint(lots, mint, tokens);
    var sale := Consume(lots, mint, tokens);
    RemainingOfMint(sale.lots, mint);
    forall other | other != mint ensures LotsOf(Remaining(sale.lots), other) == LotsOf(lots, other) {
      RemainingOfMint(sale.lots, other);
      SoundOfMint(lots, other);
      RemainingAll(LotsOf(lots, other));
    }
  }

  // ---- The replay, mint by mint -----------------------------------------------------------

  /** What one event does to a book shows in the lots of its mint only. */
  lemma StepOfMint(book: Book, e: Event)
    requires Sound(book.lots) && Regular(e) && InOrder(book.lastEventAt, e.at)
    ensures Sound(LotsOf(book.lots, e.trip.mint))
    ensures match Step(LotsOf(book.lots, e.trip.mint), e)
            case Failure(error) => Play1(book, e) == Failure(error)
            case Success(own) =>
              && Play1(book, e).Success?
              && Play1(book, e).value.lastEventAt == Some(e.at)
              && LotsOf(Play1(book, e).value.lots, e.trip.mint) == own
              && forall other | other != e.trip.mint :: LotsOf(Play1(book, e).value.lots, other) == LotsOf(book.lots, other)
  {
    hide Consume, Remaining, Held, LotsOf, HoldsMint;
    var lots, lot, mint := book.lots, PositionOf(e.trip), e.trip.mint;
    SoundOfMint(lots, mint);
    if e.kind.OpenEvent? {
      forall m ensures LotsOf(lots + [lot], m) == if m == mint then LotsOf(lots, m) + [lot] else LotsOf(lots, m) {
        LotsLast(lots, lot, m);
      }
    } else {
      HeldOfMint(lots, mint);
      SaleOfMint(lots, mint, e.trip.tokens);
    }
  }

  lemma LotsLast(lots: seq<Position>, lot: Position, mint: string)
    ensures LotsOf(lots + [lot], mint) == if mint == lot.mint then LotsOf(lots, mint) + [lot] else LotsOf(lots, mint)
  {
    FilterLast(LotIn(mint), lots, lot);
  }

  lemma EventsForLast(events: seq<Event>, e: Event, mint: string)
    ensures EventsFor(events + [e], mint) ==
            if mint == e.trip.mint then EventsFor(events, mint) + [e] else EventsFor(events, mint)
  {
    FilterLast(EventIn(mint), events, e);
  }

  ghost predicate AllRegular(events: seq<Event>) {
    forall e <- events :: Regular(e)
  }

  /** The events of one mint, from no lots at all. */
  function PlayMint(events: seq<Event>, mint: string): (r: Result<seq<Position>, ReplayError>)
    requires AllRegular(events)
    ensures r.Success? ==> Sound(r.value)
  {
    Steps([], EventsFor(events, mint))
  }

  lemma PlayMintLast(events: seq<Event>, e: Event, mint: string)
    requires AllRegular(events + [e])
    ensures AllRegular(events) && Regular(e)
    ensures PlayMint(events + [e], mint) ==
            if mint == e.trip.mint then StepsOn(PlayMint(events, mint), [e]) else PlayMint(events, mint)
  {
    hide Regular, Steps;
    assert forall x <- events :: x in events + [e];
    assert e in events + [e];
    EventsForLast(events, e, mint);
    if mint == e.trip.mint {
      StepsAppend([], EventsFor(events, mint), [e]);
    }
  }

  /** What a replay has in common with the replays of all mints on their own. */
  ghost predicate Mintwise(played: Result<Book, ReplayError>, events: seq<Event>)
    requires AllRegular(events)
  {
    match played
    case Success(book) => forall mint :: PlayMint(events, mint) == Success(LotsOf(book.lots, mint))
    case Failure(error) => exists mint :: PlayMint(events, mint) == Failure(error)
  }

  lemma MintwiseNext(played: Result<Book, ReplayError>, events: seq<Event>, e: Event)
    requires played.Success? ==> Sound(played.value.lots) && InOrder(played.value.lastEventAt, e.at)
    requires AllRegular(events + [e]) && AllRegular(events) && Mintwise(played, events)
    ensures Mintwise(PlayOn(played, e), events + [e])
    ensures PlayOn(played, e).Success? ==> PlayOn(played, e).value.lastEventAt == Some(e.at)
  {
    hide Regular, Step, Play1, PlayMint, LotsOf;
    assert e in events + [e];
    forall mint ensures PlayMint(events + [e], mint) ==
                        if mint == e.trip.mint then StepsOn(PlayMint(events, mint), [e]) else PlayMint(events, mint)
    {
      PlayMintLast(events, e, mint);
    }
    match played {
      case Success(book) =>
        StepOfMint(book, e);
        StepsOne(LotsOf(book.lots, e.trip.mint), e);
      case Failure(error) =>
        var mint :| PlayMint(events, mint) == Failure(error);
        assert PlayMint(events + [e], mint) == Failure(error);
    }
  }

  ghost predicate TimesSorted(events: seq<Event>) {
    forall i, j | 0 <= i < j < |events| :: events[i].at <= events[j].at
  }

  lemma {:induction false} PlayIsMintwise(events: seq<Event>, k: nat)
    requires AllRegular(events) && TimesSorted(events) && k <= |events|
    ensures AllRegular(events[..k]) && Mintwise(Play(events[..k]), events[..k])
    ensures k > 0 && Play(events[..k]).Success? ==> Play(events[..k]).value.lastEventAt == Some(events[k - 1].at)
    ensures k == 0 ==> Play(events[..k]) == Success(EMPTY_BOOK)
  {
    hide Regular, Play1;
    if k == 0 {
      assert events[..0] == [];
    } else {
      hide Play, Mintwise, PlayOn, PlayMint, Steps;
      PlayIsMintwise(events, k - 1);
      PlayUnfold(events, k - 1);
      assert events[..k] == events[..k - 1] + [events[k - 1]];
      assert AllRegular(events[..k]);
      MintwiseNext(Play(events[..k - 1]), events[..k - 1], events[k - 1]);
    }
  }

  // ---- Whole tables -------------------------------------------------------------------------

  ghost predicate AllRowsCheck(trips: seq<Trip>) {
    forall t <- trips :: RowChecks(t)
  }

  lemma TimelineIsRegular(trips: seq<Trip>)
    requires AllRowsCheck(trips)
    ensures AllRegular(Timeline(trips))
  {
    hide RowChecks, EventsOf;
    SameElements(Timeline(trips), Events(trips));
    EventsMembers(trips);
    forall e <- Timeline(trips) ensures Regular(e) {
      assert IsEventOf(e, trips);
    }
  }

  lemma TimelineTimes(trips: seq<Trip>)
    requires DistinctIds(trips)
    ensures TimesSorted(Timeline(trips))
  {
    TimelineIsChronicle(trips);
  }

  /** The rows of one mint, replayed on lots alone. */
  ghost function MintReplayed(trips: seq<Trip>, mint: string): (r: Result<seq<Position>, ReplayError>)
    requires AllRowsCheck(trips)
    ensures r.Success? ==> Sound(r.value)
  {
    TimelineIsRegular(RowsOf(trips, mint));
    Steps([], Timeline(RowsOf(trips, mint)))
  }

  lemma MintTimeline(trips: seq<Trip>, mint: string)
    requires DistinctIds(trips)
    ensures Timeline(RowsOf(trips, mint)) == EventsFor(Timeline(trips), mint)
  {
    var keepEvent := (e: Event) => RowIn(mint)(e.trip);
    FilterIds(RowIn(mint), trips);
    KeyIsTotal();
    KeyDistinguishes(trips);
    EventsFilter(RowIn(mint), trips);
    SameFilter(keepEvent, EventIn(mint), Events(trips));
    FilterSortBy(byKey, EventIn(mint), Events(trips));
  }

  lemma MintPlays(trips: seq<Trip>, mint: string)
    requires DistinctIds(trips) && AllRowsCheck(trips)
    ensures AllRegular(Timeline(trips))
    ensures MintReplayed(trips, mint) == PlayMint(Timeline(trips), mint)
  {
    hide Timeline, EventsFor, Steps, RowChecks;
    TimelineIsRegular(trips);
    TimelineIsRegular(RowsOf(trips, mint));
    MintTimeline(trips, mint);
  }

  /**
   Rows whose amounts check, in whatever way their trips overlap: they replay
   exactly when the rows of every mint do, on nothing but the lots of that mint.
   A refusal of the whole is the refusal of some mint, and what is held at the
   end is what each mint holds.
   */
  lemma ReplaysExactlyWhenEveryMintDoes(trips: seq<Trip>, costs: seq<Cost>)
    requires DistinctIds(trips) && AllRowsCheck(trips) && forall c <- costs :: c.usd >= 0.0
    ensures Replayed(trips, costs).Success? <==> forall mint :: MintReplayed(trips, mint).Success?
    ensures match Replayed(trips, costs)
            case Success(book) => forall mint :: MintReplayed(trips, mint) == Success(LotsOf(book.lots, mint))
            case Failure(error) => exists mint :: MintReplayed(trips, mint) == Failure(error)
  {
    hide Timeline, Play, PlayMint, MintReplayed, LotsOf;
    var events := Timeline(trips);
    TimelineIsRegular(trips);
    TimelineTimes(trips);
    PlayIsMintwise(events, |events|);
    assert events[..|events|] == events;
    forall mint ensures MintReplayed(trips, mint) == PlayMint(events, mint) {
      MintPlays(trips, mint);
    }
    if Play(events).Success? {
      ChargeAll(Play(events).value, costs);
    }
  }
}
