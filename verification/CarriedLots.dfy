/**
 One row under the other trips of its mint: what the replay of such a table
 comes down to. The lots of the row are carried through every later sale of the
 mint, and each of these must cost what its own row says.
 */
module CarriedLots {
  import opened Wrappers
  import opened Sorting
  import opened PaperLedger
  import opened Replay
  import opened History
  import opened MintReplay

  // ---- Trips one after another --------------------------------------------------------

  /** Closed trips of one mint, each over when the next began. */
  ghost predicate Chain(trips: seq<Trip>) {
    && (forall t <- trips :: t.close.Some? && t.openedAt < t.close.value.closedAt && RowChecks(t))
    && (forall i, j | 0 <= i < j < |trips| :: Precedes(trips[i], trips[j]) && trips[i].mint == trips[j].mint)
  }

  ghost predicate Before(a: seq<Event>, b: seq<Event>) {
    forall x, y | x in a && y in b :: NotAfter(x, y)
  }

  lemma SortedJoin(a: seq<Event>, b: seq<Event>)
    requires Sorted(byKey, a) && Sorted(byKey, b) && Before(a, b)
    ensures Sorted(byKey, a + b)
  {
    hide NotAfter;
    forall i, j | 0 <= i < j < |a + b| ensures byKey((a + b)[i], (a + b)[j]) {
      if i < |a| <= j {
        assert a[i] in a && b[j - |a|] in b;
      }
    }
  }

  /** Everything of a closed trip comes before everything of one that begins later. */
  lemma TripBefore(a: Trip, b: Trip)
    requires Precedes(a, b) && a.openedAt < a.close.value.closedAt
    requires b.close.Some? ==> b.openedAt < b.close.value.closedAt
    ensures Before(EventsOf(a), EventsOf(b))
  {
  }

  lemma TripsBefore(a: seq<Trip>, b: seq<Trip>)
    requires forall x, y | x in a && y in b :: Before(EventsOf(x), EventsOf(y))
    ensures Before(Events(a), Events(b))
  {
    hide NotAfter, EventsOf;
    EventsMembers(a);
    EventsMembers(b);
    forall x, y | x in Events(a) && y in Events(b) ensures NotAfter(x, y) {
      assert IsEventOf(x, a) && IsEventOf(y, b);
    }
  }

  lemma EventsOfOne(trip: Trip)
    ensures Events([trip]) == EventsOf(trip)
  {
    assert [trip][..0] == [];
    assert [] + EventsOf(trip) == EventsOf(trip);
  }

  lemma ChainBefore(a: seq<Trip>, b: seq<Trip>)
    requires Chain(a) && Chain(b) && forall x, y | x in a && y in b :: Precedes(x, y)
    ensures Before(Events(a), Events(b))
  {
    hide RowChecks, NotAfter;
    forall x, y | x in a && y in b ensures Before(EventsOf(x), EventsOf(y)) {
      TripBefore(x, y);
    }
    TripsBefore(a, b);
  }

  lemma {:induction false} ChainSorted(trips: seq<Trip>)
    requires Chain(trips)
    ensures Sorted(byKey, Events(trips))
  {
    hide RowChecks, NotAfter;
    if trips != [] {
      var rest, last := trips[..|trips| - 1], trips[|trips| - 1];
      ChainSorted(rest);
      assert Chain([last]);
      ChainBefore(rest, [last]);
      EventsOfOne(last);
      OneSorted(last);
      SortedJoin(Events(rest), EventsOf(last));
    }
  }

  lemma OneSorted(trip: Trip)
    requires trip.close.Some? ==> trip.openedAt < trip.close.value.closedAt
    ensures Sorted(byKey, EventsOf(trip))
  {
  }

  // ---- The sales of a chain ----------------------------------------------------------------

  /**
   Each trip in turn joins the carried lots and is sold from them, oldest lot
   first: its cost must be its own row's.
   */
  ghost predicate Carries(lots: seq<Position>, trips: seq<Trip>)
    requires Sound(lots) && forall t <- trips :: RowChecks(t)
    decreases |trips|
  {
    trips == []
    || (SoldFrom(lots, trips[0]).cost == trips[0].costUsd && Carries(LeftOver(lots, trips[0]), trips[1..]))
  }

  /** The sale of a trip whose lot was bought when `lots` were there. */
  function SoldFrom(lots: seq<Position>, trip: Trip): Sale
    requires Sound(lots) && RowChecks(trip)
  {
    Consume(lots + [PositionOf(trip)], trip.mint, trip.tokens)
  }

  function LeftOver(lots: seq<Position>, trip: Trip): (left: seq<Position>)
    requires Sound(lots) && RowChecks(trip)
    ensures Sound(left)
  {
    EnoughHeld(lots, trip);
    SaleKeepsSound(lots + [PositionOf(trip)], trip.mint, trip.tokens);
    Remaining(SoldFrom(lots, trip).lots)
  }

  /** The lots after the sales of `trips`. */
  ghost function CarriedOut(lots: seq<Position>, trips: seq<Trip>): (left: seq<Position>)
    requires Sound(lots) && forall t <- trips :: RowChecks(t)
    ensures Sound(left)
    decreases |trips|
  {
    if trips == [] then lots else CarriedOut(LeftOver(lots, trips[0]), trips[1..])
  }

  lemma {:induction false} HeldLast(lots: seq<Position>, lot: Position, mint: string)
    ensures Held(lots + [lot], mint) == Held(lots, mint) + if lot.mint == mint then lot.tokens else 0.0
  {
    if lots == [] {
      assert lots + [lot] == [lot];
    } else {
      assert (lots + [lot])[1..] == lots[1..] + [lot];
      HeldLast(lots[1..], lot, mint);
    }
  }

  lemma EnoughHeld(lots: seq<Position>, trip: Trip)
    requires Sound(lots) && RowChecks(trip)
    ensures Sound(lots + [PositionOf(trip)]) && trip.tokens <= Held(lots + [PositionOf(trip)], trip.mint)
  {
    HeldLast(lots, PositionOf(trip), trip.mint);
    HeldNonnegative(lots, trip.mint);
  }

  lemma RegularOf(trip: Trip)
    requires RowChecks(trip)
    ensures forall e <- EventsOf(trip) :: Regular(e)
  {
  }

  lemma RegularEvents(trips: seq<Trip>)
    requires forall t <- trips :: RowChecks(t)
    ensures forall e <- Events(trips) :: Regular(e)
  {
    hide RowChecks, EventsOf;
    EventsMembers(trips);
    forall e <- Events(trips) ensures Regular(e) {
      assert IsEventOf(e, trips);
    }
  }

  /** The two events of a trip, with other lots there already. */
  lemma TripSteps(lots: seq<Position>, trip: Trip)
    requires Sound(lots) && RowChecks(trip) && trip.close.Some?
    ensures forall e <- EventsOf(trip) :: Regular(e)
    ensures Steps(lots, EventsOf(trip)) ==
            if SoldFrom(lots, trip).cost == trip.costUsd then Success(LeftOver(lots, trip)) else Failure(Mismatch)
  {
    hide Steps, Consume, Remaining, Held;
    RegularOf(trip);
    EnoughHeld(lots, trip);
    assert EventsOf(trip) == [OpenOf(trip)] + [CloseOf(trip)];
    StepsAppend(lots, [OpenOf(trip)], [CloseOf(trip)]);
    StepsOne(lots, OpenOf(trip));
    StepsOne(lots + [PositionOf(trip)], CloseOf(trip));
  }

  lemma {:induction false} ChainSteps(lots: seq<Position>, trips: seq<Trip>)
    requires Sound(lots) && Chain(trips)
    ensures forall e <- Events(trips) :: Regular(e)
    ensures Steps(lots, Events(trips)) ==
            if Carries(lots, trips) then Success(CarriedOut(lots, trips)) else Failure(Mismatch)
    decreases |trips|
  {
    hide RowChecks, Events, EventsOf, SoldFrom, LeftOver, Regular;
    RegularEvents(trips);
    if trips == [] {
      NoEvents();
      assert Steps(lots, []) == Success(lots);
    } else {
      hide Steps;
      var first, rest := trips[0], trips[1..];
      assert trips == [first] + rest;
      assert Chain(rest);
      EventsAppend([first], rest);
      EventsOfOne(first);
      StepsAppend(lots, EventsOf(first), Events(rest));
      TripSteps(lots, first);
      if SoldFrom(lots, first).cost == first.costUsd {
        ChainSteps(LeftOver(lots, first), rest);
      }
    }
  }

  lemma NoEvents()
    ensures Events([]) == []
  {
  }

  /** A trip whose lot is the oldest is sold as a whole and leaves the younger lots alone. */
  lemma SoldFirst(trip: Trip, younger: seq<Position>)
    requires RowChecks(trip) && Sound(younger)
    ensures Sound([PositionOf(trip)] + younger)
    ensures var sale := Consume([PositionOf(trip)] + younger, trip.mint, trip.tokens);
            sale.cost == trip.costUsd && Remaining(sale.lots) == younger
  {
    var lots := [PositionOf(trip)] + younger;
    assert lots[1..] == younger;
    assert Consume(younger, trip.mint, 0.0) == Sale(younger, 0.0, None);
    var sale := Consume(lots, trip.mint, trip.tokens);
    assert sale.lots[1..] == younger;
    RemainingAll(younger);
    assert [] + younger == younger;
  }

  lemma SoldAlone(trip: Trip)
    requires RowChecks(trip)
    ensures SoldFrom([], trip).cost == trip.costUsd && LeftOver([], trip) == []
  {
    SoldFirst(trip, []);
    assert [PositionOf(trip)] + [] == [] + [PositionOf(trip)];
  }

  lemma {:induction false} ChainAlone(trips: seq<Trip>)
    requires Chain(trips)
    ensures forall e <- Events(trips) :: Regular(e)
    ensures Steps([], Events(trips)) == Success([])
    decreases |trips|
  {
    hide RowChecks, Events, EventsOf, SoldFrom, LeftOver, Regular;
    RegularEvents(trips);
    if trips == [] {
      NoEvents();
      assert Steps([], []) == Success([]);
    } else {
      hide Steps;
      var first, rest := trips[0], trips[1..];
      assert trips == [first] + rest;
      assert Chain(rest);
      EventsAppend([first], rest);
      EventsOfOne(first);
      StepsAppend([], EventsOf(first), Events(rest));
      TripSteps([], first);
      SoldAlone(first);
      ChainAlone(rest);
    }
  }

  // ---- What is carried ---------------------------------------------------------------------

  ghost predicate OnlyMint(lots: seq<Position>, mint: string) {
    Sound(lots) && forall lot <- lots :: lot.mint == mint
  }

  lemma NoOtherMint(lots: seq<Position>, mint: string, other: string)
    requires OnlyMint(lots, mint) && other != mint
    ensures Held(lots, other) == 0.0
  {
    HeldNone(lots, other);
  }

  /** Whoever holds a lot holds tokens. */
  lemma HeldOnlyMint(lots: seq<Position>, mint: string)
    requires Sound(lots) && forall other: string | other != mint :: Held(lots, other) == 0.0
    ensures OnlyMint(lots, mint)
  {
    hide Held;
    forall lot <- lots ensures lot.mint == mint {
      var k :| 0 <= k < |lots| && lots[k] == lot;
      HoldsWhenHeld(lots, lot.mint);
    }
  }

  /** A sale that costs its own row's cost leaves as many tokens, at the same cost, as were carried. */
  lemma LeftOverConserves(lots: seq<Position>, trip: Trip)
    requires OnlyMint(lots, trip.mint) && RowChecks(trip) && SoldFrom(lots, trip).cost == trip.costUsd
    ensures OnlyMint(LeftOver(lots, trip), trip.mint)
    ensures Held(LeftOver(lots, trip), trip.mint) == Held(lots, trip.mint)
    ensures CostOf(LeftOver(lots, trip)) == CostOf(lots)
  {
    hide Held, Consume, Remaining, CostOf, HoldsMint;
    var lot := PositionOf(trip);
    EnoughHeld(lots, trip);
    CostOfAppend(lots, lot);
    ConsumeConserves(lots + [lot], trip.mint, trip.tokens);
    RemainingKeeps(SoldFrom(lots, trip).lots);
    HeldLast(lots, lot, trip.mint);
    forall other: string | other != trip.mint ensures Held(LeftOver(lots, trip), other) == 0.0 {
      NoOtherMint(lots, trip.mint, other);
      HeldLast(lots, lot, other);
      assert Held(SoldFrom(lots, trip).lots, other) == Held(lots + [lot], other);
    }
    HeldOnlyMint(LeftOver(lots, trip), trip.mint);
  }

  lemma {:induction false} CarryConserves(lots: seq<Position>, trips: seq<Trip>, mint: string)
    requires OnlyMint(lots, mint) && forall t <- trips :: RowChecks(t) && t.mint == mint
    requires Carries(lots, trips)
    ensures OnlyMint(CarriedOut(lots, trips), mint)
    ensures Held(CarriedOut(lots, trips), mint) == Held(lots, mint)
    ensures CostOf(CarriedOut(lots, trips)) == CostOf(lots)
    decreases |trips|
  {
    hide RowChecks, SoldFrom, LeftOver, Held, CostOf;
    if trips != [] {
      LeftOverConserves(lots, trips[0]);
      CarryConserves(LeftOver(lots, trips[0]), trips[1..], mint);
    }
  }

  /** Selling everything costs everything, however it is split into lots. */
  lemma SellAll(lots: seq<Position>, trip: Trip)
    requires OnlyMint(lots, trip.mint) && RowChecks(trip) && trip.close.Some?
    requires Held(lots, trip.mint) == trip.tokens && CostOf(lots) == trip.costUsd
    ensures Regular(CloseOf(trip)) && Step(lots, CloseOf(trip)) == Success([])
  {
    hide Held, Consume, Remaining, HoldsMint;
    RegularOf(trip);
    assert CloseOf(trip) in EventsOf(trip);
    ConsumeConserves(lots, trip.mint, trip.tokens);
    var left := Consume(lots, trip.mint, trip.tokens).lots;
    RemainingKeeps(left);
    forall mint: string ensures !HoldsMint(Remaining(left), mint) {
      HoldsWhenHeld(Remaining(left), mint);
      assert Held(Remaining(left), mint) == Held(left, mint);
      if mint != trip.mint {
        NoOtherMint(lots, trip.mint, mint);
      }
    }
    NoLots(Remaining(left));
  }

  lemma NoLots(lots: seq<Position>)
    requires forall mint: string :: !HoldsMint(lots, mint)
    ensures lots == []
  {
    if lots != [] {
      assert HoldsMint(lots, lots[0].mint);
    }
  }

  // ---- Where a row stands among its mint ---------------------------------------------------

  predicate OpenedBefore(a: Trip, b: Trip) {
    a.openedAt < b.openedAt || (a.openedAt == b.openedAt && a.id <= b.id)
  }

  const byOpening := (a: Trip, b: Trip) => OpenedBefore(a, b)

  function OpenedFirst(late: Trip): Trip -> bool {
    (t: Trip) => t.mint == late.mint && OpenedBefore(t, late)
  }

  function OpenedMeanwhile(late: Trip): Trip -> bool {
    (t: Trip) => t.mint == late.mint && !OpenedBefore(t, late) && !Precedes(late, t)
  }

  function OpenedAfterwards(late: Trip): Trip -> bool {
    (t: Trip) => t.mint == late.mint && !OpenedBefore(t, late) && Precedes(late, t)
  }

  /** The trips of the mint that were opened before `late`, in their order. */
  function Earlier(trips: seq<Trip>, late: Trip): seq<Trip> {
    SortBy(byOpening, Filter(OpenedFirst(late), trips))
  }

  /** Those opened after it and before it was closed. */
  function Meanwhile(trips: seq<Trip>, late: Trip): seq<Trip> {
    SortBy(byOpening, Filter(OpenedMeanwhile(late), trips))
  }

  function Afterwards(trips: seq<Trip>, late: Trip): seq<Trip> {
    Filter(OpenedAfterwards(late), trips)
  }

  /**
   Every other trip of its mint is closed, and no later than `late` itself,
   unless it began after `late` was closed.
   */
  ghost predicate Outlasts(late: Trip, trips: seq<Trip>) {
    && (late.close.Some? ==> late.openedAt < late.close.value.closedAt)
    && (forall t <- trips | t.mint == late.mint ::
          || Precedes(late, t)
          || (t.close.Some? && (late.close.Some? ==> NotAfter(CloseOf(t), CloseOf(late)))))
  }

  ghost predicate OneLateRow(trips: seq<Trip>, late: Trip) {
    && OneTripPerMint(trips) && AllRowsCheck(trips) && RowChecks(late)
    && (forall t <- trips :: t.id != late.id)
    && Outlasts(late, trips)
  }

  lemma OpeningIsTotal()
    ensures Total(byOpening)
  {
  }

  lemma InOpeningOrder(trips: seq<Trip>, a: Trip, b: Trip)
    requires OneTripPerMint(trips) && a in trips && b in trips && a != b && a.mint == b.mint && OpenedBefore(a, b)
    ensures Precedes(a, b)
  {
  }

  lemma ClosedLater(trips: seq<Trip>)
    requires OneTripPerMint(trips)
    ensures DistinctIds(trips) && forall t <- trips :: t.close.Some? ==> t.openedAt < t.close.value.closedAt
  {
  }

  /** Closed rows of one mint, in the order they were opened, follow one another. */
  lemma SortedIsChain(trips: seq<Trip>, keep: Trip -> bool, mint: string)
    requires OneTripPerMint(trips) && AllRowsCheck(trips)
    requires forall t <- trips | keep(t) :: t.mint == mint && t.close.Some?
    ensures Chain(SortBy(byOpening, Filter(keep, trips)))
    ensures forall t :: t in SortBy(byOpening, Filter(keep, trips)) <==> t in trips && keep(t)
  {
    hide RowChecks, Precedes, OpenedBefore, OneTripPerMint, DistinctIds, SortBy, Filter;
    var sorted := SortBy(byOpening, Filter(keep, trips));
    ClosedLater(trips);
    SortedRows(trips, keep);
    forall i, j | 0 <= i < j < |sorted| ensures Precedes(sorted[i], sorted[j]) && sorted[i].mint == sorted[j].mint {
      assert sorted[i] in trips && sorted[j] in trips;
      InOpeningOrder(trips, sorted[i], sorted[j]);
    }
  }

  lemma SortedRows(trips: seq<Trip>, keep: Trip -> bool)
    requires DistinctIds(trips)
    ensures var sorted := SortBy(byOpening, Filter(keep, trips));
            && (forall t :: t in sorted <==> t in trips && keep(t))
            && forall i, j | 0 <= i < j < |sorted| ::
                 sorted[i] in sorted && sorted[j] in sorted && OpenedBefore(sorted[i], sorted[j]) && sorted[i] != sorted[j]
  {
    hide OpenedBefore, DistinctIds;
    var rows := Filter(keep, trips);
    var sorted := SortBy(byOpening, rows);
    OpeningIsTotal();
    SortBySorted(byOpening, rows);
    SameElements(sorted, rows);
    FilterIds(keep, trips);
    RowsOnce(rows);
    forall i, j | 0 <= i < j < |sorted| ensures OpenedBefore(sorted[i], sorted[j]) && sorted[i] != sorted[j] {
      assert byOpening(sorted[i], sorted[j]);
      assert sorted[i] in rows;
      if sorted[i] == sorted[j] {
        TwiceInMultiset(sorted, i, j);
      }
    }
  }

  lemma RowsOnce(trips: seq<Trip>)
    requires DistinctIds(trips)
    ensures forall t <- trips :: multiset(trips)[t] == 1
  {
    OnceInMultiset(trips);
  }

  // ---- The timeline around one row ----------------------------------------------------------

  /** Up to the open event of `late`: the last trip before it may still be open then. */
  function Entering(earlier: seq<Trip>, late: Trip): seq<Event>
    requires forall t <- earlier :: t.close.Some?
  {
    if earlier == [] || Precedes(earlier[|earlier| - 1], late) then Events(earlier) + [OpenOf(late)]
    else
      Events(earlier[..|earlier| - 1])
      + [OpenOf(earlier[|earlier| - 1]), OpenOf(late), CloseOf(earlier[|earlier| - 1])]
  }

  function Leaving(late: Trip): seq<Event> {
    if late.close.Some? then [CloseOf(late)] else []
  }

  lemma EnteringMembers(earlier: seq<Trip>, late: Trip)
    requires forall t <- earlier :: t.close.Some?
    ensures multiset(Entering(earlier, late)) == multiset(Events(earlier)) + multiset{OpenOf(late)}
  {
    hide Precedes;
    if earlier != [] {
      var last := earlier[|earlier| - 1];
      assert EventsOf(last) == [OpenOf(last), CloseOf(last)];
    }
  }

  /** No trip of `earlier` was opened after `late`. */
  ghost predicate Enters(earlier: seq<Trip>, late: Trip) {
    Chain(earlier) && forall t <- earlier :: OpenedBefore(t, late) && t.mint == late.mint && t.id != late.id
  }

  lemma EnteringSorted(earlier: seq<Trip>, late: Trip)
    requires Enters(earlier, late)
    ensures Sorted(byKey, Entering(earlier, late))
  {
    hide RowChecks, Precedes, NotAfter, Chain, OpenedBefore, Events;
    if earlier == [] || Precedes(earlier[|earlier| - 1], late) {
      EnteringAfter(earlier, late);
    } else {
      EnteringInside(earlier, earlier[..|earlier| - 1], earlier[|earlier| - 1], late);
    }
  }

  lemma EnteringAfter(earlier: seq<Trip>, late: Trip)
    requires Chain(earlier) && (earlier == [] || Precedes(earlier[|earlier| - 1], late))
    ensures Sorted(byKey, Events(earlier) + [OpenOf(late)])
  {
    hide RowChecks, NotAfter;
    ChainSorted(earlier);
    forall t <- earlier ensures Before(EventsOf(t), [OpenOf(late)]) {
      PrecedesAll(earlier, late, t);
      CloseBeforeOpen(t, late);
    }
    hide Precedes, Events, EventsOf;
    AllBefore(earlier, [OpenOf(late)]);
    SortedJoin(Events(earlier), [OpenOf(late)]);
  }

  lemma EnteringInside(earlier: seq<Trip>, front: seq<Trip>, last: Trip, late: Trip)
    requires Chain(earlier) && earlier == front + [last] && OpenedBefore(last, late) && last.id != late.id
    requires !Precedes(last, late)
    ensures last.close.Some?
    ensures Sorted(byKey, Events(front) + [OpenOf(last), OpenOf(late), CloseOf(last)])
  {
    hide RowChecks;
    assert last in earlier && forall t <- front :: t in earlier;
    var middle := [OpenOf(last), OpenOf(late), CloseOf(last)];
    MiddleSorted(last, late);
    hide NotAfter;
    assert forall i | 0 <= i < |front| :: front[i] == earlier[i];
    assert Chain(front);
    ChainSorted(front);
    forall t <- front ensures Before(EventsOf(t), middle) {
      var i :| 0 <= i < |front| && front[i] == t;
      assert earlier[i] == t && earlier[|front|] == last && Precedes(t, last);
      BeforeEnclosed(t, last, late);
    }
    hide Precedes, Events, EventsOf, Chain;
    AllBefore(front, middle);
    SortedJoin(Events(front), middle);
  }

  lemma MiddleSorted(last: Trip, late: Trip)
    requires last.close.Some? && last.openedAt < last.close.value.closedAt
    requires OpenedBefore(last, late) && !Precedes(last, late)
    ensures Sorted(byKey, [OpenOf(last), OpenOf(late), CloseOf(last)])
  {
  }

  lemma PrecedesAll(earlier: seq<Trip>, late: Trip, t: Trip)
    requires Chain(earlier) && earlier != [] && Precedes(earlier[|earlier| - 1], late) && t in earlier
    ensures Precedes(t, late)
  {
    var i :| 0 <= i < |earlier| && earlier[i] == t;
    assert earlier[|earlier| - 1] in earlier;
  }

  lemma CloseBeforeOpen(t: Trip, late: Trip)
    requires Precedes(t, late) && t.openedAt < t.close.value.closedAt
    ensures Before(EventsOf(t), [OpenOf(late)])
  {
  }

  lemma BeforeEnclosed(t: Trip, last: Trip, late: Trip)
    requires Precedes(t, last) && t.openedAt < t.close.value.closedAt && OpenedBefore(last, late)
    requires last.close.Some? && last.openedAt < last.close.value.closedAt
    ensures Before(EventsOf(t), [OpenOf(last), OpenOf(late), CloseOf(last)])
  {
  }

  lemma AllBefore(a: seq<Trip>, b: seq<Event>)
    requires forall t <- a :: Before(EventsOf(t), b)
    ensures Before(Events(a), b)
  {
    hide NotAfter, EventsOf;
    EventsMembers(a);
    forall x, y | x in Events(a) && y in b ensures NotAfter(x, y) {
      assert IsEventOf(x, a);
    }
  }

  lemma AllAfter(a: seq<Event>, b: seq<Trip>)
    requires forall t <- b :: Before(a, EventsOf(t))
    ensures Before(a, Events(b))
  {
    hide NotAfter, EventsOf;
    EventsMembers(b);
    forall x, y | x in a && y in Events(b) ensures NotAfter(x, y) {
      assert IsEventOf(y, b);
    }
  }

  lemma EnteringSteps(earlier: seq<Trip>, late: Trip)
    requires Enters(earlier, late) && RowChecks(late)
    ensures forall e <- Entering(earlier, late) :: Regular(e)
    ensures Steps([], Entering(earlier, late)) == Success([PositionOf(late)])
  {
    hide Steps, RowChecks;
    RegularOf(late);
    if earlier == [] || Precedes(earlier[|earlier| - 1], late) {
      ChainAlone(earlier);
      StepsAppend([], Events(earlier), [OpenOf(late)]);
      StepsOne([], OpenOf(late));
      assert [] + [PositionOf(late)] == [PositionOf(late)];
    } else {
      var front, last := earlier[..|earlier| - 1], earlier[|earlier| - 1];
      assert last in earlier && forall t <- front :: t in earlier;
      ChainAlone(front);
      EnclosingSteps(last, late);
      StepsAppend([], Events(front), [OpenOf(last), OpenOf(late), CloseOf(last)]);
    }
  }

  /** A purchase inside a trip: the trip's own lot is older and is the one that is sold. */
  lemma EnclosingSteps(last: Trip, late: Trip)
    requires RowChecks(last) && RowChecks(late) && last.close.Some? && last.mint == late.mint
    ensures forall e <- [OpenOf(last), OpenOf(late), CloseOf(last)] :: Regular(e)
    ensures Steps([], [OpenOf(last), OpenOf(late), CloseOf(last)]) == Success([PositionOf(late)])
  {
    hide Steps, Consume, Remaining, Held;
    RegularOf(last);
    RegularOf(late);
    var lots := [PositionOf(last)] + [PositionOf(late)];
    assert [OpenOf(last), OpenOf(late), CloseOf(last)] == [OpenOf(last)] + ([OpenOf(late)] + [CloseOf(last)]);
    StepsAppend([], [OpenOf(last)], [OpenOf(late)] + [CloseOf(last)]);
    StepsOne([], OpenOf(last));
    assert [] + [PositionOf(last)] == [PositionOf(last)];
    StepsAppend([PositionOf(last)], [OpenOf(late)], [CloseOf(last)]);
    StepsOne([PositionOf(last)], OpenOf(late));
    SoldFirst(last, [PositionOf(late)]);
    EnoughOfFirst(last, [PositionOf(late)]);
    StepsOne(lots, CloseOf(last));
  }

  lemma EnoughOfFirst(trip: Trip, younger: seq<Position>)
    requires Sound(younger)
    ensures trip.tokens <= Held([PositionOf(trip)] + younger, trip.mint)
  {
    assert ([PositionOf(trip)] + younger)[1..] == younger;
    HeldNonnegative(younger, trip.mint);
  }

  /** The events of the mint up to the close of `late`. */
  function Around(earlier: seq<Trip>, meanwhile: seq<Trip>, late: Trip): seq<Event>
    requires forall t <- earlier :: t.close.Some?
  {
    Entering(earlier, late) + Events(meanwhile) + Leaving(late)
  }

  /**
   They replay exactly when the sales under `late` cost what their rows say, and
   then nothing is left when `late` is sold.
   */
  lemma AroundSteps(earlier: seq<Trip>, meanwhile: seq<Trip>, late: Trip)
    requires Enters(earlier, late) && Chain(meanwhile) && RowChecks(late) && forall t <- meanwhile :: t.mint == late.mint
    ensures forall e <- Around(earlier, meanwhile, late) :: Regular(e)
    ensures var r := Steps([], Around(earlier, meanwhile, late));
            && (r.Success? <==> Carries([PositionOf(late)], meanwhile))
            && (r.Failure? ==> r == Failure(Mismatch))
            && (r.Success? && late.close.Some? ==> r.value == [])
  {
    hide Steps, Entering, Events, RowChecks, Regular;
    var lots := [PositionOf(late)];
    LateLot(late);
    EnteringSteps(earlier, late);
    ChainSteps(lots, meanwhile);
    RegularOf(late);
    StepsAppend([], Entering(earlier, late), Events(meanwhile));
    StepsAppend([], Entering(earlier, late) + Events(meanwhile), Leaving(late));
    if Carries(lots, meanwhile) {
      CarryConserves(lots, meanwhile, late.mint);
      var left := CarriedOut(lots, meanwhile);
      if late.close.Some? {
        SellAll(left, late);
        StepsOne(left, CloseOf(late));
      } else {
        StepsNone(left);
      }
    }
  }

  lemma LateLot(late: Trip)
    requires RowChecks(late)
    ensures var lots := [PositionOf(late)];
            OnlyMint(lots, late.mint) && Held(lots, late.mint) == late.tokens && CostOf(lots) == late.costUsd
  {
    var lots := [PositionOf(late)];
    assert lots[1..] == [];
  }

  lemma StepsNone(lots: seq<Position>)
    requires Sound(lots)
    ensures Steps(lots, []) == Success(lots)
  {
  }

  lemma TimelineIs(trips: seq<Trip>, events: seq<Event>)
    requires DistinctIds(trips) && Sorted(byKey, events) && multiset(events) == multiset(Events(trips))
    ensures Timeline(trips) == events
  {
    hide Events, NotAfter;
    KeyIsTotal();
    KeyDistinguishes(trips);
    SortBySorted(byKey, Events(trips));
    SameElements(Events(trips), SortBy(byKey, Events(trips)));
    SortedUnique(byKey, Timeline(trips), events);
  }

  /** `earlier` and `meanwhile` are the other trips of the mint up to the close of `late`. */
  ghost predicate Placed(earlier: seq<Trip>, meanwhile: seq<Trip>, late: Trip) {
    && Enters(earlier, late) && Chain(meanwhile)
    && (forall t <- meanwhile :: t.mint == late.mint && !OpenedBefore(t, late))
    && (forall x, y | x in earlier && y in meanwhile :: Precedes(x, y))
    && (late.close.Some? ==>
          && late.openedAt < late.close.value.closedAt
          && (forall t <- earlier + meanwhile :: NotAfter(CloseOf(t), CloseOf(late))))
  }

  lemma BeforeMeanwhile(earlier: seq<Trip>, meanwhile: seq<Trip>, late: Trip)
    requires Placed(earlier, meanwhile, late)
    ensures Before(Entering(earlier, late), Events(meanwhile))
  {
    hide RowChecks, Entering;
    EnteringMembers(earlier, late);
    ChainBefore(earlier, meanwhile);
    forall t <- meanwhile ensures Before([OpenOf(late)], EventsOf(t)) {
    }
    hide NotAfter;
    AllAfter([OpenOf(late)], meanwhile);
    forall x, y | x in Entering(earlier, late) && y in Events(meanwhile) ensures NotAfter(x, y) {
      assert x in multiset(Entering(earlier, late));
    }
  }

  lemma BeforeLeaving(earlier: seq<Trip>, meanwhile: seq<Trip>, late: Trip)
    requires Placed(earlier, meanwhile, late)
    ensures Before(Entering(earlier, late) + Events(meanwhile), Leaving(late))
  {
    hide RowChecks, Entering, Events;
    if late.close.Some? {
      EnteringMembers(earlier, late);
      forall t <- earlier + meanwhile ensures Before(EventsOf(t), [CloseOf(late)]) {
        assert NotAfter(CloseOf(t), CloseOf(late));
      }
      assert NotAfter(OpenOf(late), CloseOf(late));
      hide NotAfter;
      AllBefore(earlier, [CloseOf(late)]);
      AllBefore(meanwhile, [CloseOf(late)]);
      forall x | x in Entering(earlier, late) ensures NotAfter(x, CloseOf(late)) {
        assert x in multiset(Entering(earlier, late));
      }
    }
  }

  lemma AroundSorted(earlier: seq<Trip>, meanwhile: seq<Trip>, late: Trip)
    requires Placed(earlier, meanwhile, late)
    ensures Sorted(byKey, Around(earlier, meanwhile, late))
    ensures multiset(Around(earlier, meanwhile, late)) ==
            multiset(Events(earlier)) + multiset(Events(meanwhile)) + multiset(EventsOf(late))
  {
    hide RowChecks, Entering, Events, NotAfter;
    EnteringMembers(earlier, late);
    EnteringSorted(earlier, late);
    ChainSorted(meanwhile);
    BeforeMeanwhile(earlier, meanwhile, late);
    SortedJoin(Entering(earlier, late), Events(meanwhile));
    BeforeLeaving(earlier, meanwhile, late);
    assert Sorted(byKey, Leaving(late));
    SortedJoin(Entering(earlier, late) + Events(meanwhile), Leaving(late));
  }

  /** The trips that began after `late` was closed come after all that. */
  lemma BeforeAfterwards(earlier: seq<Trip>, meanwhile: seq<Trip>, late: Trip, afterwards: seq<Trip>)
    requires Placed(earlier, meanwhile, late)
    requires forall t <- afterwards :: Precedes(late, t) && (t.close.Some? ==> t.openedAt < t.close.value.closedAt)
    ensures Before(Around(earlier, meanwhile, late), Timeline(afterwards))
  {
    hide RowChecks, Entering, Events;
    SameElements(Timeline(afterwards), Events(afterwards));
    if afterwards != [] {
      assert afterwards[0] in afterwards;
      var around := Around(earlier, meanwhile, late);
      AroundSorted(earlier, meanwhile, late);
      assert around[|around| - 1] == CloseOf(late);
      forall t <- afterwards ensures Before(around, EventsOf(t)) {
        forall x, y | x in around && y in EventsOf(t) ensures NotAfter(x, y) {
          var i :| 0 <= i < |around| && around[i] == x;
          assert byKey(around[i], around[|around| - 1]) || i == |around| - 1;
        }
      }
      hide NotAfter;
      AllAfter(around, afterwards);
    } else {
      NoEvents();
    }
  }

  lemma EarlierRows(trips: seq<Trip>, late: Trip)
    requires OneLateRow(trips, late)
    ensures Enters(Earlier(trips, late), late)
    ensures forall t <- Earlier(trips, late) ::
              t in trips && OpenedBefore(t, late) && (late.close.Some? ==> NotAfter(CloseOf(t), CloseOf(late)))
  {
    hide RowChecks, NotAfter;
    SortedIsChain(trips, OpenedFirst(late), late.mint);
  }

  lemma MeanwhileRows(trips: seq<Trip>, late: Trip)
    requires OneLateRow(trips, late)
    ensures Chain(Meanwhile(trips, late))
    ensures forall t <- Meanwhile(trips, late) ::
              && t in trips && t.mint == late.mint && !OpenedBefore(t, late)
              && (late.close.Some? ==> NotAfter(CloseOf(t), CloseOf(late)))
  {
    hide RowChecks, NotAfter;
    SortedIsChain(trips, OpenedMeanwhile(late), late.mint);
  }

  lemma AfterwardsRows(trips: seq<Trip>, late: Trip)
    requires OneLateRow(trips, late)
    ensures forall t <- Afterwards(trips, late) ::
              Precedes(late, t) && (t.close.Some? ==> t.openedAt < t.close.value.closedAt)
  {
    hide RowChecks, NotAfter;
  }

  lemma RowsPlaced(trips: seq<Trip>, late: Trip)
    requires OneLateRow(trips, late)
    ensures Placed(Earlier(trips, late), Meanwhile(trips, late), late)
  {
    EarlierRows(trips, late);
    MeanwhileRows(trips, late);
    hide RowChecks, NotAfter, Earlier, Meanwhile, Chain, Precedes;
    forall x, y | x in Earlier(trips, late) && y in Meanwhile(trips, late) ensures Precedes(x, y) {
      InOpeningOrder(trips, x, y);
    }
  }

  /** Every row of the mint is in exactly one of the three parts. */
  lemma RowsParted(trips: seq<Trip>, late: Trip)
    requires late.close.Some? ==> late.openedAt < late.close.value.closedAt
    ensures multiset(RowsOf(trips, late.mint)) ==
            multiset(Earlier(trips, late) + Meanwhile(trips, late) + Afterwards(trips, late))
  {
    var parts := Earlier(trips, late) + Meanwhile(trips, late) + Afterwards(trips, late);
    forall t ensures multiset(RowsOf(trips, late.mint))[t] == multiset(parts)[t] {
      FilterMultiplicity(RowIn(late.mint), trips, t);
      FilterMultiplicity(OpenedFirst(late), trips, t);
      FilterMultiplicity(OpenedMeanwhile(late), trips, t);
      FilterMultiplicity(OpenedAfterwards(late), trips, t);
    }
  }

  lemma RowsAppend(trips: seq<Trip>, late: Trip, mint: string)
    ensures RowsOf(trips + [late], mint) == if late.mint == mint then RowsOf(trips, mint) + [late] else RowsOf(trips, mint)
  {
    FilterLast(RowIn(mint), trips, late);
  }

  lemma IdsWithLate(trips: seq<Trip>, late: Trip)
    requires DistinctIds(trips) && forall t <- trips :: t.id != late.id
    ensures DistinctIds(trips + [late])
  {
  }

  lemma AroundWhole(earlier: seq<Trip>, meanwhile: seq<Trip>, late: Trip, afterwards: seq<Trip>, rows: seq<Trip>)
    requires Placed(earlier, meanwhile, late) && DistinctIds(rows + [late])
    requires multiset(rows) == multiset(earlier + meanwhile + afterwards)
    requires forall t <- afterwards :: Precedes(late, t) && (t.close.Some? ==> t.openedAt < t.close.value.closedAt)
    ensures Timeline(rows + [late]) == Around(earlier, meanwhile, late) + Timeline(afterwards)
  {
    BeforeAfterwards(earlier, meanwhile, late, afterwards);
    hide Around, Events, EventsOf, NotAfter, DistinctIds, Precedes, RowChecks;
    TimelineSorted(afterwards);
    AroundSorted(earlier, meanwhile, late);
    hide Placed, Timeline;
    SortedJoin(Around(earlier, meanwhile, late), Timeline(afterwards));
    EventsPermutation(rows + [late], earlier + meanwhile + afterwards + [late]);
    EventsLast(earlier + meanwhile + afterwards, late);
    EventsAppend(earlier + meanwhile, afterwards);
    EventsAppend(earlier, meanwhile);
    TimelineIs(rows + [late], Around(earlier, meanwhile, late) + Timeline(afterwards));
  }

  lemma TimelineSorted(trips: seq<Trip>)
    ensures Sorted(byKey, Timeline(trips)) && multiset(Timeline(trips)) == multiset(Events(trips))
  {
    KeyIsTotal();
    SortBySorted(byKey, Events(trips));
  }

  lemma MintTimelineAround(trips: seq<Trip>, late: Trip)
    requires OneLateRow(trips, late)
    ensures Placed(Earlier(trips, late), Meanwhile(trips, late), late)
    ensures Timeline(RowsOf(trips + [late], late.mint)) ==
            Around(Earlier(trips, late), Meanwhile(trips, late), late) + Timeline(Afterwards(trips, late))
  {
    hide RowsOf, Earlier, Meanwhile, Afterwards, Around, Placed, Timeline, NotAfter, RowChecks, Precedes;
    RowsPlaced(trips, late);
    AfterwardsRows(trips, late);
    IdsWithLate(trips, late);
    RowsAppend(trips, late, late.mint);
    DistinctRows(trips + [late], late.mint);
    RowsParted(trips, late);
    AroundWhole(Earlier(trips, late), Meanwhile(trips, late), late, Afterwards(trips, late), RowsOf(trips, late.mint));
  }

  lemma DistinctRows(trips: seq<Trip>, mint: string)
    requires DistinctIds(trips)
    ensures DistinctIds(RowsOf(trips, mint))
  {
    FilterIds(RowIn(mint), trips);
  }

  // ---- Which tables with such a row replay -----------------------------------------------------

  lemma FilteredTable(trips: seq<Trip>, keep: Trip -> bool)
    requires OneTripPerMint(trips) && AllRowsCheck(trips)
    ensures OneTripPerMint(Filter(keep, trips)) && AllRowsCheck(Filter(keep, trips))
  {
    hide RowChecks, Precedes;
    FilterIds(keep, trips);
  }

  lemma {:induction false} AllKept<T(!new)>(keep: T -> bool, s: seq<T>)
    requires forall x <- s :: keep(x)
    ensures Filter(keep, s) == s
  {
    if s != [] {
      AllKept(keep, s[1..]);
    }
  }

  lemma {:induction false} NoneKept<T(!new)>(keep: T -> bool, s: seq<T>)
    requires forall x <- s :: !keep(x)
    ensures Filter(keep, s) == []
  {
    if s != [] {
      NoneKept(keep, s[1..]);
    }
  }

  /** With one trip per mint, the rows of every mint replay. */
  lemma OrdinaryMint(trips: seq<Trip>, mint: string)
    requires OneTripPerMint(trips) && AllRowsCheck(trips)
    ensures MintReplayed(trips, mint).Success?
  {
    hide MintReplayed, LotsOf, Replayed;
    ReplaysExactlyWhenRowsCheck(trips, []);
    ReplaysExactlyWhenEveryMintDoes(trips, []);
  }

  lemma NoTimeline()
    ensures Timeline([]) == []
  {
  }

  lemma AfterwardsReplay(trips: seq<Trip>, late: Trip)
    requires OneTripPerMint(trips) && AllRowsCheck(trips)
    ensures forall e <- Timeline(Afterwards(trips, late)) :: Regular(e)
    ensures Steps([], Timeline(Afterwards(trips, late))).Success?
    ensures late.close.None? ==> Timeline(Afterwards(trips, late)) == []
  {
    hide Steps, Timeline, RowChecks;
    var rows := Afterwards(trips, late);
    FilteredTable(trips, OpenedAfterwards(late));
    OrdinaryMint(rows, late.mint);
    AllKept(RowIn(late.mint), rows);
    TimelineIsRegular(rows);
    if late.close.None? {
      NoneKept(OpenedAfterwards(late), trips);
      NoTimeline();
    }
  }

  lemma RowsCheck(trips: seq<Trip>, mint: string)
    requires AllRowsCheck(trips)
    ensures AllRegular(Timeline(RowsOf(trips, mint)))
  {
    TimelineIsRegular(RowsOf(trips, mint));
  }

  lemma LateMint(trips: seq<Trip>, late: Trip)
    requires OneLateRow(trips, late)
    ensures AllRowsCheck(trips + [late])
    ensures forall t <- Meanwhile(trips, late) :: RowChecks(t)
    ensures var r := MintReplayed(trips + [late], late.mint);
            && (r.Success? <==> Carries([PositionOf(late)], Meanwhile(trips, late)))
            && (r.Failure? ==> r == Failure(Mismatch))
  {
    hide Steps, Timeline, RowChecks, Earlier, Meanwhile, Afterwards, Around, NotAfter, RowsOf;
    MintTimelineAround(trips, late);
    var around, rest := Around(Earlier(trips, late), Meanwhile(trips, late), late), Timeline(Afterwards(trips, late));
    RowsCheck(trips + [late], late.mint);
    AroundSteps(Earlier(trips, late), Meanwhile(trips, late), late);
    AfterwardsReplay(trips, late);
    StepsAppend([], around, rest);
    var r := Steps([], around);
    if r.Success? && late.close.None? {
      StepsNone(r.value);
    }
  }

  lemma OtherMint(trips: seq<Trip>, late: Trip, mint: string)
    requires OneLateRow(trips, late) && mint != late.mint
    ensures AllRowsCheck(trips + [late]) && MintReplayed(trips + [late], mint).Success?
  {
    hide Steps, Timeline, RowChecks, NotAfter;
    RowsAppend(trips, late, mint);
    OrdinaryMint(trips, mint);
    hide RowsOf;
  }

  /**
   A table with one trip per mint and one row under them that is still open, or
   was sold after all of them: it replays exactly when the later sales of its
   mint, with the row's lot carried through them, each cost what their own row
   says. Otherwise a stored result is contradicted.
   */
  lemma LateRowReplaysExactly(trips: seq<Trip>, late: Trip, costs: seq<Cost>)
    requires OneLateRow(trips, late) && forall c <- costs :: c.usd >= 0.0
    ensures forall t <- Meanwhile(trips, late) :: RowChecks(t)
    ensures Replayed(trips + [late], costs).Success? <==> Carries([PositionOf(late)], Meanwhile(trips, late))
    ensures Replayed(trips + [late], costs).Failure? ==> Replayed(trips + [late], costs) == Failure(Mismatch)
  {
    hide Replayed, MintReplayed, Meanwhile, RowChecks, LotsOf;
    LateMint(trips, late);
    IdsWithLate(trips, late);
    forall mint: string | mint != late.mint ensures MintReplayed(trips + [late], mint).Success? {
      OtherMint(trips, late, mint);
    }
    ReplaysExactlyWhenEveryMintDoes(trips + [late], costs);
  }
}
