/**
 Statements of the paper trader that take effect after the tick that sent them
 gave up: `bounded` in `jarvis-api/src/memecoin.rs` drops the call, and the
 database (`jarvis-api/src/memecoin/store.rs`, with the unique slot of
 `schema/surreal/0014_memecoin_paper.surql`) may carry it out at any later time.
 */
module LateWrites {
  import opened Wrappers
  import opened Sorting
  import opened PaperLedger
  import opened Replay
  import opened History
  import opened MintReplay
  import opened PaperRows

  datatype Write =
    | OpenRow(trip: Trip)
    | CloseRow(id: nat, close: TripClose)
    | FailRow(id: nat, cap: nat)

  /** A row of the same id, or one that holds the mint: the create is refused. */
  predicate Refused(trips: seq<Trip>, trip: Trip) {
    exists t <- trips :: t.id == trip.id || (t.mint == trip.mint && IsOpen(t))
  }

  /** One row after a statement about an open row that is not stuck. */
  function Updated(t: Trip, w: Write): Trip
    requires !w.OpenRow?
  {
    if t.id != w.id || !IsOpen(t) || t.stuck then t
    else
      match w
      case CloseRow(_, close) => t.(close := Some(close))
      case FailRow(_, cap) => t.(exitFailures := t.exitFailures + 1, stuck := t.exitFailures + 1 >= cap)
  }

  /** The rows when a statement lands. */
  function Land(trips: seq<Trip>, w: Write): (after: seq<Trip>)
    ensures !w.OpenRow? ==> |after| == |trips| && forall i | 0 <= i < |trips| :: after[i] == Updated(trips[i], w)
  {
    if w.OpenRow? then if Refused(trips, w.trip) then trips else trips + [w.trip]
    else seq(|trips|, i requires 0 <= i < |trips| => Updated(trips[i], w))
  }

  /** What the tick sees to before it sends: amounts that check, and a close stamped after its row was opened. */
  predicate Honest(trips: seq<Trip>, w: Write) {
    match w
    case OpenRow(trip) => IsOpen(trip) && RowChecks(trip)
    case CloseRow(id, close) =>
      forall t <- trips | t.id == id :: RowChecks(t.(close := Some(close))) && t.openedAt < close.closedAt
    case FailRow(_, _) => true
  }

  /** A row that is opened does not begin before an earlier row of its mint was closed. */
  predicate Timely(trips: seq<Trip>, w: Write) {
    w.OpenRow? && !Refused(trips, w.trip) ==>
      forall t <- trips | t.mint == w.trip.mint :: Precedes(t, w.trip)
  }

  // ---- One statement ------------------------------------------------------------------

  lemma OpenLands(trips: seq<Trip>, trip: Trip)
    requires OneTripPerMint(trips) && IsOpen(trip) && !Refused(trips, trip)
    ensures OneTripPerMint(trips + [trip]) <==> Timely(trips, OpenRow(trip))
  {
    var after := trips + [trip];
    assert trip in after;
    if OneTripPerMint(after) {
      forall t <- trips | t.mint == trip.mint ensures Precedes(t, trip) {
        assert t in after && t != trip;
      }
    }
  }

  lemma UpdatedStaysApart(a: Trip, b: Trip, w: Write)
    requires !w.OpenRow? && (Precedes(a, b) || Precedes(b, a))
    ensures Precedes(Updated(a, w), Updated(b, w)) || Precedes(Updated(b, w), Updated(a, w))
  {
  }

  lemma UpdateLands(trips: seq<Trip>, w: Write)
    requires OneTripPerMint(trips) && Honest(trips, w) && !w.OpenRow?
    ensures OneTripPerMint(Land(trips, w))
  {
    hide RowChecks, Precedes;
    var after := Land(trips, w);
    forall a, b | a in after && b in after && a != b && a.mint == b.mint ensures Precedes(a, b) || Precedes(b, a) {
      var i :| 0 <= i < |after| && after[i] == a;
      var j :| 0 <= j < |after| && after[j] == b;
      assert trips[i] in trips && trips[j] in trips && trips[i] != trips[j];
      UpdatedStaysApart(trips[i], trips[j], w);
    }
    forall t <- after | t.close.Some? ensures t.openedAt < t.close.value.closedAt {
      var i :| 0 <= i < |after| && after[i] == t;
      assert trips[i] in trips;
    }
  }

  lemma RowsStillCheck(trips: seq<Trip>, w: Write)
    requires AllRowsCheck(trips) && Honest(trips, w)
    ensures AllRowsCheck(Land(trips, w))
  {
    var after := Land(trips, w);
    if !w.OpenRow? {
      forall t <- after ensures RowChecks(t) {
        var i :| 0 <= i < |after| && after[i] == t;
        assert trips[i] in trips;
      }
    }
  }

  /** However late a statement lands, there is still one trip per mint exactly when it is timely. */
  lemma LandingIsTimely(trips: seq<Trip>, w: Write)
    requires OneTripPerMint(trips) && Honest(trips, w)
    ensures OneTripPerMint(Land(trips, w)) <==> Timely(trips, w)
  {
    if w.OpenRow? {
      if !Refused(trips, w.trip) {
        OpenLands(trips, w.trip);
      }
    } else {
      UpdateLands(trips, w);
    }
  }

  /** A statement that lands before any later event is stored is timely. */
  lemma PromptIsTimely(trips: seq<Trip>, trip: Trip)
    requires NoneAfter(trips, Some(trip.openedAt))
    ensures Timely(trips, OpenRow(trip))
  {
    if !Refused(trips, trip) {
      forall t <- trips | t.mint == trip.mint ensures Precedes(t, trip) {
        assert t.close.Some?;
        assert IsEventOf(Event(t.close.value.closedAt, CloseEvent, t), trips);
      }
    }
  }

  // ---- Any sequence of landings -------------------------------------------------------------

  /** The rows after statements landed in this order. */
  function After(writes: seq<Write>): seq<Trip> {
    if writes == [] then [] else Land(After(writes[..|writes| - 1]), writes[|writes| - 1])
  }

  ghost predicate HonestRun(writes: seq<Write>) {
    forall k | 0 <= k < |writes| :: Honest(After(writes[..k]), writes[k])
  }

  ghost predicate TimelyUntil(writes: seq<Write>, n: nat)
    requires n <= |writes|
  {
    forall k | 0 <= k < n :: Timely(After(writes[..k]), writes[k])
  }

  ghost predicate OnePerMintUntil(writes: seq<Write>, n: nat)
    requires n <= |writes|
  {
    forall k | 0 <= k <= n :: OneTripPerMint(After(writes[..k]))
  }

  lemma AfterNext(writes: seq<Write>, k: nat)
    requires k < |writes|
    ensures After(writes[..k + 1]) == Land(After(writes[..k]), writes[k])
  {
    assert writes[..k + 1][..k] == writes[..k];
  }

  lemma OnePerMintNext(writes: seq<Write>, n: nat)
    requires n < |writes|
    ensures OnePerMintUntil(writes, n + 1) <==> OnePerMintUntil(writes, n) && OneTripPerMint(After(writes[..n + 1]))
  {
    hide After, OneTripPerMint;
  }

  lemma TimelyNext(writes: seq<Write>, n: nat)
    requires n < |writes|
    ensures TimelyUntil(writes, n + 1) <==> TimelyUntil(writes, n) && Timely(After(writes[..n]), writes[n])
  {
    hide After, Timely;
  }

  lemma NothingLanded()
    ensures After([]) == [] && OneTripPerMint([]) && AllRowsCheck([])
  {
  }

  lemma {:induction false} UntilTheFirstLateOpen(writes: seq<Write>, n: nat)
    requires HonestRun(writes) && n <= |writes|
    ensures OnePerMintUntil(writes, n) <==> TimelyUntil(writes, n)
    ensures OnePerMintUntil(writes, n) ==> OneTripPerMint(After(writes[..n]))
    ensures AllRowsCheck(After(writes[..n]))
  {
    hide After, Honest, OneTripPerMint, Timely, AllRowsCheck, Land;
    if n == 0 {
      NothingLanded();
      assert writes[..0] == [];
    } else {
      hide OnePerMintUntil, TimelyUntil;
      var k := n - 1;
      UntilTheFirstLateOpen(writes, k);
      OnePerMintNext(writes, k);
      TimelyNext(writes, k);
      AfterNext(writes, k);
      assert Honest(After(writes[..k]), writes[k]);
      RowsStillCheck(After(writes[..k]), writes[k]);
      if OnePerMintUntil(writes, k) {
        LandingIsTimely(After(writes[..k]), writes[k]);
      }
    }
  }

  lemma TimelyBefore(writes: seq<Write>, n: nat, k: nat)
    requires k <= n <= |writes| && TimelyUntil(writes, n)
    ensures TimelyUntil(writes, k)
  {
    hide After, Timely;
  }

  /**
   In whatever order statements land, and however late: there is one trip per
   mint at every time exactly when every open that lands is timely. The stored
   rows then replay at every time.
   */
  lemma LateWritesReplay(writes: seq<Write>, costs: seq<Cost>)
    requires HonestRun(writes) && forall c <- costs :: c.usd >= 0.0
    ensures OnePerMintUntil(writes, |writes|) <==> TimelyUntil(writes, |writes|)
    ensures TimelyUntil(writes, |writes|) ==>
              forall k | 0 <= k <= |writes| :: Replayed(After(writes[..k]), costs).Success?
  {
    hide After, OneTripPerMint, OnePerMintUntil, TimelyUntil, Replayed;
    UntilTheFirstLateOpen(writes, |writes|);
    if TimelyUntil(writes, |writes|) {
      forall k | 0 <= k <= |writes| ensures Replayed(After(writes[..k]), costs).Success? {
        TimelyBefore(writes, |writes|, k);
        UntilTheFirstLateOpen(writes, k);
        ReplaysExactlyWhenRowsCheck(After(writes[..k]), costs);
      }
    }
  }

  // ---- Landings between ticks ----------------------------------------------------------------

  /** No stored event has this stamp. */
  predicate NewStamp(trips: seq<Trip>, at: int) {
    forall t <- trips :: t.openedAt != at && (t.close.Some? ==> t.close.value.closedAt != at)
  }

  /** Timely, with a stamp of its own, and no position too many. */
  predicate InTime(trips: seq<Trip>, w: Write) {
    && Honest(trips, w) && Timely(trips, w)
    && (match w
        case OpenRow(trip) => NewStamp(trips, trip.openedAt)
        case CloseRow(_, close) => NewStamp(trips, close.closedAt)
        case FailRow(_, _) => true)
    && |OpenRows(Land(trips, w))| <= MAX_OPEN_POSITIONS
  }

  /** The events a statement adds when it lands. */
  function NewKeys(trips: seq<Trip>, w: Write): seq<Key> {
    match w
    case OpenRow(trip) => if Refused(trips, trip) then [] else [Key(trip.openedAt, OpenEvent, trip.id)]
    case CloseRow(id, close) =>
      if exists t <- trips :: t.id == id && IsOpen(t) && !t.stuck then [Key(close.closedAt, CloseEvent, id)] else []
    case FailRow(_, _) => []
  }

  /** The log with new events at the place of their stamps. */
  function Logged(produced: seq<Key>, keys: seq<Key>): seq<Key> {
    SortBy(keyOrder, produced + keys)
  }

  lemma KeyOrderTotal()
    ensures Total(keyOrder)
  {
  }

  lemma LoggedNothing(produced: seq<Key>)
    requires forall i, j | 0 <= i < j < |produced| :: produced[i].at < produced[j].at
    ensures Logged(produced, []) == produced
  {
    assert produced + [] == produced;
    KeyOrderTotal();
    SortBySorted(keyOrder, produced);
    SameElements(produced, SortBy(keyOrder, produced));
    SortedUnique(keyOrder, Logged(produced, []), produced);
  }

  lemma LoggedInOrder(produced: seq<Key>, key: Key)
    requires forall i, j | 0 <= i < j < |produced| :: produced[i].at < produced[j].at
    requires forall k <- produced :: k.at != key.at
    ensures var log := Logged(produced, [key]);
            && (forall i, j | 0 <= i < j < |log| :: log[i].at < log[j].at)
            && (forall k :: k in log <==> k in produced + [key])
  {
    var all, log := produced + [key], Logged(produced, [key]);
    KeyOrderTotal();
    SortBySorted(keyOrder, all);
    SameElements(log, all);
    StampsApart(produced, key);
    OnceInMultiset(all);
    forall i, j | 0 <= i < j < |log| ensures log[i].at < log[j].at {
      assert keyOrder(log[i], log[j]) && log[i] in all && log[j] in all;
      if log[i] == log[j] {
        TwiceInMultiset(log, i, j);
      }
    }
  }

  lemma StampsApart(produced: seq<Key>, key: Key)
    requires forall i, j | 0 <= i < j < |produced| :: produced[i].at < produced[j].at
    requires forall k <- produced :: k.at != key.at
    ensures forall i, j | 0 <= i < j < |produced + [key]| :: (produced + [key])[i] != (produced + [key])[j]
    ensures forall x, y | x in produced + [key] && y in produced + [key] && x != y :: x.at != y.at
  {
    forall x, y | x in produced && y in produced && x != y ensures x.at != y.at {
      var i :| 0 <= i < |produced| && produced[i] == x;
      var j :| 0 <= j < |produced| && produced[j] == y;
      assert i < j || j < i;
    }
  }

  lemma NewStampIsNew(trips: seq<Trip>, produced: seq<Key>, at: int)
    requires NewStamp(trips, at) && forall key :: key in produced <==> IsKeyOf(key, trips)
    ensures forall k <- produced :: k.at != at
  {
    forall k <- produced ensures k.at != at {
      var e :| IsEventOf(e, trips) && KeyOf(e) == k;
    }
  }

  lemma OpenIsLogged(trips: seq<Trip>, produced: seq<Key>, trip: Trip)
    requires Produced(produced, trips) && IsOpen(trip) && NewStamp(trips, trip.openedAt)
    ensures Produced(Logged(produced, [Key(trip.openedAt, OpenEvent, trip.id)]), trips + [trip])
  {
    hide IsKeyOf, Logged;
    NewStampIsNew(trips, produced, trip.openedAt);
    LoggedInOrder(produced, Key(trip.openedAt, OpenEvent, trip.id));
    OpenedKeys(trips, trip, produced);
  }

  lemma CloseIsLogged(trips: seq<Trip>, produced: seq<Key>, i: nat, close: TripClose)
    requires Produced(produced, trips) && DistinctIds(trips) && i < |trips| && IsOpen(trips[i])
    requires NewStamp(trips, close.closedAt)
    ensures Produced(Logged(produced, [Key(close.closedAt, CloseEvent, trips[i].id)]),
                     trips[i := trips[i].(close := Some(close))])
  {
    hide IsKeyOf, Logged;
    NewStampIsNew(trips, produced, close.closedAt);
    LoggedInOrder(produced, Key(close.closedAt, CloseEvent, trips[i].id));
    ClosedKeys(trips, i, close, produced);
  }

  /** A statement about a row changes that row only. */
  lemma LandsInRow(trips: seq<Trip>, w: Write, i: nat)
    requires DistinctIds(trips) && !w.OpenRow? && i < |trips| && trips[i].id == w.id
    ensures Land(trips, w) == trips[i := Updated(trips[i], w)]
  {
  }

  lemma LandsNowhere(trips: seq<Trip>, w: Write)
    requires !w.OpenRow? && forall t <- trips :: t.id != w.id || !IsOpen(t) || t.stuck
    ensures Land(trips, w) == trips
  {
  }

  lemma LandIsLogged(trips: seq<Trip>, costs: seq<Cost>, produced: seq<Key>, w: Write)
    requires Recorded(trips, costs, produced) && InTime(trips, w)
    ensures Produced(Logged(produced, NewKeys(trips, w)), Land(trips, w))
  {
    hide Logged, IsKeyOf, RowChecks, OneTripPerMint;
    LoggedNothing(produced);
    RecordedRows(trips, costs, produced);
    if w.OpenRow? {
      if !Refused(trips, w.trip) {
        OpenIsLogged(trips, produced, w.trip);
      }
    } else if i :| 0 <= i < |trips| && trips[i].id == w.id && IsOpen(trips[i]) && !trips[i].stuck {
      LandsInRow(trips, w, i);
      assert trips[i] in trips;
      match w {
        case CloseRow(_, close) => CloseIsLogged(trips, produced, i, close);
        case FailRow(_, cap) => FailureKeepsRecorded(trips, costs, produced, i, Updated(trips[i], w));
      }
    } else {
      LandsNowhere(trips, w);
    }
  }

  lemma LandExtends(trips: seq<Trip>, w: Write)
    ensures Extends(trips, Land(trips, w))
  {
  }

  /** A statement that lands in time between two ticks leaves rows as a tick needs them. */
  lemma LandKeepsRecorded(trips: seq<Trip>, costs: seq<Cost>, produced: seq<Key>, w: Write)
    requires Recorded(trips, costs, produced) && InTime(trips, w)
    ensures Recorded(Land(trips, w), costs, Logged(produced, NewKeys(trips, w)))
    ensures Extends(trips, Land(trips, w))
  {
    LandIsLogged(trips, costs, produced, w);
    LandExtends(trips, w);
    hide Logged, Produced, RowChecks, OneTripPerMint, Timely, NewStamp, NewKeys, Land, Extends;
    LandingIsTimely(trips, w);
    RowsStillCheck(trips, w);
  }

  // ---- An open that lands too late ----------------------------------------------------------

  lemma SortedStays(trips: seq<Trip>)
    requires DistinctIds(trips) && Sorted(byKey, Events(trips))
    ensures Timeline(trips) == Events(trips)
  {
    KeyIsTotal();
    KeyDistinguishes(trips);
    SortBySorted(byKey, Events(trips));
    SameElements(Events(trips), SortBy(byKey, Events(trips)));
    SortedUnique(byKey, Timeline(trips), Events(trips));
  }

  /** `late` was stamped before `trip` of the same mint was opened and closed. */
  predicate Overlaps(late: Trip, trip: Trip) {
    && late.id != trip.id && late.mint == trip.mint && IsOpen(late) && trip.close.Some?
    && RowChecks(late) && RowChecks(trip)
    && late.openedAt < trip.openedAt < trip.close.value.closedAt
  }

  /** The cost that selling `trip` takes when `late`'s lot comes first. */
  function CostAfter(late: Trip, trip: Trip): real
    requires Overlaps(late, trip)
  {
    Consume([PositionOf(late), PositionOf(trip)], trip.mint, trip.tokens).cost
  }

  lemma TwoRows(a: Trip, b: Trip)
    ensures Events([a, b]) == EventsOf(a) + EventsOf(b)
  {
    assert [a, b][..1] == [a] && [a][..0] == [];
    assert Events([a]) == EventsOf(a);
  }

  lemma OverlapTimeline(late: Trip, trip: Trip)
    requires Overlaps(late, trip)
    ensures Timeline([late, trip]) == [Event(late.openedAt, OpenEvent, late), Event(trip.openedAt, OpenEvent, trip),
                                       Event(trip.close.value.closedAt, CloseEvent, trip)]
  {
    hide Events, RowChecks;
    TwoRows(late, trip);
    SortedStays([late, trip]);
  }

  /** The book after both lots were opened. */
  function BothOpened(late: Trip, trip: Trip): Book {
    EMPTY_BOOK.(lots := [PositionOf(late), PositionOf(trip)], lastEventAt := Some(trip.openedAt))
  }

  lemma PlayLast(events: seq<Event>, e: Event)
    ensures Play(events + [e]) == PlayOn(Play(events), e)
    ensures Play([]) == Success(EMPTY_BOOK)
  {
    assert (events + [e])[..|events|] == events;
  }

  lemma BothLotsOpened(late: Trip, trip: Trip)
    requires Overlaps(late, trip)
    ensures Play([Event(late.openedAt, OpenEvent, late), Event(trip.openedAt, OpenEvent, trip)])
         == Success(BothOpened(late, trip))
  {
    hide Play;
    var first, second := Event(late.openedAt, OpenEvent, late), Event(trip.openedAt, OpenEvent, trip);
    PlayLast([], first);
    PlayLast([first], second);
    assert [] + [first] == [first] && [first] + [second] == [first, second];
    assert [] + [PositionOf(late)] == [PositionOf(late)];
    assert [PositionOf(late)] + [PositionOf(trip)] == [PositionOf(late), PositionOf(trip)];
  }

  lemma BothHeld(a: Position, b: Position, mint: string)
    requires a.mint == mint && b.mint == mint
    ensures Held([a, b], mint) == a.tokens + b.tokens
  {
    assert [a, b][1..] == [b] && [b][1..] == [];
    assert Held([b], mint) == b.tokens;
  }

  lemma SoldFromBoth(late: Trip, trip: Trip)
    requires Overlaps(late, trip)
    ensures Sound(BothOpened(late, trip).lots)
    ensures var close := trip.close.value;
            var sale := CloseLots(BothOpened(late, trip), trip.mint, trip.tokens, close.usdOut, close.exitFeesUsd, close.closedAt);
            sale.Success? && sale.value.1 == close.usdOut - close.exitFeesUsd - CostAfter(late, trip)
  {
    hide Consume, Held;
    BothHeld(PositionOf(late), PositionOf(trip), trip.mint);
  }

  /** The replay of the two rows, late one first. */
  lemma OverlapReplayed(late: Trip, trip: Trip)
    requires Overlaps(late, trip)
    ensures Replayed([late, trip], []).Success? <==> CostAfter(late, trip) == trip.costUsd
    ensures Replayed([late, trip], []).Failure? ==> Replayed([late, trip], []) == Failure(Mismatch)
  {
    hide Play, Timeline, Consume, Held, CostAfter, BothOpened;
    var first, second := Event(late.openedAt, OpenEvent, late), Event(trip.openedAt, OpenEvent, trip);
    var third := Event(trip.close.value.closedAt, CloseEvent, trip);
    OverlapTimeline(late, trip);
    BothLotsOpened(late, trip);
    PlayLast([first, second], third);
    assert [first, second] + [third] == [first, second, third];
    SoldFromBoth(late, trip);
  }

  /**
   A late open under a trip of its mint that has closed since: the two rows
   replay exactly when selling first in, first out happens to cost the same.
   Otherwise the stored result is contradicted.
   */
  lemma OverlapReplaysExactly(late: Trip, trip: Trip)
    requires Overlaps(late, trip)
    ensures Land([trip], OpenRow(late)) == [trip, late] && !Timely([trip], OpenRow(late))
    ensures Replayed([trip, late], []).Success? <==> CostAfter(late, trip) == trip.costUsd
    ensures Replayed([trip, late], []).Failure? ==> Replayed([trip, late], []) == Failure(Mismatch)
  {
    hide Replayed, CostAfter;
    assert trip in [trip] && !Precedes(trip, late);
    assert multiset([trip, late]) == multiset([late, trip]);
    ReplayIgnoresRowOrder([trip, late], [late, trip], [], []);
    OverlapReplayed(late, trip);
  }

  /** A purchase that was abandoned, another of the same mint bought and sold meanwhile, and then the first lands. */
  function Abandoned(sold: Trip, close: TripClose, late: Trip): seq<Write> {
    [OpenRow(sold), CloseRow(sold.id, close), OpenRow(late)]
  }

  lemma AbandonedLands(sold: Trip, close: TripClose, late: Trip)
    requires IsOpen(sold) && !sold.stuck && Overlaps(late, sold.(close := Some(close)))
    ensures HonestRun(Abandoned(sold, close, late)) && !TimelyUntil(Abandoned(sold, close, late), 3)
    ensures After(Abandoned(sold, close, late)) == [sold.(close := Some(close)), late]
  {
    hide After, RowChecks;
    var writes, trip := Abandoned(sold, close, late), sold.(close := Some(close));
    assert RowChecks(sold) by {
      ClosedRowChecks(sold, close);
    }
    assert writes[..0] == [] && writes[..3] == writes;
    NothingLanded();
    AfterNext(writes, 0);
    assert After(writes[..1]) == [sold];
    AfterNext(writes, 1);
    assert After(writes[..2]) == [trip];
    AfterNext(writes, 2);
    OverlapReplaysExactly(late, trip);
  }

  lemma ClosedRowChecks(trip: Trip, close: TripClose)
    requires IsOpen(trip) && RowChecks(trip.(close := Some(close)))
    ensures RowChecks(trip)
  {
  }

  /** Two purchases of ten tokens, for five and for seven: the late one spoils the stored result of the other. */
  lemma LateOpenSpoilsReplay() returns (writes: seq<Write>)
    ensures HonestRun(writes)
    ensures !TimelyUntil(writes, |writes|) && Replayed(After(writes), []) == Failure(Mismatch)
  {
    hide After, Replayed, CostAfter;
    var close := TripClose(3, 20.0, 1.0, 12.0, "take_profit");
    var sold := Trip(2, "M", 1, 10.0, 7.0, 0.0, 2, 0, false, None);
    var late := Trip(1, "M", 1, 10.0, 5.0, 0.0, 1, 0, false, None);
    writes := Abandoned(sold, close, late);
    AbandonedLands(sold, close, late);
    FirstLotCosts(late, sold.(close := Some(close)));
    OverlapReplaysExactly(late, sold.(close := Some(close)));
  }

  lemma FirstLotCosts(late: Trip, trip: Trip)
    requires Overlaps(late, trip) && late.tokens == trip.tokens
    ensures CostAfter(late, trip) == late.costUsd
  {
    var lots := [PositionOf(late), PositionOf(trip)];
    assert lots[1..] == [PositionOf(trip)];
    assert Consume(lots[1..], trip.mint, 0.0).cost == 0.0;
  }
}
