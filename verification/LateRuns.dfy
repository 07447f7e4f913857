/**
 Whole runs of landings, timely or not: exactly when the stored rows still
 replay. A purchase that lands too late is decided on the spot, by the trips of
 its mint that were opened after it and sold before it landed.
 */
module LateRuns {
  import opened Wrappers
  import opened Sorting
  import opened PaperLedger
  import opened Replay
  import opened History
  import opened MintReplay
  import opened CarriedLots
  import opened PaperRows
  import opened LateWrites

  // ---- Any run ----------------------------------------------------------------------------

  /** What a table keeps whatever lands. */
  ghost predicate TableChecks(trips: seq<Trip>) {
    && DistinctIds(trips) && AllRowsCheck(trips)
    && (forall t <- trips :: t.close.Some? ==> t.openedAt < t.close.value.closedAt)
  }

  lemma LandKeepsTable(trips: seq<Trip>, w: Write)
    requires TableChecks(trips) && Honest(trips, w)
    ensures TableChecks(Land(trips, w))
  {
    hide RowChecks;
    RowsStillCheck(trips, w);
    var after := Land(trips, w);
    if w.OpenRow? {
      if !Refused(trips, w.trip) {
        IdsWithLate(trips, w.trip);
      }
    } else {
      forall t <- after | t.close.Some? ensures t.openedAt < t.close.value.closedAt {
        var i :| 0 <= i < |after| && after[i] == t;
        assert trips[i] in trips;
      }
    }
  }

  lemma NothingChecks()
    ensures TableChecks(After([]))
  {
  }

  lemma {:induction false} RunKeepsTable(writes: seq<Write>, n: nat)
    requires HonestRun(writes) && n <= |writes|
    ensures TableChecks(After(writes[..n]))
  {
    hide After, Honest, TableChecks, Land;
    if n == 0 {
      NothingChecks();
      assert writes[..0] == [];
    } else {
      RunKeepsTable(writes, n - 1);
      AfterNext(writes, n - 1);
      assert Honest(After(writes[..n - 1]), writes[n - 1]);
      LandKeepsTable(After(writes[..n - 1]), writes[n - 1]);
    }
  }

  /**
   In whatever order statements land, and however late: at every time the stored
   rows replay exactly when those of each mint do, every sale taken first in,
   first out from the lots of its mint and costing what its row says.
   */
  lemma LandedRowsReplayExactly(writes: seq<Write>, costs: seq<Cost>, k: nat)
    requires HonestRun(writes) && k <= |writes| && forall c <- costs :: c.usd >= 0.0
    ensures AllRowsCheck(After(writes[..k]))
    ensures Replayed(After(writes[..k]), costs).Success? <==>
            forall mint: string :: MintReplayed(After(writes[..k]), mint).Success?
  {
    hide After, Replayed, MintReplayed, LotsOf;
    RunKeepsTable(writes, k);
    ReplaysExactlyWhenEveryMintDoes(After(writes[..k]), costs);
  }

  // ---- One purchase that lands too late ---------------------------------------------------------

  function Others(trips: seq<Trip>, i: nat): seq<Trip>
    requires i < |trips|
  {
    trips[..i] + trips[i + 1..]
  }

  /** Row `i` is `late`, sold or not, and `meanwhile` are the trips it was opened under. */
  ghost predicate LateAt(trips: seq<Trip>, i: nat, late: Trip, meanwhile: seq<Trip>) {
    && i < |trips| && IsOpen(late)
    && OneLateRow(Others(trips, i), trips[i])
    && PositionOf(trips[i]) == PositionOf(late) && trips[i].id == late.id
    && Meanwhile(Others(trips, i), trips[i]) == meanwhile
  }

  lemma {:induction false} MeanwhileChecks(trips: seq<Trip>, i: nat, late: Trip, meanwhile: seq<Trip>)
    requires LateAt(trips, i, late, meanwhile)
    ensures RowChecks(late) && forall t <- meanwhile :: RowChecks(t)
  {
    MeanwhileRows(Others(trips, i), trips[i]);
  }

  lemma RowTakenOut(trips: seq<Trip>, i: nat)
    requires i < |trips|
    ensures multiset(trips) == multiset(Others(trips, i) + [trips[i]])
  {
    assert trips == trips[..i] + [trips[i]] + trips[i + 1..];
  }

  lemma LateAtReplays(trips: seq<Trip>, i: nat, late: Trip, meanwhile: seq<Trip>, costs: seq<Cost>)
    requires LateAt(trips, i, late, meanwhile) && forall c <- costs :: c.usd >= 0.0
    ensures RowChecks(late) && forall t <- meanwhile :: RowChecks(t)
    ensures Replayed(trips, costs).Success? <==> Carries([PositionOf(late)], meanwhile)
    ensures Replayed(trips, costs).Failure? ==> Replayed(trips, costs) == Failure(Mismatch)
  {
    hide Replayed, RowChecks, Meanwhile, Outlasts;
    MeanwhileChecks(trips, i, late, meanwhile);
    RowTakenOut(trips, i);
    IdsWithLate(Others(trips, i), trips[i]);
    ReplayIgnoresRowOrder(Others(trips, i) + [trips[i]], trips, costs, costs);
    LateRowReplaysExactly(Others(trips, i), trips[i], costs);
  }

  lemma LateLands(trips: seq<Trip>, late: Trip)
    requires OneTripPerMint(trips) && AllRowsCheck(trips)
    requires Honest(trips, OpenRow(late)) && !Refused(trips, late)
    ensures LateAt(trips + [late], |trips|, late, Meanwhile(trips, late))
  {
    hide RowChecks, OneTripPerMint, AllRowsCheck, Meanwhile;
    assert Others(trips + [late], |trips|) == trips;
  }

  lemma OthersNext(trips: seq<Trip>, i: nat, trip: Trip)
    requires i < |trips|
    ensures Others(trips + [trip], i) == Others(trips, i) + [trip]
    ensures forall t <- Others(trips, i) :: t in trips
  {
    assert (trips + [trip])[i + 1..] == trips[i + 1..] + [trip];
  }

  lemma MeanwhileNext(others: seq<Trip>, late: Trip, trip: Trip)
    requires !OpenedMeanwhile(late)(trip)
    ensures Meanwhile(others + [trip], late) == Meanwhile(others, late)
  {
    FilterLast(OpenedMeanwhile(late), others, trip);
  }

  lemma OpenKeepsLate(trips: seq<Trip>, i: nat, late: Trip, meanwhile: seq<Trip>, w: Write)
    requires LateAt(trips, i, late, meanwhile) && w.OpenRow? && Honest(trips, w) && Timely(trips, w)
    ensures LateAt(Land(trips, w), i, late, meanwhile)
  {
    hide RowChecks, Meanwhile;
    if !Refused(trips, w.trip) {
      OthersNext(trips, i, w.trip);
      assert trips[i] in trips;
      OpenLands(Others(trips, i), w.trip) by {
        assert !Refused(Others(trips, i), w.trip);
      }
      MeanwhileNext(Others(trips, i), trips[i], w.trip);
    }
  }

  /** The sale of the late row itself is stamped after every other close of its mint. */
  ghost predicate SoldLast(trips: seq<Trip>, late: Trip, w: Write) {
    w.CloseRow? && w.id == late.id ==>
      forall t <- trips | t.mint == late.mint && t.close.Some? :: t.close.value.closedAt < w.close.closedAt
  }

  lemma OthersUpdated(trips: seq<Trip>, i: nat, w: Write)
    requires i < |trips| && !w.OpenRow?
    ensures Others(Land(trips, w), i) == Land(Others(trips, i), w)
  {
  }

  /** Statements about rows leave the trips `late` was opened under alone. */
  lemma {:induction false} MeanwhileUpdated(others: seq<Trip>, late: Trip, late': Trip, w: Write)
    requires !w.OpenRow?
    requires forall t <- others :: OpenedMeanwhile(late')(Updated(t, w)) == OpenedMeanwhile(late)(t)
    requires forall t <- others | OpenedMeanwhile(late)(t) :: t.close.Some?
    ensures Filter(OpenedMeanwhile(late'), Land(others, w)) == Filter(OpenedMeanwhile(late), others)
  {
    if others != [] {
      hide OpenedMeanwhile;
      assert others[0] in others && forall t <- others[1..] :: t in others;
      assert Land(others, w)[1..] == Land(others[1..], w);
      MeanwhileUpdated(others[1..], late, late', w);
    }
  }

  lemma SameStatement(trips: seq<Trip>, i: nat, late: Trip, w: Write)
    requires i < |trips| && Honest(trips, w) && !w.OpenRow?
    requires SoldLast(trips, late, w) && late.mint == trips[i].mint && late.id == trips[i].id
    ensures Honest(Others(trips, i) + [trips[i]], w) && SoldLast(Others(trips, i) + [trips[i]], trips[i], w)
  {
    hide RowChecks;
    assert forall t <- Others(trips, i) + [trips[i]] :: t in trips;
  }

  /** A statement about rows leaves `late` after all trips it was opened under. */
  lemma UpdateOutlasts(others: seq<Trip>, late: Trip, w: Write)
    requires OneLateRow(others, late) && Honest(others + [late], w) && SoldLast(others + [late], late, w) && !w.OpenRow?
    ensures Outlasts(Updated(late, w), Land(others, w))
  {
    hide RowChecks;
    var after := Land(others, w);
    assert late in others + [late];
    forall t' <- after | t'.mint == late.mint
      ensures || Precedes(Updated(late, w), t')
              || (t'.close.Some? && (Updated(late, w).close.Some? ==> NotAfter(CloseOf(t'), CloseOf(Updated(late, w)))))
    {
      var k :| 0 <= k < |after| && after[k] == t';
      assert others[k] in others && others[k] in others + [late];
    }
  }

  lemma UpdateKeepsMeanwhile(others: seq<Trip>, late: Trip, w: Write)
    requires OneLateRow(others, late) && Honest(others + [late], w) && SoldLast(others + [late], late, w) && !w.OpenRow?
    ensures Meanwhile(Land(others, w), Updated(late, w)) == Meanwhile(others, late)
  {
    hide RowChecks, Land;
    assert late in others + [late] && forall t <- others :: t in others + [late];
    forall t <- others ensures OpenedMeanwhile(Updated(late, w))(Updated(t, w)) == OpenedMeanwhile(late)(t)
                       ensures OpenedMeanwhile(late)(t) ==> t.close.Some?
    {
    }
    MeanwhileUpdated(others, late, Updated(late, w), w);
  }

  lemma UpdateKeepsRow(others: seq<Trip>, late: Trip, w: Write)
    requires OneLateRow(others, late) && Honest(others + [late], w) && SoldLast(others + [late], late, w) && !w.OpenRow?
    ensures OneLateRow(Land(others, w), Updated(late, w))
  {
    UpdateOutlasts(others, late, w);
    hide RowChecks, Outlasts, Precedes;
    assert late in others + [late] && forall t <- others :: t in others + [late];
    UpdateLands(others, w);
    RowsStillCheck(others, w);
    LateStillChecks(others, late, w);
    var after := Land(others, w);
    forall t <- after ensures t.id != Updated(late, w).id {
      var k :| 0 <= k < |after| && after[k] == t;
      assert others[k] in others;
    }
  }

  lemma LateStillChecks(others: seq<Trip>, late: Trip, w: Write)
    requires RowChecks(late) && Honest(others + [late], w) && !w.OpenRow?
    ensures RowChecks(Updated(late, w))
  {
    assert late in others + [late];
  }

  lemma UpdateKeepsLate(trips: seq<Trip>, i: nat, late: Trip, meanwhile: seq<Trip>, w: Write)
    requires LateAt(trips, i, late, meanwhile) && !w.OpenRow? && Honest(trips, w) && SoldLast(trips, late, w)
    ensures LateAt(Land(trips, w), i, late, meanwhile)
  {
    hide RowChecks, Meanwhile, Outlasts, Precedes, OneLateRow;
    SameStatement(trips, i, late, w);
    OthersUpdated(trips, i, w);
    UpdateKeepsMeanwhile(Others(trips, i), trips[i], w);
    UpdateKeepsRow(Others(trips, i), trips[i], w);
  }

  // ---- Runs with one late purchase ---------------------------------------------------------------

  /** From the `n`-th landing on every purchase is timely, and the late row is sold last. */
  ghost predicate SettledSince(writes: seq<Write>, n: nat, late: Trip)
    requires n <= |writes|
  {
    forall k | n <= k < |writes| ::
      Timely(After(writes[..k]), writes[k]) && SoldLast(After(writes[..k]), late, writes[k])
  }

  lemma {:induction false} LateStays(writes: seq<Write>, n: nat, k: nat, i: nat, late: Trip, meanwhile: seq<Trip>)
    requires HonestRun(writes) && n <= k <= |writes| && SettledSince(writes, n, late)
    requires LateAt(After(writes[..n]), i, late, meanwhile)
    ensures LateAt(After(writes[..k]), i, late, meanwhile)
    decreases k
  {
    hide After, Honest, LateAt, Timely, Land, SoldLast;
    if k > n {
      LateStays(writes, n, k - 1, i, late, meanwhile);
      AfterNext(writes, k - 1);
      var before, w := After(writes[..k - 1]), writes[k - 1];
      assert Honest(before, w) && Timely(before, w) && SoldLast(before, late, w);
      if w.OpenRow? {
        OpenKeepsLate(before, i, late, meanwhile, w);
      } else {
        UpdateKeepsLate(before, i, late, meanwhile, w);
      }
    }
  }

  /**
   Every statement of a run lands in time but perhaps the `n`-th, a purchase.
   From then on, at every time, also after its row was itself sold and the mint
   bought again, the stored rows replay exactly when the trips opened after its
   stamp and sold before it landed each cost what their rows say, its lot
   carried through their sales. A run that has gone wrong never recovers.
   */
  lemma OneLateOpenDecides(writes: seq<Write>, n: nat, late: Trip, costs: seq<Cost>, k: nat)
    requires HonestRun(writes) && n < k <= |writes| && forall c <- costs :: c.usd >= 0.0
    requires TimelyUntil(writes, n) && writes[n] == OpenRow(late) && !Refused(After(writes[..n]), late)
    requires SettledSince(writes, n + 1, late)
    ensures RowChecks(late) && forall t <- Meanwhile(After(writes[..n]), late) :: RowChecks(t)
    ensures Replayed(After(writes[..k]), costs).Success? <==>
            Carries([PositionOf(late)], Meanwhile(After(writes[..n]), late))
    ensures Replayed(After(writes[..k]), costs).Failure? ==> Replayed(After(writes[..k]), costs) == Failure(Mismatch)
  {
    hide After, Honest, LateAt, TimelyUntil, OnePerMintUntil, Replayed, Meanwhile, Refused;
    hide RowChecks, AllRowsCheck, OneTripPerMint;
    var before := After(writes[..n]);
    UntilTheFirstLateOpen(writes, n);
    assert Honest(before, writes[n]);
    LateLands(before, late);
    AfterNext(writes, n);
    LateStays(writes, n + 1, k, |before|, late, Meanwhile(before, late));
    LateAtReplays(After(writes[..k]), |before|, late, Meanwhile(before, late), costs);
  }

  /** A purchase that lands in time, or inside a trip that is sold already, was opened under nothing. */
  lemma NothingMeanwhile(trips: seq<Trip>, late: Trip)
    requires forall t <- trips | t.mint == late.mint :: OpenedBefore(t, late)
    ensures Meanwhile(trips, late) == []
    ensures RowChecks(late) ==> Carries([PositionOf(late)], Meanwhile(trips, late))
  {
    NoneKept(OpenedMeanwhile(late), trips);
  }

  /** Under sold trips that were all opened before it, a late purchase does no harm, now or later. */
  lemma InsideASoldTripIsHarmless(writes: seq<Write>, n: nat, late: Trip, costs: seq<Cost>, k: nat)
    requires HonestRun(writes) && n < k <= |writes| && forall c <- costs :: c.usd >= 0.0
    requires TimelyUntil(writes, n) && writes[n] == OpenRow(late) && !Refused(After(writes[..n]), late)
    requires SettledSince(writes, n + 1, late)
    requires forall t <- After(writes[..n]) | t.mint == late.mint :: OpenedBefore(t, late)
    ensures Replayed(After(writes[..k]), costs).Success?
  {
    hide After, Replayed, Meanwhile, Carries, TimelyUntil, SettledSince, Refused, HonestRun, RowChecks;
    OneLateOpenDecides(writes, n, late, costs, k);
    NothingMeanwhile(After(writes[..n]), late);
  }

  // ---- One at a time is not enough -----------------------------------------------------------

  /** Part of the oldest lot: the rest of it and all younger lots stay. */
  lemma SoldFromOldest(lot: Position, younger: seq<Position>, trip: Trip)
    requires RowChecks(trip) && trip.mint == lot.mint && Sound([lot] + younger) && trip.tokens < lot.tokens
    ensures lot.tokens > 0.0
    ensures var sale, share := Consume([lot] + younger, trip.mint, trip.tokens), Share(lot, trip.tokens);
            && sale.cost == share
            && sale.lots == [lot.(tokens := lot.tokens - trip.tokens, costUsd := lot.costUsd - share)] + younger
  {
    hide Share;
    var lots := [lot] + younger;
    assert lots[0] == lot && lots[1..] == younger;
    assert Consume(younger, trip.mint, 0.0) == Sale(younger, 0.0, None);
  }

  const THIRD := 0.333333333333

  lemma Thirds(lot: Position)
    ensures lot.tokens == 3.0 && lot.costUsd == 1.0 ==> Share(lot, 1.0) == THIRD
    ensures lot.tokens == 2.0 && lot.costUsd == 1.0 - THIRD ==> Share(lot, 1.0) == 0.333333333334
  {
    assert (1.0 * (1.0 / 3.0) * 1000000000000.0).Floor == 333333333333;
    assert ((1.0 - THIRD) * (1.0 / 2.0) * 1000000000000.0).Floor == 333333333333;
  }

  /** The `n`-th trip of one token for a third. */
  function TripOfAThird(n: nat): Trip {
    Trip(n, "M", 1, 1.0, THIRD, 0.0, 2 * n, 0, false, Some(TripClose(2 * n + 1, 1.0, 0.0, 1.0 - THIRD, "take_profit")))
  }

  const THREE_TOKENS := Trip(1, "M", 1, 3.0, 1.0, 0.0, 1, 0, false, None)

  lemma FirstThird(trip: Trip)
    requires RowChecks(trip) && trip.mint == "M" && trip.tokens == 1.0
    ensures SoldFrom([PositionOf(THREE_TOKENS)], trip).cost == THIRD
    ensures LeftOver([PositionOf(THREE_TOKENS)], trip) ==
            [PositionOf(THREE_TOKENS).(tokens := 2.0, costUsd := 1.0 - THIRD), PositionOf(trip)]
  {
    hide Consume, Share;
    var lot := PositionOf(THREE_TOKENS);
    Thirds(lot);
    SoldFromOldest(lot, [PositionOf(trip)], trip);
    assert [lot] + [PositionOf(trip)] == [PositionOf(THREE_TOKENS)] + [PositionOf(trip)];
    RemainingAll([lot.(tokens := 2.0, costUsd := 1.0 - THIRD)] + [PositionOf(trip)]);
  }

  lemma SecondThird(first: Position, trip: Trip)
    requires RowChecks(trip) && trip.mint == "M" && trip.tokens == 1.0 && Sound([first])
    ensures var lots := [PositionOf(THREE_TOKENS).(tokens := 2.0, costUsd := 1.0 - THIRD), first];
            SoldFrom(lots, trip).cost == 0.333333333334
  {
    hide Consume, Share;
    var lot := PositionOf(THREE_TOKENS).(tokens := 2.0, costUsd := 1.0 - THIRD);
    Thirds(lot);
    assert first in [first];
    SoldFromOldest(lot, [first, PositionOf(trip)], trip);
    assert [lot, first] + [PositionOf(trip)] == [lot] + [first, PositionOf(trip)];
  }

  lemma ThirdsDiffer(a: Trip, b: Trip)
    requires RowChecks(a) && RowChecks(b) && a.mint == "M" && b.mint == "M" && a.tokens == 1.0 && b.tokens == 1.0
    requires a.costUsd == THIRD && b.costUsd == THIRD
    ensures SoldFrom([PositionOf(THREE_TOKENS)], a).cost == a.costUsd
    ensures SoldFrom([PositionOf(THREE_TOKENS)], b).cost == b.costUsd
    ensures !Carries([PositionOf(THREE_TOKENS)], [a, b])
  {
    hide Carries, SoldFrom, LeftOver;
    FirstThird(a);
    FirstThird(b);
    SecondThird(PositionOf(a), b);
    CarriesTwo([PositionOf(THREE_TOKENS)], a, b);
  }

  lemma ThirdsApart()
    ensures var a, b := TripOfAThird(2), TripOfAThird(3);
            && a.id == 2 && b.id == 3 && a.tokens == 1.0 && b.tokens == 1.0 && a.costUsd == THIRD && b.costUsd == THIRD
            && RowChecks(a) && RowChecks(b) && Precedes(a, b) && OpenedBefore(a, b)
            && Overlaps(THREE_TOKENS, a) && Overlaps(THREE_TOKENS, b)
            && OpenedMeanwhile(THREE_TOKENS)(a) && OpenedMeanwhile(THREE_TOKENS)(b)
  {
  }

  lemma PairUnder(late: Trip, a: Trip, b: Trip)
    requires Overlaps(late, a) && Overlaps(late, b) && a.id != b.id && Precedes(a, b)
    ensures OneLateRow([a, b], late)
  {
    hide RowChecks;
  }

  lemma PairMeanwhile(late: Trip, a: Trip, b: Trip)
    requires OpenedMeanwhile(late)(a) && OpenedMeanwhile(late)(b) && OpenedBefore(a, b)
    ensures Meanwhile([a, b], late) == [a, b]
  {
    hide OpenedMeanwhile, OpenedBefore;
    AllKept(OpenedMeanwhile(late), [a, b]);
    assert [a, b][1..] == [b] && [b][1..] == [];
    assert SortBy(byOpening, [b]) == [b];
    assert byOpening(a, b);
  }

  lemma CarriesNext(lots: seq<Position>, trip: Trip, rest: seq<Trip>)
    requires Sound(lots) && RowChecks(trip) && forall t <- rest :: RowChecks(t)
    ensures Carries(lots, [trip] + rest) <==>
            SoldFrom(lots, trip).cost == trip.costUsd && Carries(LeftOver(lots, trip), rest)
    ensures Carries(lots, [])
  {
    hide SoldFrom, LeftOver, RowChecks;
    assert ([trip] + rest)[1..] == rest;
  }

  lemma CarriesTwo(lots: seq<Position>, a: Trip, b: Trip)
    requires Sound(lots) && RowChecks(a) && RowChecks(b)
    ensures Carries(lots, [a, b]) <==>
            SoldFrom(lots, a).cost == a.costUsd && SoldFrom(LeftOver(lots, a), b).cost == b.costUsd
  {
    hide Carries, SoldFrom, LeftOver, RowChecks;
    assert [a, b] == [a] + [b] && [b] == [b] + [];
    CarriesNext(lots, a, [b]);
    CarriesNext(LeftOver(lots, a), b, []);
    CarriesNext(LeftOver(LeftOver(lots, a), b), b, []);
  }

  lemma AgreesAlone(late: Trip, trip: Trip)
    requires Overlaps(late, trip) && SoldFrom([PositionOf(late)], trip).cost == trip.costUsd
    ensures Replayed([trip, late], []).Success?
  {
    hide Replayed, Consume, RowChecks;
    assert [PositionOf(late)] + [PositionOf(trip)] == [PositionOf(late), PositionOf(trip)];
    OverlapReplaysExactly(late, trip);
  }

  lemma AllDoNot(late: Trip, a: Trip, b: Trip)
    requires OneLateRow([a, b], late) && Meanwhile([a, b], late) == [a, b]
    requires RowChecks(a) && RowChecks(b) && !Carries([PositionOf(late)], [a, b])
    ensures Replayed([a, b, late], []) == Failure(Mismatch)
  {
    hide Replayed, Carries, OneLateRow, Meanwhile, RowChecks;
    LateRowReplaysExactly([a, b], late, []);
    assert [a, b] + [late] == [a, b, late];
  }

  /**
   Two later trips can each agree with a late row on their own, and the table of
   all three not replay: what the first sale leaves is rounded, and the second
   sale is taken from that.
   */
  lemma EachAgreesAllDoNot() returns (late: Trip, first: Trip, second: Trip)
    ensures OneLateRow([first, second], late)
    ensures Replayed([first, late], []).Success? && Replayed([second, late], []).Success?
    ensures Replayed([first, second, late], []) == Failure(Mismatch)
  {
    hide Replayed, Carries, OneLateRow, Meanwhile, TripOfAThird;
    hide RowChecks, Precedes, SoldFrom, OpenedMeanwhile, OpenedBefore;
    late, first, second := THREE_TOKENS, TripOfAThird(2), TripOfAThird(3);
    ThirdsApart();
    PairUnder(late, first, second);
    PairMeanwhile(late, first, second);
    ThirdsDiffer(first, second);
    AgreesAlone(late, first);
    AgreesAlone(late, second);
    AllDoNot(late, first, second);
  }
}
