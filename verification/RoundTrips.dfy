/**
 Round trips of the paper ledger (`crates/onchain/src/paper.rs`), told by the
 history alone: a trip of a mint runs from the first buy while nothing of it was
 held to the sale of the last token, in however many parts.
 */
module RoundTrips {
  import opened Wrappers
  import opened PaperLedger

  /** What is held of a mint, since when, and the money its trip has moved so far. */
  datatype RoundTrip = RoundTrip(held: real, openedAt: Option<int>, flow: real)

  const NOTHING_HELD := RoundTrip(0.0, None, 0.0)

  function Bought(trip: RoundTrip, lot: Position): RoundTrip {
    if trip.held == 0.0 then RoundTrip(lot.tokens, Some(lot.openedAt), -lot.costUsd)
    else trip.(held := trip.held + lot.tokens, flow := trip.flow - lot.costUsd)
  }

  function Sold(trip: RoundTrip, tokens: real, proceeds: real): RoundTrip {
    if trip.held == tokens then NOTHING_HELD
    else trip.(held := trip.held - tokens, flow := trip.flow + proceeds)
  }

  /** The trip of a mint that is open after a history. */
  function TripOf(entries: seq<Entry>, mint: string): RoundTrip {
    if entries == [] then NOTHING_HELD
    else
      var before := TripOf(entries[..|entries| - 1], mint);
      match entries[|entries| - 1]
      case Buy(lot) => if lot.mint == mint then Bought(before, lot) else before
      case Sell(sold, tokens, usdOut, feesUsd, _) => if sold == mint then Sold(before, tokens, usdOut - feesUsd) else before
  }

  // ---- The lots of one mint -----------------------------------------------------------

  function CostIn(lots: seq<Position>, mint: string): real {
    if lots == [] then 0.0 else (if lots[0].mint == mint then lots[0].costUsd else 0.0) + CostIn(lots[1..], mint)
  }

  function FirstOpened(lots: seq<Position>, mint: string): Option<int> {
    if lots == [] then None
    else if lots[0].mint == mint then Some(lots[0].openedAt)
    else FirstOpened(lots[1..], mint)
  }

  lemma {:induction false} LotAppended(lots: seq<Position>, lot: Position, mint: string)
    requires Sound(lots)
    ensures Held(lots + [lot], mint) == Held(lots, mint) + if lot.mint == mint then lot.tokens else 0.0
    ensures CostIn(lots + [lot], mint) == CostIn(lots, mint) + if lot.mint == mint then lot.costUsd else 0.0
    ensures FirstOpened(lots + [lot], mint) ==
            if lot.mint == mint && Held(lots, mint) == 0.0 then Some(lot.openedAt) else FirstOpened(lots, mint)
  {
    if lots == [] {
      assert lots + [lot] == [lot];
    } else {
      assert (lots + [lot])[1..] == lots[1..] + [lot];
      LotAppended(lots[1..], lot, mint);
      HeldNonnegative(lots[1..], mint);
      NoneFirst(lots[1..], mint);
    }
  }

  lemma {:induction false} NoneFirst(lots: seq<Position>, mint: string)
    requires Sound(lots)
    ensures Held(lots, mint) == 0.0 <==> FirstOpened(lots, mint).None?
    ensures Held(lots, mint) == 0.0 ==> CostIn(lots, mint) == 0.0
  {
    if lots != [] {
      NoneFirst(lots[1..], mint);
      HeldNonnegative(lots[1..], mint);
    }
  }

  /** The cost a sale takes leaves the lots of its mint, and the trip is as old as the first of them. */
  lemma {:induction false} SaleOfCost(lots: seq<Position>, mint: string, left: real)
    requires Sound(lots) && 0.0 <= left <= Held(lots, mint)
    ensures CostIn(Consume(lots, mint, left).lots, mint) + Consume(lots, mint, left).cost == CostIn(lots, mint)
    ensures left > 0.0 ==> Consume(lots, mint, left).oldest == FirstOpened(lots, mint)
  {
    hide Share;
    if lots != [] && left != 0.0 {
      if lots[0].mint != mint {
        SaleOfCost(lots[1..], mint, left);
        var rest := Consume(lots[1..], mint, left);
        assert ([lots[0]] + rest.lots)[1..] == rest.lots;
      } else {
        var take := Lesser(left, lots[0].tokens);
        HeldNonnegative(lots[1..], mint);
        SaleOfCost(lots[1..], mint, left - take);
        var rest := Consume(lots[1..], mint, left - take);
        var lot := lots[0].(tokens := lots[0].tokens - take, costUsd := lots[0].costUsd - Share(lots[0], take));
        assert ([lot] + rest.lots)[1..] == rest.lots;
      }
    }
  }

  /** What is sold out is gone; of what remains nothing changes. */
  lemma {:induction false} RemainingCost(lots: seq<Position>, mint: string)
    requires Settled(lots)
    ensures CostIn(Remaining(lots), mint) == CostIn(lots, mint)
  {
    hide CostIn, FirstOpened;
    if lots != [] {
      RemainingCost(lots[1..], mint);
      FirstAhead(lots, mint);
      var rest := Remaining(lots[1..]);
      if lots[0].tokens != 0.0 {
        FirstAhead([lots[0]] + rest, mint);
        assert ([lots[0]] + rest)[1..] == rest;
      } else {
        assert [] + rest == rest;
      }
    }
  }

  lemma KeptAhead(lot: Position, rest: seq<Position>, other: string)
    ensures lot.mint != other ==>
              && CostIn(Remaining([lot] + rest), other) == CostIn(Remaining(rest), other)
              && FirstOpened(Remaining([lot] + rest), other) == FirstOpened(Remaining(rest), other)
    ensures lot.mint == other && lot.tokens != 0.0 ==>
              && CostIn(Remaining([lot] + rest), other) == lot.costUsd + CostIn(Remaining(rest), other)
              && FirstOpened(Remaining([lot] + rest), other) == Some(lot.openedAt)
  {
    var kept := Remaining(rest);
    assert ([lot] + rest)[1..] == rest && ([lot] + kept)[1..] == kept && [] + kept == kept;
  }

  /** What a sale does to the first lot. */
  lemma SaleAhead(lots: seq<Position>, mint: string, left: real)
    requires Sound(lots) && lots != [] && left != 0.0
    ensures var take := if lots[0].mint == mint then Lesser(left, lots[0].tokens) else 0.0;
            exists lot: Position ::
              && Consume(lots, mint, left).lots == [lot] + Consume(lots[1..], mint, left - take).lots
              && lot.mint == lots[0].mint && (lots[0].mint != mint ==> lot == lots[0])
  {
    hide Share;
    var take := if lots[0].mint == mint then Lesser(left, lots[0].tokens) else 0.0;
    var lot := Consume(lots, mint, left).lots[0];
    assert Consume(lots, mint, left).lots == [lot] + Consume(lots[1..], mint, left - take).lots;
  }

  lemma {:induction false} OthersStay(lots: seq<Position>, mint: string, left: real, other: string)
    requires Sound(lots) && other != mint
    ensures var after := Remaining(Consume(lots, mint, left).lots);
            FirstOpened(after, other) == FirstOpened(lots, other) && CostIn(after, other) == CostIn(lots, other)
  {
    hide Consume, Remaining, FirstOpened, CostIn;
    if lots == [] || left == 0.0 {
      NothingSold(lots, mint, left);
      NothingRemoved(lots);
    } else {
      var take := if lots[0].mint == mint then Lesser(left, lots[0].tokens) else 0.0;
      OthersStay(lots[1..], mint, left - take, other);
      SaleAhead(lots, mint, left);
      var rest := Consume(lots[1..], mint, left - take).lots;
      var lot: Position :| Consume(lots, mint, left).lots == [lot] + rest
                        && lot.mint == lots[0].mint && (lots[0].mint != mint ==> lot == lots[0]);
      KeptAhead(lot, rest, other);
      FirstAhead(lots, other);
    }
  }

  lemma NothingSold(lots: seq<Position>, mint: string, left: real)
    requires Sound(lots) && (lots == [] || left == 0.0)
    ensures Consume(lots, mint, left) == Sale(lots, 0.0, None)
  {
  }

  lemma FirstAhead(lots: seq<Position>, mint: string)
    requires lots != []
    ensures CostIn(lots, mint) == (if lots[0].mint == mint then lots[0].costUsd else 0.0) + CostIn(lots[1..], mint)
    ensures FirstOpened(lots, mint) ==
            if lots[0].mint == mint then Some(lots[0].openedAt) else FirstOpened(lots[1..], mint)
  {
  }

  lemma {:induction false} NothingRemoved(lots: seq<Position>)
    requires Sound(lots)
    ensures Remaining(lots) == lots
  {
    if lots != [] {
      NothingRemoved(lots[1..]);
    }
  }

  // ---- The ledger and the history -----------------------------------------------------------

  /** When the ledger takes the open trip of a held mint to have begun. */
  function OpenedAt(book: Book, mint: string): Option<int> {
    if mint in book.openTrips then Some(book.openTrips[mint].openedAt) else FirstOpened(book.lots, mint)
  }

  /** The ledger has this trip of the mint open. */
  ghost predicate Carries(book: Book, mint: string, trip: RoundTrip) {
    && trip.held == Held(book.lots, mint)
    && trip.openedAt == OpenedAt(book, mint)
    && trip.flow == (if mint in book.openTrips then book.openTrips[mint].pnlUsd else 0.0) - CostIn(book.lots, mint)
    && (trip.held == 0.0 ==> trip == NOTHING_HELD && mint !in book.openTrips)
  }

  lemma BuyCarries(book: Book, lot: Position, mint: string, trip: RoundTrip)
    requires Sound(book.lots) && OpenLot(book, lot).Success? && Carries(book, mint, trip)
    ensures Carries(OpenLot(book, lot).value, mint, if lot.mint == mint then Bought(trip, lot) else trip)
  {
    LotAppended(book.lots, lot, mint);
    HeldNonnegative(book.lots, mint);
    NoneFirst(book.lots, mint);
  }

  lemma SaleCarries(book: Book, sell: Entry, mint: string, trip: RoundTrip)
    requires Sound(book.lots) && sell.Sell? && Apply(book, sell).Success? && Carries(book, mint, trip)
    ensures sell.mint == mint ==> trip.openedAt.Some?
    ensures Carries(Apply(book, sell).value, mint,
                    if sell.mint == mint then Sold(trip, sell.tokens, sell.usdOut - sell.feesUsd) else trip)
    ensures sell.mint == mint ==>
              Apply(book, sell).value.closed ==
              book.closed + if trip.held != sell.tokens then []
                            else [ClosedTrade(mint, trip.openedAt.value, sell.at, trip.flow + sell.usdOut - sell.feesUsd)]
  {
    hide Consume, Remaining, Held, HoldsMint, CostIn, FirstOpened;
    var lots, sold := book.lots, sell.mint;
    var sale := Consume(lots, sold, sell.tokens);
    ConsumeConserves(lots, sold, sell.tokens);
    RemainingKeeps(sale.lots);
    HoldsWhenHeld(Remaining(sale.lots), sold);
    SaleOfCost(lots, sold, sell.tokens);
    RemainingCost(sale.lots, sold);
    NoneFirst(lots, sold);
    NoneFirst(Remaining(sale.lots), sold);
    HeldNonnegative(Remaining(sale.lots), sold);
    assert Held(Remaining(sale.lots), mint) == Held(sale.lots, mint);
    assert book.closed + [] == book.closed;
    if mint != sold {
      OthersStay(lots, sold, sell.tokens, mint);
    }
  }

  lemma NothingCarried(mint: string)
    ensures Carries(EMPTY_BOOK, mint, TripOf([], mint))
  {
  }

  lemma {:induction false} HistoryCarries(entries: seq<Entry>, book: Book, mint: string)
    requires Reaches(entries, book)
    ensures Sound(book.lots) && Carries(book, mint, TripOf(entries, mint))
    decreases |entries|
  {
    EveryHistoryBalances(entries, book);
    if entries == [] {
      NothingCarried(mint);
    } else {
      var last := |entries| - 1;
      var before :| Reaches(entries[..last], before) && Sound(before.lots) && Apply(before, entries[last]) == Success(book);
      HistoryCarries(entries[..last], before, mint);
      hide Carries;
      match entries[last] {
        case Buy(lot) => BuyCarries(before, lot, mint, TripOf(entries[..last], mint));
        case Sell(_, _, _, _, _) => SaleCarries(before, entries[last], mint, TripOf(entries[..last], mint));
      }
    }
  }

  /**
   Over every accepted history: a sale completes a round trip exactly when it
   sells the last token, and the trip then counts from the first buy since the
   mint was last sold out, with all the money its buys and (also partial) sells
   moved as its result.
   */
  lemma SaleCompletesItsTrip(entries: seq<Entry>, book: Book, sell: Entry)
    requires Reaches(entries, book) && sell.Sell? && Sound(book.lots) && Apply(book, sell).Success?
    ensures var trip := TripOf(entries, sell.mint);
            && trip.openedAt.Some?
            && Apply(book, sell).value.closed ==
               book.closed +
               if trip.held != sell.tokens then []
               else [ClosedTrade(sell.mint, trip.openedAt.value, sell.at, trip.flow + sell.usdOut - sell.feesUsd)]
  {
    hide Carries, TripOf, Consume, Remaining, Held, HoldsMint;
    HistoryCarries(entries, book, sell.mint);
    SaleCarries(book, sell, sell.mint, TripOf(entries, sell.mint));
  }
}
