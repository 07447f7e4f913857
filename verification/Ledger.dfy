/**
 The paper ledger of `crates/onchain/src/paper.rs`: one lot per buy, sold
 first in, first out, with the net result of every completed round trip.

 `Book` is the ledger's value and the functions on it are its specification;
 the class `Ledger` updates its fields in place as the source does.
 */
module PaperLedger {
  import opened Wrappers

  datatype Position = Position(mint: string, tokens: real, costUsd: real, openedAt: int, entryLiquidityUsd: real)

  datatype ClosedTrade = ClosedTrade(mint: string, openedAt: int, closedAt: int, netPnlUsd: real)

  /** Realised result of the partial sells of a round trip still open. */
  datatype OpenTrip = OpenTrip(pnlUsd: real, openedAt: int)

  datatype LedgerError = InvalidAmount | InsufficientTokens | OutOfOrder

  datatype Book = Book(
    lots: seq<Position>,
    closed: seq<ClosedTrade>,
    openTrips: map<string, OpenTrip>,
    failedTxFeesUsd: real,
    aiCostUsd: real,
    lastEventAt: Option<int>)

  const EMPTY_BOOK := Book([], [], map[], 0.0, 0.0, None)

  /** Rounded to 12 decimals, halves to the even neighbour. */
  function RoundDp12(x: real): real {
    var scaled := x * 1000000000000.0;
    var low := scaled.Floor;
    var rest := scaled - low as real;
    var up := rest > 0.5 || (rest == 0.5 && low % 2 == 1);
    (if up then low + 1 else low) as real / 1000000000000.0
  }

  predicate InOrder(last: Option<int>, at: int) {
    last.Some? ==> last.value <= at
  }

  function OpenLot(book: Book, lot: Position): Result<Book, LedgerError> {
    if lot.tokens <= 0.0 || lot.costUsd < 0.0 then Failure(InvalidAmount)
    else if !InOrder(book.lastEventAt, lot.openedAt) then Failure(OutOfOrder)
    else Success(book.(lots := book.lots + [lot], lastEventAt := Some(lot.openedAt)))
  }

  function Held(lots: seq<Position>, mint: string): real {
    if lots == [] then 0.0
    else (if lots[0].mint == mint then lots[0].tokens else 0.0) + Held(lots[1..], mint)
  }

  /** The part of a lot's cost that `take` of its tokens make up. */
  function ProRata(lot: Position, take: real): real
    requires lot.tokens > 0.0
  {
    lot.costUsd * (take / lot.tokens)
  }

  /** The cost that goes with selling `take` tokens of a lot. */
  function Share(lot: Position, take: real): real
    requires lot.tokens > 0.0
  {
    if take == lot.tokens then lot.costUsd
    else
      var share := RoundDp12(ProRata(lot, take));
      if share < lot.costUsd then share else lot.costUsd
  }

  function Lesser(a: real, b: real): real {
    if a < b then a else b
  }

  /** The lots after a sell, the cost it consumed and the oldest lot it touched. */
  datatype Sale = Sale(lots: seq<Position>, cost: real, oldest: Option<int>)

  ghost predicate Sound(lots: seq<Position>) {
    forall lot <- lots :: lot.tokens > 0.0 && lot.costUsd >= 0.0
  }

  /** Take `left` tokens of `mint` from the lots, oldest lot first. */
  function Consume(lots: seq<Position>, mint: string, left: real): Sale
    requires Sound(lots)
  {
    if lots == [] || left == 0.0 then Sale(lots, 0.0, None)
    else if lots[0].mint != mint then
      var rest := Consume(lots[1..], mint, left);
      rest.(lots := [lots[0]] + rest.lots)
    else
      var take := Lesser(left, lots[0].tokens);
      var share := Share(lots[0], take);
      var rest := Consume(lots[1..], mint, left - take);
      Sale(
        [lots[0].(tokens := lots[0].tokens - take, costUsd := lots[0].costUsd - share)] + rest.lots,
        share + rest.cost,
        Some(lots[0].openedAt))
  }

  /** The lots that still hold tokens. */
  function Remaining(lots: seq<Position>): seq<Position> {
    if lots == [] then []
    else (if lots[0].tokens == 0.0 then [] else [lots[0]]) + Remaining(lots[1..])
  }

  predicate HoldsMint(lots: seq<Position>, mint: string) {
    exists k | 0 <= k < |lots| :: lots[k].mint == mint
  }

  /** A sell: the new book and this sell's net result. */
  function CloseLots(book: Book, mint: string, tokens: real, usdOut: real, feesUsd: real, at: int)
    : Result<(Book, real), LedgerError>
    requires Sound(book.lots)
  {
    if tokens <= 0.0 || usdOut < 0.0 || feesUsd < 0.0 then Failure(InvalidAmount)
    else if !InOrder(book.lastEventAt, at) then Failure(OutOfOrder)
    else if tokens > Held(book.lots, mint) then Failure(InsufficientTokens)
    else
      var sale := Consume(book.lots, mint, tokens);
      var net := usdOut - feesUsd - sale.cost;
      var before := if mint in book.openTrips then book.openTrips[mint]
                    else OpenTrip(0.0, if sale.oldest.Some? then sale.oldest.value else at);
      var pnl := before.pnlUsd + net;
      var lots := Remaining(sale.lots);
      Success((
        if HoldsMint(lots, mint) then
          book.(lots := lots, lastEventAt := Some(at), openTrips := book.openTrips[mint := OpenTrip(pnl, before.openedAt)])
        else
          book.(lots := lots, lastEventAt := Some(at), openTrips := book.openTrips - {mint},
                closed := book.closed + [ClosedTrade(mint, before.openedAt, at, pnl)]),
        net))
  }

  function AddFailedTx(book: Book, usd: real): Result<Book, LedgerError> {
    if usd < 0.0 then Failure(InvalidAmount) else Success(book.(failedTxFeesUsd := book.failedTxFeesUsd + usd))
  }

  function AddAiCost(book: Book, usd: real): Result<Book, LedgerError> {
    if usd < 0.0 then Failure(InvalidAmount) else Success(book.(aiCostUsd := book.aiCostUsd + usd))
  }

  // ---- What a sell keeps -------------------------------------------------------

  function CostOf(lots: seq<Position>): real {
    if lots == [] then 0.0 else lots[0].costUsd + CostOf(lots[1..])
  }

  lemma RoundDp12Nonnegative(x: real)
    requires x >= 0.0
    ensures RoundDp12(x) >= 0.0
  {
    assert (x * 1000000000000.0).Floor >= 0;
  }

  lemma ShareBounds(lot: Position, take: real)
    requires lot.tokens > 0.0 && lot.costUsd >= 0.0 && 0.0 <= take
    ensures 0.0 <= Share(lot, take) <= lot.costUsd
    ensures take == lot.tokens ==> Share(lot, take) == lot.costUsd
  {
    assert take / lot.tokens >= 0.0;
    assert lot.costUsd * (take / lot.tokens) >= 0.0;
    RoundDp12Nonnegative(ProRata(lot, take));
  }

  /** Holds after selling: what is left is non-negative, and empty lots cost nothing. */
  ghost predicate Settled(lots: seq<Position>) {
    forall lot <- lots :: lot.tokens >= 0.0 && lot.costUsd >= 0.0 && (lot.tokens == 0.0 ==> lot.costUsd == 0.0)
  }

  /**
   Selling no more than is held takes exactly the tokens sold, and the cost it
   consumes plus the cost that stays is the cost that was there.
   */
  lemma {:induction false} ConsumeConserves(lots: seq<Position>, mint: string, left: real)
    requires Sound(lots) && 0.0 <= left <= Held(lots, mint)
    ensures var sale := Consume(lots, mint, left);
            && Settled(sale.lots)
            && CostOf(sale.lots) + sale.cost == CostOf(lots)
            && Held(sale.lots, mint) == Held(lots, mint) - left
            && sale.cost >= 0.0
            && (left > 0.0 ==> sale.oldest.Some?)
    ensures forall other :: other != mint ==> Held(Consume(lots, mint, left).lots, other) == Held(lots, other)
  {
    hide Share;
    if lots != [] && left != 0.0 {
      if lots[0].mint != mint {
        ConsumeConserves(lots[1..], mint, left);
        var rest := Consume(lots[1..], mint, left);
        assert ([lots[0]] + rest.lots)[1..] == rest.lots;
      } else {
        var take := Lesser(left, lots[0].tokens);
        HeldNonnegative(lots[1..], mint);
        ShareBounds(lots[0], take);
        ConsumeConserves(lots[1..], mint, left - take);
        var rest := Consume(lots[1..], mint, left - take);
        var lot := lots[0].(tokens := lots[0].tokens - take, costUsd := lots[0].costUsd - Share(lots[0], take));
        assert ([lot] + rest.lots)[1..] == rest.lots;
      }
    }
  }

  lemma {:induction false} HeldNonnegative(lots: seq<Position>, mint: string)
    requires Sound(lots)
    ensures Held(lots, mint) >= 0.0
  {
    if lots != [] {
      HeldNonnegative(lots[1..], mint);
    }
  }

  lemma RemainingKeeps(lots: seq<Position>)
    requires Settled(lots)
    ensures Sound(Remaining(lots)) && CostOf(Remaining(lots)) == CostOf(lots)
    ensures forall mint :: Held(Remaining(lots), mint) == Held(lots, mint)
  {
    hide Remaining, Sound, CostOf, Held;
    RemainingCosts(lots);
    forall mint ensures Held(Remaining(lots), mint) == Held(lots, mint) {
      RemainingHolds(lots, mint);
    }
  }

  lemma {:induction false} RemainingCosts(lots: seq<Position>)
    requires Settled(lots)
    ensures Sound(Remaining(lots)) && CostOf(Remaining(lots)) == CostOf(lots)
  {
    if lots != [] {
      RemainingCosts(lots[1..]);
      var rest := Remaining(lots[1..]);
      if lots[0].tokens != 0.0 {
        assert ([lots[0]] + rest)[1..] == rest;
      } else {
        assert [] + rest == rest;
      }
    }
  }

  lemma {:induction false} RemainingHolds(lots: seq<Position>, mint: string)
    ensures Held(Remaining(lots), mint) == Held(lots, mint)
  {
    if lots != [] {
      RemainingHolds(lots[1..], mint);
      var rest := Remaining(lots[1..]);
      if lots[0].tokens != 0.0 {
        assert ([lots[0]] + rest)[1..] == rest;
      } else {
        assert [] + rest == rest;
      }
    }
  }

  /**
   An accepted sell removes exactly its tokens, touches no other mint, keeps
   every lot sound, and its net result is the proceeds less fees less the cost
   that left the lots. The round trip completes exactly when nothing of the
   mint is left.
   */
  lemma CloseConserves(book: Book, mint: string, tokens: real, usdOut: real, feesUsd: real, at: int)
    requires Sound(book.lots) && CloseLots(book, mint, tokens, usdOut, feesUsd, at).Success?
    ensures var (after, net) := CloseLots(book, mint, tokens, usdOut, feesUsd, at).value;
            && Sound(after.lots)
            && net == usdOut - feesUsd - (CostOf(book.lots) - CostOf(after.lots))
            && Held(after.lots, mint) == Held(book.lots, mint) - tokens
            && (forall other :: other != mint ==> Held(after.lots, other) == Held(book.lots, other))
            && (|after.closed| == |book.closed| + 1 <==> tokens == Held(book.lots, mint))
  {
    ConsumeConserves(book.lots, mint, tokens);
    var sale := Consume(book.lots, mint, tokens);
    RemainingKeeps(sale.lots);
    HoldsWhenHeld(Remaining(sale.lots), mint);
  }

  lemma SaleKeepsSound(lots: seq<Position>, mint: string, tokens: real)
    requires Sound(lots) && 0.0 <= tokens <= Held(lots, mint)
    ensures Sound(Remaining(Consume(lots, mint, tokens).lots))
  {
    ConsumeConserves(lots, mint, tokens);
    RemainingKeeps(Consume(lots, mint, tokens).lots);
  }

  lemma {:induction false} HoldsWhenHeld(lots: seq<Position>, mint: string)
    requires Sound(lots)
    ensures HoldsMint(lots, mint) <==> Held(lots, mint) > 0.0
  {
    if lots != [] {
      HoldsWhenHeld(lots[1..], mint);
      HeldNonnegative(lots[1..], mint);
      if HoldsMint(lots[1..], mint) {
        var k :| 0 <= k < |lots[1..]| && lots[1..][k].mint == mint;
        assert lots[k + 1].mint == mint;
      }
      if HoldsMint(lots, mint) && lots[0].mint != mint {
        var k :| 0 <= k < |lots| && lots[k].mint == mint;
        assert lots[1..][k - 1].mint == mint;
      }
    }
  }

  // ---- Money over a whole history ------------------------------------------------

  datatype Entry =
    | Buy(lot: Position)
    | Sell(mint: string, tokens: real, usdOut: real, feesUsd: real, at: int)

  function Apply(book: Book, entry: Entry): Result<Book, LedgerError>
    requires Sound(book.lots)
  {
    match entry
    case Buy(lot) => OpenLot(book, lot)
    case Sell(mint, tokens, usdOut, feesUsd, at) =>
      var (after, _) :- CloseLots(book, mint, tokens, usdOut, feesUsd, at);
      Success(after)
  }

  function Flow(entry: Entry): real {
    match entry
    case Buy(lot) => -lot.costUsd
    case Sell(_, _, usdOut, feesUsd, _) => usdOut - feesUsd
  }

  function CashFlow(entries: seq<Entry>): real {
    if entries == [] then 0.0 else CashFlow(entries[..|entries| - 1]) + Flow(entries[|entries| - 1])
  }

  ghost predicate Reaches(entries: seq<Entry>, book: Book)
    decreases |entries|
  {
    if entries == [] then book == EMPTY_BOOK
    else
      exists before ::
        Reaches(entries[..|entries| - 1], before)
        && Sound(before.lots)
        && Apply(before, entries[|entries| - 1]) == Success(book)
  }

  function ClosedNet(closed: seq<ClosedTrade>): real {
    if closed == [] then 0.0 else ClosedNet(closed[..|closed| - 1]) + closed[|closed| - 1].netPnlUsd
  }

  /** Realised result of all round trips still open. */
  ghost function PartialNet(openTrips: map<string, OpenTrip>): real
    decreases |openTrips|
  {
    if openTrips == map[] then 0.0
    else
      var mint :| mint in openTrips;
      openTrips[mint].pnlUsd + PartialNet(openTrips - {mint})
  }

  lemma {:induction false} PartialNetSplit(openTrips: map<string, OpenTrip>, mint: string)
    requires mint in openTrips
    ensures PartialNet(openTrips) == openTrips[mint].pnlUsd + PartialNet(openTrips - {mint})
    decreases |openTrips|
  {
    var first :| first in openTrips && PartialNet(openTrips) == openTrips[first].pnlUsd + PartialNet(openTrips - {first});
    if first != mint {
      PartialNetSplit(openTrips - {first}, mint);
      PartialNetSplit(openTrips - {mint}, first);
      assert openTrips - {first} - {mint} == openTrips - {mint} - {first};
    }
  }

  lemma PartialNetWithout(openTrips: map<string, OpenTrip>, mint: string)
    ensures PartialNet(openTrips) ==
            (if mint in openTrips then openTrips[mint].pnlUsd else 0.0) + PartialNet(openTrips - {mint})
  {
    if mint in openTrips {
      PartialNetSplit(openTrips, mint);
    } else {
      assert openTrips - {mint} == openTrips;
    }
  }

  lemma PartialNetUpdate(openTrips: map<string, OpenTrip>, mint: string, trip: OpenTrip)
    ensures PartialNet(openTrips[mint := trip]) == trip.pnlUsd + PartialNet(openTrips - {mint})
  {
    PartialNetSplit(openTrips[mint := trip], mint);
    assert openTrips[mint := trip] - {mint} == openTrips - {mint};
  }

  /** The money identity of a book: what came in and went out is all accounted for. */
  ghost predicate Balanced(book: Book, cashFlow: real) {
    ClosedNet(book.closed) + PartialNet(book.openTrips) - CostOf(book.lots) == cashFlow
  }

  lemma {:induction false} CostOfAppend(lots: seq<Position>, lot: Position)
    ensures CostOf(lots + [lot]) == CostOf(lots) + lot.costUsd
  {
    if lots != [] {
      assert (lots + [lot])[1..] == lots[1..] + [lot];
      CostOfAppend(lots[1..], lot);
    }
  }

  lemma ApplyBalanced(before: Book, entry: Entry, after: Book, cashFlow: real)
    requires Sound(before.lots) && Apply(before, entry) == Success(after)
    requires Balanced(before, cashFlow)
    ensures Sound(after.lots)
    ensures Balanced(after, cashFlow + Flow(entry))
  {
    match entry
    case Buy(lot) =>
      CostOfAppend(before.lots, lot);
    case Sell(mint, tokens, usdOut, feesUsd, at) =>
      CloseConserves(before, mint, tokens, usdOut, feesUsd, at);
      PartialNetWithout(before.openTrips, mint);
      var pnl := (if mint in before.openTrips then before.openTrips[mint].pnlUsd else 0.0)
      + CloseLots(before, mint, tokens, usdOut, feesUsd, at).value.1;
      if |after.closed| == |before.closed| + 1 {
        assert after.closed[..|before.closed|] == before.closed;
      } else {
        PartialNetUpdate(before.openTrips, mint, after.openTrips[mint]);
      }
  }

  /**
   Over every accepted history of buys and (also partial) sells: completed and
   partial results together, less the cost still in open lots, are exactly the
   money that came in less the money paid. No cent is created by splitting a lot.
   */
  lemma {:induction false} EveryHistoryBalances(entries: seq<Entry>, book: Book)
    requires Reaches(entries, book)
    ensures Sound(book.lots)
    ensures Balanced(book, CashFlow(entries))
    decreases |entries|
  {
    if entries == [] {
      assert PartialNet(EMPTY_BOOK.openTrips) == 0.0;
    } else {
      var last := |entries| - 1;
      var before :| Reaches(entries[..last], before) && Sound(before.lots) && Apply(before, entries[last]) == Success(book);
      EveryHistoryBalances(entries[..last], before);
      ApplyBalanced(before, entries[last], book, CashFlow(entries[..last]));
    }
  }

  /** A sale whose first lots are already dealt with. */
  function Prefixed(walked: seq<Position>, cost: real, oldest: Option<int>, sale: Sale): Sale {
    Sale(walked + sale.lots, cost + sale.cost, if oldest.Some? then oldest else sale.oldest)
  }

  lemma NothingWalked(lots: seq<Position>, mint: string, left: real)
    requires Sound(lots)
    ensures Prefixed([], 0.0, None, Consume(lots, mint, left)) == Consume(lots, mint, left) && [] + lots == lots
  {
    var sale := Consume(lots, mint, left);
    assert [] + sale.lots == sale.lots;
  }

  lemma AllWalked(walked: seq<Position>, cost: real, oldest: Option<int>, ahead: seq<Position>, mint: string, left: real)
    requires Sound(ahead) && (ahead == [] || left == 0.0)
    ensures Prefixed(walked, cost, oldest, Consume(ahead, mint, left)) == Sale(walked + ahead, cost, oldest)
  {
  }

  lemma FirstIsSound(lots: seq<Position>)
    requires Sound(lots)
    ensures lots != [] ==> lots[0].tokens > 0.0
  {
  }

  lemma StepOver(walked: seq<Position>, ahead: seq<Position>)
    requires ahead != []
    ensures (walked + ahead)[|walked|] == ahead[0]
  {
  }

  lemma WriteNext(walked: seq<Position>, ahead: seq<Position>, lot: Position)
    requires ahead != []
    ensures (walked + ahead)[|walked| := lot] == (walked + [lot]) + ahead[1..]
  {
  }

  /** What one lot gives to a sell of `left` tokens: what stays of it, its cost share, what is still to sell. */
  datatype Turn = Turn(rest: Position, share: real, left: real)

  function SellFrom(lot: Position, mint: string, left: real): Turn
    requires lot.tokens > 0.0
  {
    if lot.mint != mint then Turn(lot, 0.0, left)
    else
      var take := Lesser(left, lot.tokens);
      var share := Share(lot, take);
      Turn(lot.(tokens := lot.tokens - take, costUsd := lot.costUsd - share), share, left - take)
  }

  /** One turn of the walk over the lots. */
  lemma ConsumeTurn(walked: seq<Position>, cost: real, oldest: Option<int>, ahead: seq<Position>, mint: string, left: real)
    requires Sound(ahead) && ahead != [] && left != 0.0
    ensures Sound(ahead[1..])
    ensures var turn := SellFrom(ahead[0], mint, left);
            var oldest' := if oldest.None? && ahead[0].mint == mint then Some(ahead[0].openedAt) else oldest;
            Prefixed(walked, cost, oldest, Consume(ahead, mint, left)) ==
            Prefixed(walked + [turn.rest], cost + turn.share, oldest', Consume(ahead[1..], mint, turn.left))
  {
    var turn := SellFrom(ahead[0], mint, left);
    var rest := Consume(ahead[1..], mint, turn.left);
    assert walked + ([turn.rest] + rest.lots) == (walked + [turn.rest]) + rest.lots;
  }

  // ---- The ledger itself -----------------------------------------------------------

  class Ledger {
    var lots: seq<Position>
    var closed: seq<ClosedTrade>
    var openTrips: map<string, OpenTrip>
    var failedTxFeesUsd: real
    var aiCostUsd: real
    var lastEventAt: Option<int>

    function State(): Book
      reads this
    {
      Book(lots, closed, openTrips, failedTxFeesUsd, aiCostUsd, lastEventAt)
    }

    ghost predicate Valid()
      reads this
    {
      Sound(lots)
    }

    constructor ()
      ensures Valid() && State() == EMPTY_BOOK
    {
      lots, closed, openTrips := [], [], map[];
      failedTxFeesUsd, aiCostUsd, lastEventAt := 0.0, 0.0, None;
    }

    /** A lot of its own for every buy, or a refusal that changes nothing. */
    method Open(lot: Position) returns (r: Result<(), LedgerError>)
      requires Valid()
      modifies this
      ensures Valid()
      ensures match OpenLot(old(State()), lot)
              case Success(book) => r == Success(()) && State() == book
              case Failure(e) => r == Failure(e) && State() == old(State())
    {
      if lot.tokens <= 0.0 || lot.costUsd < 0.0 {
        return Failure(InvalidAmount);
      }
      if lastEventAt.Some? && lot.openedAt < lastEventAt.value {
        return Failure(OutOfOrder);
      }
      lastEventAt := Some(lot.openedAt);
      lots := lots + [lot];
      return Success(());
    }

    /** The tokens of `mint` in open lots. */
    method TokensHeld(mint: string) returns (held: real)
      ensures held == Held(lots, mint)
    {
      held := 0.0;
      var i := |lots|;
      assert lots[i..] == [];
      while i > 0
        invariant 0 <= i <= |lots|
        invariant held == Held(lots[i..], mint)
      {
        i := i - 1;
        assert lots[i..][0] == lots[i] && lots[i..][1..] == lots[i + 1..];
        if lots[i].mint == mint {
          held := lots[i].tokens + held;
        }
      }
      assert lots[0..] == lots;
    }

    /**
     A sell, worked out on a copy of the lots that takes their place only when
     nothing refuses it.
     */
    method Close(mint: string, tokens: real, usdOut: real, feesUsd: real, at: int) returns (r: Result<real, LedgerError>)
      requires Valid()
      modifies this
      ensures Valid()
      ensures match CloseLots(old(State()), mint, tokens, usdOut, feesUsd, at)
              case Success(done) => r == Success(done.1) && State() == done.0
              case Failure(e) => r == Failure(e) && State() == old(State())
    {
      hide Consume, Remaining, HoldsMint, Held, Sound;
      if tokens <= 0.0 || usdOut < 0.0 || feesUsd < 0.0 {
        return Failure(InvalidAmount);
      }
      if lastEventAt.Some? && at < lastEventAt.value {
        return Failure(OutOfOrder);
      }
      var held := TokensHeld(mint);
      if tokens > held {
        return Failure(InsufficientTokens);
      }
      var copy, cost, oldest := ConsumeLots(mint, tokens);
      var net := usdOut - feesUsd - cost;
      var before := if mint in openTrips then openTrips[mint]
                    else OpenTrip(0.0, if oldest.Some? then oldest.value else at);
      var pnl := before.pnlUsd + net;
      var kept := Remaining(copy);
      SaleKeepsSound(lots, mint, tokens);
      lots := kept;
      lastEventAt := Some(at);
      if HoldsMint(kept, mint) {
        openTrips := openTrips[mint := OpenTrip(pnl, before.openedAt)];
      } else {
        openTrips := openTrips - {mint};
        closed := closed + [ClosedTrade(mint, before.openedAt, at, pnl)];
      }
      return Success(net);
    }

    /** The walk over a copy of the lots. */
    method ConsumeLots(mint: string, tokens: real) returns (copy: seq<Position>, cost: real, oldest: Option<int>)
      requires Valid()
      ensures Sale(copy, cost, oldest) == Consume(lots, mint, tokens)
    {
      hide Share, Sound, Held, Remaining, Consume, Prefixed;
      NothingWalked(lots, mint, tokens);
      copy, cost, oldest := lots, 0.0, None;
      var left := tokens;
      var i := 0;
      ghost var goal, walked, ahead := Consume(lots, mint, left), [], lots;
      while i < |lots| && left != 0.0
        invariant 0 <= i <= |lots|
        invariant |walked| == i && copy == walked + ahead && |ahead| == |lots| - i && Sound(ahead)
        invariant goal == Prefixed(walked, cost, oldest, Consume(ahead, mint, left))
      {
        FirstIsSound(ahead);
        ConsumeTurn(walked, cost, oldest, ahead, mint, left);
        StepOver(walked, ahead);
        var turn := SellFrom(copy[i], mint, left);
        if copy[i].mint == mint {
          oldest := if oldest.None? then Some(copy[i].openedAt) else oldest;
        }
        WriteNext(walked, ahead, turn.rest);
        copy := copy[i := turn.rest];
        cost := cost + turn.share;
        left := turn.left;
        walked, ahead := walked + [turn.rest], ahead[1..];
        i := i + 1;
      }
      AllWalked(walked, cost, oldest, ahead, mint, left);
    }

    method RecordFailedTx(feesUsd: real) returns (r: Result<(), LedgerError>)
      requires Valid()
      modifies this
      ensures Valid()
      ensures match AddFailedTx(old(State()), feesUsd)
              case Success(book) => r == Success(()) && State() == book
              case Failure(e) => r == Failure(e) && State() == old(State())
    {
      if feesUsd < 0.0 {
        return Failure(InvalidAmount);
      }
      failedTxFeesUsd := failedTxFeesUsd + feesUsd;
      return Success(());
    }

    method RecordAiCost(usd: real) returns (r: Result<(), LedgerError>)
      requires Valid()
      modifies this
      ensures Valid()
      ensures match AddAiCost(old(State()), usd)
              case Success(book) => r == Success(()) && State() == book
              case Failure(e) => r == Failure(e) && State() == old(State())
    {
      if usd < 0.0 {
        return Failure(InvalidAmount);
      }
      aiCostUsd := aiCostUsd + usd;
      return Success(());
    }
  }
}
