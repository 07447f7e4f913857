/**
 What a sale of the paper ledger (`crates/onchain/src/paper.rs`) takes from the
 lots, said without the walk over them, and which entries a ledger accepts, said
 by the history alone.
 */
module SaleLaws {
  import opened Wrappers
  import opened PaperLedger
  import opened RoundTrips

  // ---- Rounding -----------------------------------------------------------------------

  /** `n` is the nearest whole number, the even one of two. */
  predicate Nearest(n: int, x: real) {
    && -0.5 <= x - n as real <= 0.5
    && (x - n as real == 0.5 || x - n as real == -0.5 ==> n % 2 == 0)
  }

  function Rounded(x: real): int {
    var low := x.Floor;
    var rest := x - low as real;
    if rest > 0.5 || (rest == 0.5 && low % 2 == 1) then low + 1 else low
  }

  lemma RoundedIsNearest(n: int, x: real)
    ensures Nearest(n, x) <==> n == Rounded(x)
  {
    var low := x.Floor;
    assert low as real <= x < low as real + 1.0;
    assert n < low ==> n as real <= low as real - 1.0;
    assert n > low + 1 ==> n as real >= low as real + 2.0;
  }

  lemma DpIsRounded(x: real)
    ensures RoundDp12(x) == Rounded(x * 1000000000000.0) as real / 1000000000000.0
  {
  }

  /** Rounding gives the multiple of 10^-12 nearest to the amount. */
  lemma RoundsToNearest(x: real, n: int)
    ensures Nearest(n, x * 1000000000000.0) <==> RoundDp12(x) == n as real / 1000000000000.0
  {
    RoundedIsNearest(n, x * 1000000000000.0);
    var m := Rounded(x * 1000000000000.0);
    hide Rounded, Nearest, RoundDp12;
    DpIsRounded(x);
    assert m as real == n as real <==> m == n;
  }

  /** `share` is the nearest multiple of 10^-12 to a scaled amount, or the whole cost if that is less. */
  ghost predicate SharedOut(share: real, scaled: real, costUsd: real) {
    exists n: int :: Nearest(n, scaled) && share == Lesser(n as real / 1000000000000.0, costUsd)
  }

  lemma ShareRounds(lot: Position, take: real)
    requires lot.tokens > 0.0
    ensures Share(lot, take) == if take == lot.tokens then lot.costUsd else Lesser(RoundDp12(ProRata(lot, take)), lot.costUsd)
  {
    hide RoundDp12, ProRata;
  }

  /**
   The cost that goes with a part of a lot: all of it with the whole lot, and
   otherwise its share of the tokens, to the nearest 10^-12, but never more than
   the lot cost.
   */
  lemma ShareIsProRata(lot: Position, take: real)
    requires lot.tokens > 0.0 && lot.costUsd >= 0.0 && 0.0 <= take <= lot.tokens
    ensures take == lot.tokens ==> Share(lot, take) == lot.costUsd
    ensures take < lot.tokens ==> SharedOut(Share(lot, take), ProRata(lot, take) * 1000000000000.0, lot.costUsd)
  {
    hide Rounded, RoundDp12, Nearest, ProRata, Share;
    ShareRounds(lot, take);
    var exact := ProRata(lot, take);
    var n := Rounded(exact * 1000000000000.0);
    RoundedIsNearest(n, exact * 1000000000000.0);
    RoundsToNearest(exact, n);
  }

  // ---- First in, first out ------------------------------------------------------------------

  /** The lots of all other mints. */
  function Others(lots: seq<Position>, mint: string): seq<Position> {
    if lots == [] then [] else (if lots[0].mint == mint then [] else [lots[0]]) + Others(lots[1..], mint)
  }

  /** What is left of a lot of which `take` tokens are sold. */
  function LeftOf(lot: Position, take: real): seq<Position>
    requires lot.tokens > 0.0
  {
    if take == lot.tokens then []
    else [lot.(tokens := lot.tokens - take, costUsd := lot.costUsd - Share(lot, take))]
  }

  /**
   Selling all lots of the mint among `first` and part of the next one: the
   former are gone at their full cost, the latter gives its share, and nothing
   else changes.
   */
  lemma {:induction false} FirstInFirstOut(first: seq<Position>, lot: Position, rest: seq<Position>, mint: string, take: real)
    requires Sound(first + [lot] + rest) && lot.mint == mint && 0.0 < take <= lot.tokens
    ensures var sale := Consume(first + [lot] + rest, mint, Held(first, mint) + take);
            && sale.cost == CostIn(first, mint) + Share(lot, take)
            && Remaining(sale.lots) == Others(first, mint) + LeftOf(lot, take) + rest
    ensures Sound(first)
  {
    hide Share, Consume, Remaining, Held, Others, LeftOf, CostIn;
    Pieces(first, lot, rest);
    if first == [] {
      assert [] + LeftOf(lot, take) + rest == LeftOf(lot, take) + rest;
      NothingBefore(mint);
      SoldFrom(lot, rest, mint, take);
    } else {
      var lots, left := first[1..] + [lot] + rest, Held(first[1..], mint) + take;
      FirstInFirstOut(first[1..], lot, rest, mint, take);
      HeldNonnegative(first[1..], mint);
      OneLotMore(first, mint);
      if first[0].mint == mint {
        WholeLot(first[0], lots, mint, left);
      } else {
        OtherLot(first[0], lots, mint, left);
        assert [first[0]] + Others(first[1..], mint) + LeftOf(lot, take) + rest
            == [first[0]] + (Others(first[1..], mint) + LeftOf(lot, take) + rest);
      }
    }
  }

  lemma Pieces(first: seq<Position>, lot: Position, rest: seq<Position>)
    requires Sound(first + [lot] + rest)
    ensures Sound(first) && Sound(rest) && lot.tokens > 0.0
    ensures first == [] ==> first + [lot] + rest == [lot] + rest
    ensures first != [] ==>
              && first + [lot] + rest == [first[0]] + (first[1..] + [lot] + rest)
              && Sound(first[1..] + [lot] + rest) && Sound(first[1..])
  {
    var lots := first + [lot] + rest;
    forall l <- first ensures l in lots {
    }
    forall l <- rest ensures l in lots {
    }
    assert lot in lots;
  }

  lemma NothingBefore(mint: string)
    ensures Held([], mint) == 0.0 && CostIn([], mint) == 0.0 && Others([], mint) == []
  {
  }

  lemma OneLotMore(first: seq<Position>, mint: string)
    requires first != []
    ensures Held(first, mint) == Held(first[1..], mint) + if first[0].mint == mint then first[0].tokens else 0.0
    ensures CostIn(first, mint) == CostIn(first[1..], mint) + if first[0].mint == mint then first[0].costUsd else 0.0
    ensures Others(first, mint) == (if first[0].mint == mint then [] else [first[0]]) + Others(first[1..], mint)
    ensures first[0].mint == mint ==> Others(first, mint) == Others(first[1..], mint)
  {
  }

  lemma OtherLot(lot: Position, rest: seq<Position>, mint: string, left: real)
    requires Sound([lot] + rest) && Sound(rest) && lot.mint != mint && left > 0.0
    ensures Consume([lot] + rest, mint, left).cost == Consume(rest, mint, left).cost
    ensures Remaining(Consume([lot] + rest, mint, left).lots) == [lot] + Remaining(Consume(rest, mint, left).lots)
  {
    assert ([lot] + rest)[1..] == rest;
    var after := Consume(rest, mint, left);
    assert ([lot] + after.lots)[1..] == after.lots;
    assert lot in [lot] + rest;
  }

  lemma SoldFrom(lot: Position, rest: seq<Position>, mint: string, take: real)
    requires Sound([lot] + rest) && Sound(rest) && lot.mint == mint && 0.0 < take <= lot.tokens
    ensures var sale := Consume([lot] + rest, mint, take);
            sale.cost == Share(lot, take) && Remaining(sale.lots) == LeftOf(lot, take) + rest
  {
    hide Remaining, LeftOf;
    SaleOfFirst(lot, rest, mint, take);
    RemainsOf(lot, rest, take);
  }

  lemma SaleOfFirst(lot: Position, rest: seq<Position>, mint: string, take: real)
    requires Sound([lot] + rest) && Sound(rest) && lot.mint == mint && 0.0 < take <= lot.tokens
    ensures Consume([lot] + rest, mint, take) ==
            Sale([lot.(tokens := lot.tokens - take, costUsd := lot.costUsd - Share(lot, take))] + rest,
                 Share(lot, take), Some(lot.openedAt))
  {
    hide Share, RoundDp12;
    assert ([lot] + rest)[1..] == rest && Lesser(take, lot.tokens) == take;
    NothingSold(rest, mint, 0.0);
  }

  lemma RemainsOf(lot: Position, rest: seq<Position>, take: real)
    requires Sound(rest) && 0.0 < take <= lot.tokens
    ensures Remaining([lot.(tokens := lot.tokens - take, costUsd := lot.costUsd - Share(lot, take))] + rest) ==
            LeftOf(lot, take) + rest
  {
    hide Share;
    var left := lot.(tokens := lot.tokens - take, costUsd := lot.costUsd - Share(lot, take));
    assert ([left] + rest)[1..] == rest;
    NothingRemoved(rest);
  }

  lemma WholeLot(lot: Position, rest: seq<Position>, mint: string, left: real)
    requires Sound([lot] + rest) && Sound(rest) && lot.mint == mint && left >= 0.0
    ensures var sale := Consume([lot] + rest, mint, lot.tokens + left);
            && sale.cost == lot.costUsd + Consume(rest, mint, left).cost
            && Remaining(sale.lots) == Remaining(Consume(rest, mint, left).lots)
  {
    hide Share, RoundDp12;
    ShareBounds(lot, lot.tokens);
    assert ([lot] + rest)[1..] == rest;
    var after := Consume(rest, mint, left);
    var gone := lot.(tokens := 0.0, costUsd := 0.0);
    assert ([gone] + after.lots)[1..] == after.lots && [] + Remaining(after.lots) == Remaining(after.lots);
  }

  /** Every sale of what is held is one of these. */
  lemma {:induction false} EverySaleSplits(lots: seq<Position>, mint: string, tokens: real) returns (k: nat, take: real)
    requires Sound(lots) && 0.0 < tokens <= Held(lots, mint)
    ensures k < |lots| && lots[k].mint == mint && 0.0 < take <= lots[k].tokens && tokens == Held(lots[..k], mint) + take
    ensures lots == lots[..k] + [lots[k]] + lots[k + 1..]
  {
    if lots[0].mint == mint && tokens <= lots[0].tokens {
      k, take := 0, tokens;
    } else {
      var later, part := EverySaleSplits(lots[1..], mint, if lots[0].mint == mint then tokens - lots[0].tokens else tokens);
      k, take := later + 1, part;
      assert lots[..k][0] == lots[0] && lots[..k][1..] == lots[1..][..later];
    }
  }

  // ---- Which entries are accepted ---------------------------------------------------------------

  function TimeOf(entry: Entry): int {
    match entry
    case Buy(lot) => lot.openedAt
    case Sell(_, _, _, _, at) => at
  }

  predicate AmountsFine(entry: Entry) {
    match entry
    case Buy(lot) => lot.tokens > 0.0 && lot.costUsd >= 0.0
    case Sell(_, tokens, usdOut, feesUsd, _) => tokens > 0.0 && usdOut >= 0.0 && feesUsd >= 0.0
  }

  lemma LastEntryIsLatest(entries: seq<Entry>, book: Book)
    requires Reaches(entries, book)
    ensures book.lastEventAt == if entries == [] then None else Some(TimeOf(entries[|entries| - 1]))
  {
    if entries != [] {
      var before :| Reaches(entries[..|entries| - 1], before) && Sound(before.lots)
                 && Apply(before, entries[|entries| - 1]) == Success(book);
    }
  }

  /**
   After an accepted history an entry is refused exactly when an amount is not
   positive (or negative, for costs, proceeds and fees), when it is stamped before
   the last entry, or when more is sold than the trip of its mint holds; the first
   of these is the reason given.
   */
  lemma EntryAcceptedExactly(entries: seq<Entry>, book: Book, entry: Entry)
    requires Reaches(entries, book) && Sound(book.lots)
    ensures Apply(book, entry) == Failure(InvalidAmount) <==> !AmountsFine(entry)
    ensures Apply(book, entry) == Failure(OutOfOrder) <==>
            AmountsFine(entry) && entries != [] && TimeOf(entry) < TimeOf(entries[|entries| - 1])
    ensures Apply(book, entry) == Failure(InsufficientTokens) <==>
            && AmountsFine(entry)
            && (entries == [] || TimeOf(entries[|entries| - 1]) <= TimeOf(entry))
            && entry.Sell? && entry.tokens > TripOf(entries, entry.mint).held
  {
    LastEntryIsLatest(entries, book);
    if entry.Sell? {
      HistoryCarries(entries, book, entry.mint);
      hide Consume, Remaining, TripOf, HoldsMint;
    }
  }
}
