/**
 Validating one broker read (`map_portfolio` and `holding` in
 `jarvis-api/src/ibkr.rs`).

 The order in which the broker lists positions never matters: a list is mapped
 to the same portfolio as every rearrangement of it, or refused too.
 */
module Portfolio {
  import opened Wrappers
  import opened Text
  import opened Sorting

  /** One position as the broker reports it. */
  datatype Position = Position(
    conid: int, quantity: Option<real>, ticker: Option<string>, description: Option<string>,
    assetClass: Option<string>, currency: Option<string>, avgPrice: Option<real>, avgCost: Option<real>,
    marketPrice: Option<real>, marketValue: Option<real>, unrealizedPnl: Option<real>)

  datatype LedgerEntry = LedgerEntry(netLiquidation: Option<real>, cash: Option<real>)

  datatype Holding = Holding(
    conid: int, symbol: string, name: Option<string>, assetClass: string, currency: string, quantity: real,
    avgCost: real, lastPrice: real, marketValue: real, unrealizedPnl: Option<real>)

  datatype Skipped = Skipped(symbol: string, currency: Option<string>)

  datatype Snapshot = Snapshot(
    netLiquidation: real, cash: real, positions: seq<Holding>, skipped: seq<Skipped>, skippedCount: nat)

  datatype Refusal =
    | NoBase | BadNetLiquidation | BadCash | NoQuantity | TooMany | BadConid | NoSymbol | NoAssetClass
    | BadQuantity | BadCost | BadPrice | BadValue | BadPnl | Duplicate

  const BASE_CURRENCY := "EUR"
  const MAX_POSITIONS: nat := 1000
  const MAX_SKIPPED: nat := 50
  const MAX_CONID := 999_999_999_999
  const MAX_ABS := 100_000_000_000_000_000_000.0

  // ---- One position --------------------------------------------------------------------

  /** An amount of at most twenty integer digits. */
  function Amount(value: Option<real>): Option<real> {
    if value.Some? && -MAX_ABS < value.value < MAX_ABS then value else None
  }

  predicate IsInvisible(c: char) {
    || c == '\U{AD}' || c == '\U{61C}' || c == '\U{180E}' || '\U{200B}' <= c <= '\U{200F}'
    || '\U{202A}' <= c <= '\U{202E}' || '\U{2060}' <= c <= '\U{206F}' || c == '\U{FEFF}'
  }

  function DisplayText(value: Option<string>, max: nat): Option<string> {
    if value.None? then None
    else
      var t := Trim(value.value);
      if 1 <= |t| <= max && (forall k | 0 <= k < |t| :: !IsControl(t[k]) && !IsInvisible(t[k])) then Some(t) else None
  }

  predicate IsUpperWord(s: string) {
    forall k | 0 <= k < |s| :: IsUpper(s[k])
  }

  function SymbolOf(p: Position): Option<string> {
    if DisplayText(p.ticker, 32).Some? then DisplayText(p.ticker, 32) else DisplayText(p.description, 32)
  }

  function NameOf(p: Position, symbol: string): Option<string> {
    var name := DisplayText(p.description, 128);
    if name == Some(symbol) then None else name
  }

  function HoldingOf(p: Position, quantity: real): Result<Holding, Refusal> {
    if !(1 <= p.conid <= MAX_CONID) then Failure(BadConid)
    else if SymbolOf(p).None? then Failure(NoSymbol)
    else if p.assetClass.None? || !(1 <= |p.assetClass.value| <= 8) || !IsUpperWord(p.assetClass.value) then Failure(NoAssetClass)
    else if Amount(Some(quantity)).None? then Failure(BadQuantity)
    else
      var cost := Amount(if p.avgPrice.Some? then p.avgPrice else p.avgCost);
      if cost.None? then Failure(BadCost)
      else if Amount(p.marketPrice).None? then Failure(BadPrice)
      else if Amount(p.marketValue).None? then Failure(BadValue)
      else if p.unrealizedPnl.Some? && Amount(p.unrealizedPnl).None? then Failure(BadPnl)
      else
        var symbol := SymbolOf(p).value;
        Success(Holding(p.conid, symbol, NameOf(p, symbol), p.assetClass.value, BASE_CURRENCY, quantity,
                        cost.value, p.marketPrice.value, p.marketValue.value, p.unrealizedPnl))
  }

  /** The code of another currency, when the broker gave a proper one. */
  function CurrencyCode(p: Position): Option<string> {
    if p.currency.Some? && |p.currency.value| == 3 && IsUpperWord(p.currency.value) then p.currency else None
  }

  // ---- What a list holds ---------------------------------------------------------------

  predicate IsOpen(p: Position) {
    p.quantity.Some? && p.quantity.value != 0.0
  }

  /** Closed, or a valid holding. */
  predicate IsValid(p: Position) {
    p.quantity.Some? && (IsOpen(p) ==> HoldingOf(p, p.quantity.value).Success?)
  }

  function Counted(p: Position): Option<int> {
    if IsOpen(p) then Some(p.conid) else None
  }

  function Kept(p: Position): Option<Holding> {
    if IsOpen(p) && IsValid(p) && p.currency == Some(BASE_CURRENCY) then Some(HoldingOf(p, p.quantity.value).value) else None
  }

  function LeftOut(p: Position): Option<Skipped> {
    if IsOpen(p) && IsValid(p) && p.currency != Some(BASE_CURRENCY) then
      Some(Skipped(HoldingOf(p, p.quantity.value).value.symbol, CurrencyCode(p)))
    else None
  }

  /** What `pick` finds in a list, in order. */
  function Chosen<T(!new), U>(pick: T -> Option<U>, s: seq<T>): seq<U> {
    if s == [] then []
    else (if pick(s[0]).Some? then [pick(s[0]).value] else []) + Chosen(pick, s[1..])
  }

  /** The first thing that refuses a list, when `counted` open positions came before it. */
  function Problem(positions: seq<Position>, counted: nat): Option<Refusal> {
    if positions == [] then None
    else
      var p := positions[0];
      if p.quantity.None? then Some(NoQuantity)
      else if !IsOpen(p) then Problem(positions[1..], counted)
      else if counted >= MAX_POSITIONS then Some(TooMany)
      else if HoldingOf(p, p.quantity.value).Failure? then Some(HoldingOf(p, p.quantity.value).error)
      else Problem(positions[1..], counted + 1)
  }

  predicate NoRepeats(s: seq<int>) {
    forall i, j | 0 <= i < j < |s| :: s[i] != s[j]
  }

  // ---- Orders --------------------------------------------------------------------------

  predicate IntLeq(a: int, b: int) {
    a <= b
  }

  /** By market value, largest first, then by contract. */
  predicate HoldingLeq(a: Holding, b: Holding) {
    a.marketValue > b.marketValue || (a.marketValue == b.marketValue && a.conid <= b.conid)
  }

  predicate TextLeq(a: string, b: string) {
    a == [] || (b != [] && (a[0] < b[0] || (a[0] == b[0] && TextLeq(a[1..], b[1..]))))
  }

  /** By symbol, then by currency, an absent one first. */
  predicate SkippedLeq(a: Skipped, b: Skipped) {
    if a.symbol == b.symbol then
      a.currency.None? || (b.currency.Some? && TextLeq(a.currency.value, b.currency.value))
    else TextLeq(a.symbol, b.symbol)
  }

  // ---- The mapping ---------------------------------------------------------------------

  function Truncated<T>(s: seq<T>, max: nat): seq<T> {
    if |s| > max then s[..max] else s
  }

  /** The amounts of the base ledger. */
  function Totals(ledger: map<string, LedgerEntry>): Result<(real, real), Refusal> {
    if "BASE" !in ledger then Failure(NoBase)
    else if Amount(ledger["BASE"].netLiquidation).None? then Failure(BadNetLiquidation)
    else if Amount(ledger["BASE"].cash).None? then Failure(BadCash)
    else Success((ledger["BASE"].netLiquidation.value, ledger["BASE"].cash.value))
  }

  function Mapped(positions: seq<Position>, ledger: map<string, LedgerEntry>): Result<Snapshot, Refusal> {
    var totals :- Totals(ledger);
    if Problem(positions, 0).Some? then Failure(Problem(positions, 0).value)
    else if !NoRepeats(Chosen(Counted, positions)) then Failure(Duplicate)
    else
      var skipped := Chosen(LeftOut, positions);
      Success(Snapshot(totals.0, totals.1, SortBy(HoldingLeq, Chosen(Kept, positions)),
                       Truncated(SortBy(SkippedLeq, skipped), MAX_SKIPPED), |skipped|))
  }

  predicate HasTwins(s: seq<int>) {
    exists k | 0 <= k < |s| - 1 :: s[k] == s[k + 1]
  }

  /** In a sorted list, repeats are neighbours. */
  lemma RepeatsAreTwins(s: seq<int>)
    requires Sorted(IntLeq, s)
    ensures HasTwins(s) <==> !NoRepeats(s)
  {
    if !NoRepeats(s) {
      var i, j :| 0 <= i < j < |s| && s[i] == s[j];
      assert IntLeq(s[i], s[i + 1]);
      if i + 1 < j {
        assert IntLeq(s[i + 1], s[j]);
      }
      assert s[i] == s[i + 1];
    }
  }

  lemma SortingShowsRepeats(s: seq<int>)
    ensures HasTwins(SortBy(IntLeq, s)) <==> !NoRepeats(s)
  {
    SortBySorted(IntLeq, s);
    RepeatsAreTwins(SortBy(IntLeq, s));
    RepeatsShow(s);
    RepeatsShow(SortBy(IntLeq, s));
  }

  lemma RepeatsShow(s: seq<int>)
    ensures NoRepeats(s) <==> forall x :: multiset(s)[x] <= 1
  {
    if !NoRepeats(s) {
      var i, j :| 0 <= i < j < |s| && s[i] == s[j];
      assert s == s[..i] + [s[i]] + s[i + 1..j] + [s[j]] + s[j + 1..];
      assert multiset(s)[s[i]] >= 2;
    }
    forall x | NoRepeats(s) ensures multiset(s)[x] <= 1 {
      OnceEach(s, x);
    }
  }

  lemma {:induction false} OnceEach(s: seq<int>, x: int)
    requires NoRepeats(s)
    ensures multiset(s)[x] <= 1
  {
    if s != [] {
      OnceEach(s[1..], x);
      assert s == [s[0]] + s[1..];
      assert s[0] !in s[1..];
    }
  }

  /** What has been collected and what is still to come make up the whole. */
  ghost predicate SoFar(positions: seq<Position>, rest: seq<Position>, holdings: seq<Holding>, skipped: seq<Skipped>, conids: seq<int>) {
    && holdings + Chosen(Kept, rest) == Chosen(Kept, positions)
    && skipped + Chosen(LeftOut, rest) == Chosen(LeftOut, positions)
    && conids + Chosen(Counted, rest) == Chosen(Counted, positions)
    && Problem(positions, 0) == Problem(rest, |conids|)
    && |conids| <= MAX_POSITIONS
  }

  lemma ClosedTurn(positions: seq<Position>, rest: seq<Position>, holdings: seq<Holding>, skipped: seq<Skipped>, conids: seq<int>)
    requires rest != [] && rest[0].quantity == Some(0.0) && SoFar(positions, rest, holdings, skipped, conids)
    ensures SoFar(positions, rest[1..], holdings, skipped, conids)
  {
    assert Chosen(Kept, rest) == Chosen(Kept, rest[1..]);
    assert Chosen(LeftOut, rest) == Chosen(LeftOut, rest[1..]);
    assert Chosen(Counted, rest) == Chosen(Counted, rest[1..]);
  }

  lemma Regrouped<T>(a: seq<T>, b: seq<T>, c: seq<T>)
    ensures a + (b + c) == a + b + c
  {
  }

  lemma OpenTurn(positions: seq<Position>, rest: seq<Position>, holdings: seq<Holding>, skipped: seq<Skipped>, conids: seq<int>)
    requires rest != [] && IsOpen(rest[0]) && IsValid(rest[0]) && |conids| < MAX_POSITIONS
    requires SoFar(positions, rest, holdings, skipped, conids)
    ensures SoFar(positions, rest[1..], holdings + Chosen(Kept, [rest[0]]), skipped + Chosen(LeftOut, [rest[0]]),
                  conids + [rest[0].conid])
  {
    Regrouped(holdings, Chosen(Kept, [rest[0]]), Chosen(Kept, rest[1..]));
    Regrouped(skipped, Chosen(LeftOut, [rest[0]]), Chosen(LeftOut, rest[1..]));
    Regrouped(conids, [rest[0].conid], Chosen(Counted, rest[1..]));
  }

  lemma NoneLeft(positions: seq<Position>, holdings: seq<Holding>, skipped: seq<Skipped>, conids: seq<int>)
    requires SoFar(positions, [], holdings, skipped, conids)
    ensures holdings == Chosen(Kept, positions) && skipped == Chosen(LeftOut, positions)
    ensures conids == Chosen(Counted, positions) && Problem(positions, 0).None?
  {
    assert holdings + [] == holdings && skipped + [] == skipped && conids + [] == conids;
  }

  /** The head of the rest as the loop sees it. */
  lemma Head(rest: seq<Position>, counted: nat)
    requires rest != []
    ensures rest[0].quantity.None? ==> Problem(rest, counted) == Some(NoQuantity)
    ensures IsOpen(rest[0]) ==>
              var holding := HoldingOf(rest[0], rest[0].quantity.value);
              && (counted >= MAX_POSITIONS ==> Problem(rest, counted) == Some(TooMany))
              && (counted < MAX_POSITIONS && holding.Failure? ==> Problem(rest, counted) == Some(holding.error))
              && (holding.Success? ==>
                    && holding.value.conid == rest[0].conid
                    && Chosen(Kept, [rest[0]]) == (if rest[0].currency == Some(BASE_CURRENCY) then [holding.value] else [])
                    && Chosen(LeftOut, [rest[0]]) ==
                       (if rest[0].currency == Some(BASE_CURRENCY) then []
                        else [Skipped(holding.value.symbol, CurrencyCode(rest[0]))]))
  {
  }

  method MapPortfolio(positions: seq<Position>, ledger: map<string, LedgerEntry>) returns (r: Result<Snapshot, Refusal>)
    ensures r == Mapped(positions, ledger)
  {
    var totals :- Totals(ledger);
    var holdings: seq<Holding> := [];
    var skipped: seq<Skipped> := [];
    var conids: seq<int> := [];
    assert positions[0..] == positions;
    assert SoFar(positions, positions, holdings, skipped, conids);
    for i := 0 to |positions|
      invariant SoFar(positions, positions[i..], holdings, skipped, conids)
    {
      var p := positions[i];
      assert positions[i..][1..] == positions[i + 1..];
      Head(positions[i..], |conids|);
      if p.quantity.None? {
        return Failure(NoQuantity);
      }
      if p.quantity.value == 0.0 {
        ClosedTurn(positions, positions[i..], holdings, skipped, conids);
        continue;
      }
      if |conids| == MAX_POSITIONS {
        return Failure(TooMany);
      }
      var holding :- HoldingOf(p, p.quantity.value);
      OpenTurn(positions, positions[i..], holdings, skipped, conids);
      assert holdings + [] == holdings && skipped + [] == skipped;
      conids := conids + [holding.conid];
      if p.currency == Some(BASE_CURRENCY) {
        holdings := holdings + [holding];
      } else {
        skipped := skipped + [Skipped(holding.symbol, CurrencyCode(p))];
      }
    }
    assert positions[|positions|..] == [];
    NoneLeft(positions, holdings, skipped, conids);
    SortingShowsRepeats(conids);
    conids := SortBy(IntLeq, conids);
    if HasTwins(conids) {
      return Failure(Duplicate);
    }
    r := Success(Snapshot(totals.0, totals.1, SortBy(HoldingLeq, holdings),
                          Truncated(SortBy(SkippedLeq, skipped), MAX_SKIPPED), |skipped|));
  }

  // ---- Order never matters -------------------------------------------------------------

  lemma ChosenNext<T(!new), U>(pick: T -> Option<U>, x: T, rest: seq<T>)
    ensures Chosen(pick, [x] + rest) == Chosen(pick, [x]) + Chosen(pick, rest)
    ensures Chosen(pick, [x]) == if pick(x).Some? then [pick(x).value] else []
  {
    assert ([x] + rest)[1..] == rest;
  }

  lemma {:induction false} ChosenAround<T(!new), U>(pick: T -> Option<U>, before: seq<T>, x: T, after: seq<T>)
    ensures multiset(Chosen(pick, before + [x] + after)) ==
            multiset(Chosen(pick, before + after)) + multiset(Chosen(pick, [x]))
  {
    hide Chosen;
    if before == [] {
      ChosenNext(pick, x, after);
      assert before + [x] + after == [x] + after && before + after == after;
    } else {
      var first, rest := before[0], before[1..];
      ChosenAround(pick, rest, x, after);
      ChosenNext(pick, first, rest + [x] + after);
      ChosenNext(pick, first, rest + after);
      assert before + [x] + after == [first] + (rest + [x] + after);
      assert before + after == [first] + (rest + after);
    }
  }

  lemma ChosenWithout<T(!new), U>(pick: T -> Option<U>, s: seq<T>, k: nat)
    requires k < |s|
    ensures multiset(Chosen(pick, s)) ==
            multiset(Chosen(pick, s[..k] + s[k + 1..])) + multiset(Chosen(pick, [s[k]]))
  {
    hide Chosen;
    ChosenAround(pick, s[..k], s[k], s[k + 1..]);
    assert s[..k] + [s[k]] + s[k + 1..] == s;
  }

  /** Choosing from a rearranged list gives a rearranged choice. */
  lemma {:induction false} ChosenRearranged<T(!new), U>(pick: T -> Option<U>, s: seq<T>, t: seq<T>)
    requires multiset(s) == multiset(t)
    ensures multiset(Chosen(pick, s)) == multiset(Chosen(pick, t))
    decreases |s|
  {
    if s == [] {
      assert |multiset(t)| == 0;
    } else {
      var k := TakeOut(s, t);
      var last := |s| - 1;
      ChosenRearranged(pick, s[..last], t[..k] + t[k + 1..]);
      ChosenWithout(pick, s, last);
      ChosenWithout(pick, t, k);
      assert s[..last] + s[last + 1..] == s[..last];
    }
  }

  ghost predicate AllValid(positions: seq<Position>) {
    forall p <- positions :: IsValid(p)
  }

  /** A list is free of problems exactly when every position is valid and not too many are open. */
  lemma {:induction false} ProblemFree(positions: seq<Position>, counted: nat)
    requires counted <= MAX_POSITIONS
    ensures Problem(positions, counted).None? <==>
            AllValid(positions) && counted + |Chosen(Counted, positions)| <= MAX_POSITIONS
  {
    if positions != [] {
      var p := positions[0];
      assert AllValid(positions) <==> IsValid(p) && AllValid(positions[1..]);
      if p.quantity.Some? && !IsOpen(p) {
        ProblemFree(positions[1..], counted);
      } else if IsOpen(p) && counted < MAX_POSITIONS {
        ProblemFree(positions[1..], counted + 1);
      }
    }
  }

  /** Accepted exactly when the totals and all positions are valid, not too many are open, and their contracts differ. */
  lemma AcceptedExactly(positions: seq<Position>, ledger: map<string, LedgerEntry>)
    ensures Mapped(positions, ledger).Success? <==>
            && Totals(ledger).Success? && AllValid(positions)
            && |Chosen(Counted, positions)| <= MAX_POSITIONS
            && NoRepeats(Chosen(Counted, positions))
  {
    ProblemFree(positions, 0);
  }

  lemma {:induction false} TextOrder(a: string, b: string)
    ensures TextLeq(a, b) || TextLeq(b, a)
    ensures TextLeq(a, b) && TextLeq(b, a) ==> a == b
  {
    if a != [] && b != [] && a[0] == b[0] {
      TextOrder(a[1..], b[1..]);
      assert a == [a[0]] + a[1..] && b == [b[0]] + b[1..];
    }
  }

  lemma {:induction false} TextChain(a: string, b: string, c: string)
    requires TextLeq(a, b) && TextLeq(b, c)
    ensures TextLeq(a, c)
  {
    if a != [] && a[0] == b[0] == c[0] {
      TextChain(a[1..], b[1..], c[1..]);
    }
  }

  lemma SkippedOrder(x: Skipped, y: Skipped)
    ensures SkippedLeq(x, y) || SkippedLeq(y, x)
    ensures SkippedLeq(x, y) && SkippedLeq(y, x) ==> x == y
  {
    TextOrder(x.symbol, y.symbol);
    if x.currency.Some? && y.currency.Some? {
      TextOrder(x.currency.value, y.currency.value);
    }
  }

  lemma SkippedChain(x: Skipped, y: Skipped, z: Skipped)
    requires SkippedLeq(x, y) && SkippedLeq(y, z)
    ensures SkippedLeq(x, z)
  {
    TextOrder(x.symbol, y.symbol);
    if x.symbol == y.symbol == z.symbol {
      if x.currency.Some? {
        TextChain(x.currency.value, y.currency.value, z.currency.value);
      }
    } else {
      SkippedOrder(y, z);
      TextOrder(y.symbol, z.symbol);
      TextOrder(x.symbol, z.symbol);
      TextOrder(x.symbol, x.symbol);
      TextOrder(z.symbol, z.symbol);
      TextChain(x.symbol, y.symbol, z.symbol);
    }
  }

  lemma SkippedTotal()
    ensures Total(SkippedLeq)
    ensures forall s: seq<Skipped> :: Distinguishes(SkippedLeq, s)
  {
    forall x, y ensures SkippedLeq(x, y) || SkippedLeq(y, x) {
      SkippedOrder(x, y);
    }
    forall x, y, z | SkippedLeq(x, y) && SkippedLeq(y, z) ensures SkippedLeq(x, z) {
      SkippedChain(x, y, z);
    }
    forall x, y | SkippedLeq(x, y) && SkippedLeq(y, x) ensures x == y {
      SkippedOrder(x, y);
    }
  }

  lemma HoldingTotal()
    ensures Total(HoldingLeq)
  {
  }

  lemma KeptIsCounted(p: Position)
    ensures Kept(p).Some? ==> Counted(p) == Some(Kept(p).value.conid)
  {
  }

  lemma NoRepeatsLater(x: int, rest: seq<int>)
    requires NoRepeats([x] + rest)
    ensures NoRepeats(rest) && x !in rest
  {
    var all := [x] + rest;
    forall k | 0 <= k < |rest| ensures rest[k] == all[k + 1] && rest[k] != x {
      assert all[0] != all[k + 1];
    }
  }

  ghost predicate ContractsDiffer(holdings: seq<Holding>) {
    forall i, j | 0 <= i < j < |holdings| :: holdings[i].conid != holdings[j].conid
  }

  lemma OneMoreContract(h: Holding, rest: seq<Holding>)
    requires ContractsDiffer(rest) && forall other <- rest :: other.conid != h.conid
    ensures ContractsDiffer([h] + rest)
  {
    forall j | 0 <= j < |rest| ensures rest[j].conid != h.conid {
      assert rest[j] in rest;
    }
  }

  /** No two kept holdings share a contract when no two open positions do. */
  lemma {:induction false} KeptDiffer(positions: seq<Position>)
    requires NoRepeats(Chosen(Counted, positions))
    ensures forall h <- Chosen(Kept, positions) :: h.conid in Chosen(Counted, positions)
    ensures ContractsDiffer(Chosen(Kept, positions))
  {
    if positions != [] {
      hide Chosen, NoRepeats, ContractsDiffer, Kept, Counted;
      var p, rest := positions[0], positions[1..];
      assert positions == [p] + rest;
      ChosenNext(Counted, p, rest);
      ChosenNext(Kept, p, rest);
      KeptIsCounted(p);
      if Counted(p).Some? {
        NoRepeatsLater(Counted(p).value, Chosen(Counted, rest));
      } else {
        assert [] + Chosen(Counted, rest) == Chosen(Counted, rest);
      }
      KeptDiffer(rest);
      if Kept(p).Some? {
        OneMoreContract(Kept(p).value, Chosen(Kept, rest));
      } else {
        assert [] + Chosen(Kept, rest) == Chosen(Kept, rest);
      }
    }
  }

  lemma KeptDistinguished(positions: seq<Position>)
    requires NoRepeats(Chosen(Counted, positions))
    ensures Distinguishes(HoldingLeq, Chosen(Kept, positions))
  {
    KeptDiffer(positions);
    var kept := Chosen(Kept, positions);
    forall x, y | x in kept && y in kept && HoldingLeq(x, y) && HoldingLeq(y, x) ensures x == y {
      var i :| 0 <= i < |kept| && kept[i] == x;
      var j :| 0 <= j < |kept| && kept[j] == y;
      assert i == j;
    }
  }

  /** Every rearrangement of a list is mapped to the same portfolio, or refused too. */
  lemma OrderNeverMatters(positions: seq<Position>, other: seq<Position>, ledger: map<string, LedgerEntry>)
    requires multiset(positions) == multiset(other)
    ensures Mapped(positions, ledger).Success? <==> Mapped(other, ledger).Success?
    ensures Mapped(positions, ledger).Success? ==> Mapped(positions, ledger) == Mapped(other, ledger)
  {
    ChosenRearranged(Counted, positions, other);
    ChosenRearranged(Kept, positions, other);
    ChosenRearranged(LeftOut, positions, other);
    AcceptedExactly(positions, ledger);
    AcceptedExactly(other, ledger);
    SameElements(positions, other);
    SameElements(Chosen(Counted, positions), Chosen(Counted, other));
    SameElements(Chosen(LeftOut, positions), Chosen(LeftOut, other));
    RepeatsShow(Chosen(Counted, positions));
    RepeatsShow(Chosen(Counted, other));
    if Mapped(positions, ledger).Success? {
      HoldingTotal();
      KeptDistinguished(positions);
      SortByPermutation(HoldingLeq, Chosen(Kept, positions), Chosen(Kept, other));
      SkippedTotal();
      SortByPermutation(SkippedLeq, Chosen(LeftOut, positions), Chosen(LeftOut, other));
    }
  }

  lemma {:induction false} KeptOrLeftOut(positions: seq<Position>)
    requires AllValid(positions)
    ensures |Chosen(Kept, positions)| + |Chosen(LeftOut, positions)| == |Chosen(Counted, positions)|
  {
    if positions != [] {
      assert IsValid(positions[0]);
      KeptOrLeftOut(positions[1..]);
    }
  }

  /**
   Every open position is either kept or counted as skipped, at most the
   maximum in all; the kept ones are in order and have different contracts.
   */
  lemma NothingGoesMissing(positions: seq<Position>, ledger: map<string, LedgerEntry>)
    requires Mapped(positions, ledger).Success?
    ensures var snapshot := Mapped(positions, ledger).value;
            && |snapshot.positions| + snapshot.skippedCount == |Filter(IsOpen, positions)| <= MAX_POSITIONS
            && Sorted(HoldingLeq, snapshot.positions)
            && multiset(snapshot.positions) == multiset(Chosen(Kept, positions))
            && ContractsDiffer(snapshot.positions)
  {
    var kept := Chosen(Kept, positions);
    var sorted := SortBy(HoldingLeq, kept);
    AcceptedExactly(positions, ledger);
    KeptOrLeftOut(positions);
    CountedAreOpen(positions);
    HoldingTotal();
    SortBySorted(HoldingLeq, kept);
    KeptDiffer(positions);
    ContractsStillDiffer(kept, sorted);
  }

  lemma {:induction false} CountedAreOpen(positions: seq<Position>)
    ensures |Chosen(Counted, positions)| == |Filter(IsOpen, positions)|
  {
    if positions != [] {
      CountedAreOpen(positions[1..]);
    }
  }

  lemma ContractsStillDiffer(s: seq<Holding>, t: seq<Holding>)
    requires multiset(s) == multiset(t)
    requires ContractsDiffer(s)
    ensures ContractsDiffer(t)
  {
    SameElements(s, t);
    forall i, j | 0 <= i < j < |t| ensures t[i].conid != t[j].conid {
      if t[i] == t[j] {
        assert t == t[..i] + [t[i]] + t[i + 1..j] + [t[j]] + t[j + 1..];
        assert multiset(t)[t[i]] >= 2;
        OnceIn(s, t[i]);
      }
      assert t[i] in s && t[j] in s;
    }
  }

  lemma {:induction false} OnceIn(s: seq<Holding>, h: Holding)
    requires ContractsDiffer(s)
    ensures multiset(s)[h] <= 1
  {
    if s != [] {
      OnceIn(s[1..], h);
      assert s == [s[0]] + s[1..];
      forall k | 0 <= k < |s[1..]| ensures s[1..][k] != s[0] {
        assert s[1..][k] == s[k + 1];
      }
    }
  }

  lemma SortedParts<T(!new)>(leq: (T, T) -> bool, s: seq<T>, n: nat)
    requires Sorted(leq, s) && n <= |s|
    ensures Sorted(leq, s[..n]) && multiset(s[..n]) + multiset(s[n..]) == multiset(s)
    ensures forall x, y | x in s[..n] && y in s[n..] :: leq(x, y)
  {
    assert s == s[..n] + s[n..];
    forall x, y | x in s[..n] && y in s[n..] ensures leq(x, y) {
      var i :| 0 <= i < n && s[i] == x;
      var j :| n <= j < |s| && s[j] == y;
    }
  }

  /** The skips reported are the smallest of all, in order; `unreported` are the others. */
  lemma SmallestAreReported(positions: seq<Position>, ledger: map<string, LedgerEntry>) returns (unreported: seq<Skipped>)
    requires Mapped(positions, ledger).Success?
    ensures var snapshot := Mapped(positions, ledger).value;
            && multiset(snapshot.skipped) + multiset(unreported) == multiset(Chosen(LeftOut, positions))
            && |snapshot.skipped| + |unreported| == snapshot.skippedCount
            && (unreported != [] ==> |snapshot.skipped| == MAX_SKIPPED) && |snapshot.skipped| <= MAX_SKIPPED
            && Sorted(SkippedLeq, snapshot.skipped)
            && forall x, y | x in snapshot.skipped && y in unreported :: SkippedLeq(x, y)
  {
    var sorted := SortBy(SkippedLeq, Chosen(LeftOut, positions));
    var n := if |sorted| > MAX_SKIPPED then MAX_SKIPPED else |sorted|;
    assert Truncated(sorted, MAX_SKIPPED) == sorted[..n];
    SkippedTotal();
    SortBySorted(SkippedLeq, Chosen(LeftOut, positions));
    SortedParts(SkippedLeq, sorted, n);
    unreported := sorted[n..];
  }

  // ---- What an accepted read says ------------------------------------------------------

  predicate InRange(value: real) {
    -MAX_ABS < value < MAX_ABS
  }

  /** `shown` is the text the broker gave, without the white space around it. */
  ghost predicate Shows(given: Option<string>, max: nat, shown: string) {
    && given.Some? && IsTrimmed(shown) && 1 <= |shown| <= max
    && (exists before, after :: AllWhite(before) && AllWhite(after) && given.value == before + (shown + after))
    && (forall k | 0 <= k < |shown| :: !IsControl(shown[k]) && !IsInvisible(shown[k]))
  }

  lemma {:induction false} TrimStartLeaves(s: string) returns (white: string)
    ensures AllWhite(white) && s == white + TrimStart(s)
  {
    white := [];
    if s != [] && IsWhitespace(s[0]) {
      white := TrimStartLeaves(s[1..]);
      white := [s[0]] + white;
    }
  }

  lemma {:induction false} TrimEndLeaves(s: string) returns (white: string)
    ensures AllWhite(white) && s == TrimEnd(s) + white
  {
    white := [];
    if s != [] && IsWhitespace(s[|s| - 1]) {
      white := TrimEndLeaves(s[..|s| - 1]);
      white := white + [s[|s| - 1]];
    }
  }

  lemma DisplayShows(given: Option<string>, max: nat, shown: string)
    ensures DisplayText(given, max) == Some(shown) <==> Shows(given, max, shown)
  {
    hide IsWhitespace, TrimStart, TrimEnd, IsControl, IsInvisible;
    if given.Some? {
      TrimIsTrimmed(given.value);
      var before := TrimStartLeaves(given.value);
      var after := TrimEndLeaves(TrimStart(given.value));
      assert given.value == before + (Trim(given.value) + after);
      if Shows(given, max, shown) {
        var a, b :| AllWhite(a) && AllWhite(b) && given.value == a + (shown + b);
        TrimExactly(a, shown, b);
      }
    }
  }

  /** The ticker, or without a usable one the description. */
  ghost predicate SymbolIs(p: Position, symbol: string) {
    Shows(p.ticker, 32, symbol) || ((forall t :: !Shows(p.ticker, 32, t)) && Shows(p.description, 32, symbol))
  }

  /** The description, unless it is the symbol once more. */
  ghost predicate NameIs(p: Position, symbol: string, name: Option<string>) {
    && name != Some(symbol)
    && (name.Some? ==> Shows(p.description, 128, name.value))
    && (name.None? ==> forall t | Shows(p.description, 128, t) :: t == symbol)
  }

  lemma SymbolShows(p: Position, symbol: string)
    ensures SymbolOf(p) == Some(symbol) <==> SymbolIs(p, symbol)
  {
    hide DisplayText, Shows;
    DisplayShows(p.ticker, 32, symbol);
    DisplayShows(p.description, 32, symbol);
    forall t ensures DisplayText(p.ticker, 32) == Some(t) <==> Shows(p.ticker, 32, t) {
      DisplayShows(p.ticker, 32, t);
    }
  }

  lemma NameShows(p: Position, symbol: string, name: Option<string>)
    ensures NameOf(p, symbol) == name <==> NameIs(p, symbol, name)
  {
    hide DisplayText, Shows;
    forall t ensures DisplayText(p.description, 128) == Some(t) <==> Shows(p.description, 128, t) {
      DisplayShows(p.description, 128, t);
    }
  }

  /**
   A position is accepted as a holding exactly when every field of the holding is
   the broker's own and in range: the price per unit is the average price, or
   without one the average cost.
   */
  lemma HoldingIsThePosition(p: Position, quantity: real, h: Holding)
    ensures HoldingOf(p, quantity) == Success(h) <==>
            && 1 <= h.conid == p.conid <= MAX_CONID
            && SymbolIs(p, h.symbol) && NameIs(p, h.symbol, h.name)
            && p.assetClass == Some(h.assetClass) && 1 <= |h.assetClass| <= 8 && IsUpperWord(h.assetClass)
            && h.currency == BASE_CURRENCY
            && h.quantity == quantity && InRange(quantity)
            && Some(h.avgCost) == (if p.avgPrice.Some? then p.avgPrice else p.avgCost) && InRange(h.avgCost)
            && p.marketPrice == Some(h.lastPrice) && InRange(h.lastPrice)
            && p.marketValue == Some(h.marketValue) && InRange(h.marketValue)
            && h.unrealizedPnl == p.unrealizedPnl && (h.unrealizedPnl.Some? ==> InRange(h.unrealizedPnl.value))
  {
    hide SymbolOf, NameOf, SymbolIs, NameIs;
    SymbolShows(p, h.symbol);
    NameShows(p, h.symbol, h.name);
    if SymbolOf(p).Some? {
      SymbolShows(p, SymbolOf(p).value);
    }
  }

  /** The list holds an open position in the base currency that is this holding. */
  ghost predicate Lists(positions: seq<Position>, h: Holding) {
    exists p <- positions :: IsOpen(p) && p.currency == Some(BASE_CURRENCY) && HoldingOf(p, p.quantity.value) == Success(h)
  }

  lemma {:induction false} ChosenMembers<T(!new), U(!new)>(pick: T -> Option<U>, s: seq<T>)
    ensures forall u :: u in Chosen(pick, s) <==> exists x <- s :: pick(x) == Some(u)
  {
    if s != [] {
      ChosenMembers(pick, s[1..]);
      assert s == [s[0]] + s[1..];
    }
  }

  /** The list holds an open position in another currency that this skip tells of. */
  ghost predicate PassesOver(positions: seq<Position>, x: Skipped) {
    exists p <- positions ::
      && IsOpen(p) && p.currency != Some(BASE_CURRENCY)
      && SymbolOf(p) == Some(x.symbol) && x.currency == CurrencyCode(p)
  }

  /**
   An accepted read shows the broker's own totals, and exactly the open positions
   in the base currency, by falling market value.
   */
  lemma AcceptedReadShows(positions: seq<Position>, ledger: map<string, LedgerEntry>)
    requires Mapped(positions, ledger).Success?
    ensures var snapshot := Mapped(positions, ledger).value;
            && "BASE" in ledger
            && ledger["BASE"].netLiquidation == Some(snapshot.netLiquidation) && InRange(snapshot.netLiquidation)
            && ledger["BASE"].cash == Some(snapshot.cash) && InRange(snapshot.cash)
            && (forall h :: h in snapshot.positions <==> Lists(positions, h))
            && (forall i, j | 0 <= i < j < |snapshot.positions| ::
                  snapshot.positions[i].marketValue >= snapshot.positions[j].marketValue)
            && (forall x <- snapshot.skipped :: PassesOver(positions, x))
  {
    hide HoldingOf, SymbolOf, CurrencyCode, Problem, Lists, PassesOver, Kept, LeftOut, Chosen, SortBy, NoRepeats;
    var snapshot := Mapped(positions, ledger).value;
    NothingGoesMissing(positions, ledger);
    SameElements(snapshot.positions, Chosen(Kept, positions));
    forall h ensures h in snapshot.positions <==> Lists(positions, h) {
      ChosenMembers(Kept, positions);
      KeptIsListed(positions, h);
    }
    var sorted := SortBy(SkippedLeq, Chosen(LeftOut, positions));
    SameElements(sorted, Chosen(LeftOut, positions));
    assert snapshot.skipped <= sorted;
    forall x <- snapshot.skipped ensures PassesOver(positions, x) {
      assert x in sorted;
      ChosenMembers(LeftOut, positions);
      LeftOutIsPassedOver(positions, x);
    }
  }

  lemma LeftOutIsPassedOver(positions: seq<Position>, x: Skipped)
    requires exists p <- positions :: LeftOut(p) == Some(x)
    ensures PassesOver(positions, x)
  {
    hide HoldingOf, SymbolOf, CurrencyCode;
    var p :| p in positions && LeftOut(p) == Some(x);
    SymbolKept(p);
  }

  lemma KeptIsListed(positions: seq<Position>, h: Holding)
    ensures (exists p <- positions :: Kept(p) == Some(h)) <==> Lists(positions, h)
  {
    hide HoldingOf;
  }

  lemma SymbolKept(p: Position)
    requires p.quantity.Some? && HoldingOf(p, p.quantity.value).Success?
    ensures SymbolOf(p) == Some(HoldingOf(p, p.quantity.value).value.symbol)
  {
    hide SymbolOf, NameOf;
  }
}
