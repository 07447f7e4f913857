/**
 One cost row of the paper trader (`add_cost` in
 `jarvis-api/src/memecoin/store.rs`): a charge reads the total and sends the sum
 as the new one, and an abandoned statement may still land, once, at any time.
 */
module LateCosts {

  /** A charge that was sent: what it adds, and the total its statement writes. */
  datatype Charge = Charge(usd: real, writes: real, landed: bool)

  datatype CostRow = CostRow(total: real, charges: seq<Charge>)

  const NO_COSTS := CostRow(0.0, [])

  datatype CostStep = Send(usd: real) | Land(charge: nat)

  predicate Pending(row: CostRow, i: nat) {
    i < |row.charges| && !row.charges[i].landed
  }

  function Step(row: CostRow, step: CostStep): CostRow {
    match step
    case Send(usd) => row.(charges := row.charges + [Charge(usd, row.total + usd, false)])
    case Land(i) =>
      if Pending(row, i) then CostRow(row.charges[i].writes, row.charges[i := row.charges[i].(landed := true)]) else row
  }

  function After(steps: seq<CostStep>): CostRow {
    if steps == [] then NO_COSTS else Step(After(steps[..|steps| - 1]), steps[|steps| - 1])
  }

  /** The charges that landed. */
  function Landed(charges: seq<Charge>): real {
    if charges == [] then 0.0
    else Landed(charges[..|charges| - 1]) + if charges[|charges| - 1].landed then charges[|charges| - 1].usd else 0.0
  }

  /** What the charge read when it was sent is still the total when it lands. */
  predicate Current(row: CostRow, step: CostStep) {
    step.Land? && Pending(row, step.charge) ==> row.charges[step.charge].writes - row.charges[step.charge].usd == row.total
  }

  predicate NoRefunds(steps: seq<CostStep>) {
    forall step <- steps :: step.Send? ==> step.usd >= 0.0
  }

  /** Never more than landed, and no pending charge would make it so. */
  ghost predicate Cautious(row: CostRow) {
    && 0.0 <= row.total <= Landed(row.charges)
    && (forall c <- row.charges :: c.usd >= 0.0 && c.writes <= Landed(row.charges) + (if c.landed then 0.0 else c.usd)
                                   && c.writes >= c.usd)
  }

  lemma LandedLast(charges: seq<Charge>, c: Charge)
    ensures Landed(charges + [c]) == Landed(charges) + if c.landed then c.usd else 0.0
  {
    assert (charges + [c])[..|charges|] == charges;
  }

  lemma {:induction false} LandedUpdate(charges: seq<Charge>, i: nat)
    requires i < |charges| && !charges[i].landed
    ensures Landed(charges[i := charges[i].(landed := true)]) == Landed(charges) + charges[i].usd
  {
    var last := |charges| - 1;
    var after := charges[i := charges[i].(landed := true)];
    if i < last {
      assert after[..last] == charges[..last][i := charges[i].(landed := true)];
      LandedUpdate(charges[..last], i);
    } else {
      assert after[..last] == charges[..last];
    }
  }

  lemma StepIsCautious(row: CostRow, step: CostStep)
    requires Cautious(row) && (step.Send? ==> step.usd >= 0.0)
    ensures Cautious(Step(row, step))
    ensures row.total == Landed(row.charges) ==>
              (Step(row, step).total == Landed(Step(row, step).charges) <==> Current(row, step))
  {
    match step {
      case Send(usd) => LandedLast(row.charges, Charge(usd, row.total + usd, false));
      case Land(i) =>
        if Pending(row, i) {
          LandedUpdate(row.charges, i);
          assert row.charges[i] in row.charges;
        }
    }
  }

  lemma AfterNext(steps: seq<CostStep>, k: nat)
    requires k < |steps|
    ensures After(steps[..k + 1]) == Step(After(steps[..k]), steps[k])
  {
    assert steps[..k + 1][..k] == steps[..k];
  }

  ghost predicate CountedUntil(steps: seq<CostStep>, n: nat)
    requires n <= |steps|
  {
    forall k | 0 <= k <= n :: After(steps[..k]).total == Landed(After(steps[..k]).charges)
  }

  ghost predicate CurrentUntil(steps: seq<CostStep>, n: nat)
    requires n <= |steps|
  {
    forall k | 0 <= k < n :: Current(After(steps[..k]), steps[k])
  }

  lemma CountedNext(steps: seq<CostStep>, n: nat)
    requires n < |steps|
    ensures CountedUntil(steps, n + 1) <==>
            CountedUntil(steps, n) && After(steps[..n + 1]).total == Landed(After(steps[..n + 1]).charges)
    ensures CurrentUntil(steps, n + 1) <==> CurrentUntil(steps, n) && Current(After(steps[..n]), steps[n])
    ensures CountedUntil(steps, n) ==> After(steps[..n]).total == Landed(After(steps[..n]).charges)
  {
    hide After, Landed, Current;
  }

  lemma NothingSent()
    ensures After([]) == NO_COSTS && Cautious(NO_COSTS) && Landed([]) == 0.0
  {
  }

  lemma {:induction false} RunIsCautious(steps: seq<CostStep>, n: nat)
    requires NoRefunds(steps) && n <= |steps|
    ensures Cautious(After(steps[..n]))
    ensures CountedUntil(steps, n) <==> CurrentUntil(steps, n)
  {
    hide After, Cautious, Landed, Step, Current;
    if n == 0 {
      NothingSent();
      assert steps[..0] == [];
    } else {
      hide CountedUntil, CurrentUntil;
      RunIsCautious(steps, n - 1);
      AfterNext(steps, n - 1);
      CountedNext(steps, n - 1);
      StepIsCautious(After(steps[..n - 1]), steps[n - 1]);
    }
  }

  /**
   In whatever order charges land: the stored total is never more than what
   landed, and never negative, and at every time it is exactly that if and only
   if every charge found the total it had read.
   */
  lemma ChargesCountExactly(steps: seq<CostStep>)
    requires NoRefunds(steps)
    ensures forall k | 0 <= k <= |steps| :: 0.0 <= After(steps[..k]).total <= Landed(After(steps[..k]).charges)
    ensures CountedUntil(steps, |steps|) <==> CurrentUntil(steps, |steps|)
  {
    hide After, Landed, CountedUntil, CurrentUntil;
    RunIsCautious(steps, |steps|);
    forall k | 0 <= k <= |steps| ensures 0.0 <= After(steps[..k]).total <= Landed(After(steps[..k]).charges) {
      RunIsCautious(steps, k);
    }
  }

  /** Charges one at a time: sent, then landed or never. */
  ghost predicate OneAtATime(steps: seq<CostStep>) {
    forall k | 0 <= k < |steps| && steps[k].Land? ::
      && Pending(After(steps[..k]), steps[k].charge)
      && k > 0 && steps[k - 1].Send? && steps[k].charge == |After(steps[..k]).charges| - 1
  }

  /** As long as each statement lands before the next charge is sent, or not at all, nothing is lost. */
  lemma OneAtATimeCounts(steps: seq<CostStep>)
    requires NoRefunds(steps) && OneAtATime(steps)
    ensures CountedUntil(steps, |steps|)
  {
    hide Landed, CountedUntil, NoRefunds;
    forall k | 0 <= k < |steps| ensures Current(After(steps[..k]), steps[k]) {
      if steps[k].Land? {
        AfterNext(steps, k - 1);
      }
    }
    ChargesCountExactly(steps);
  }

  /** A charge that lands after a later one undoes it. */
  lemma LateChargeUndoes(first: real, second: real) returns (steps: seq<CostStep>)
    requires first >= 0.0 && second > 0.0
    ensures NoRefunds(steps) && !CountedUntil(steps, |steps|)
    ensures After(steps).total == first && Landed(After(steps).charges) == first + second
  {
    steps := [Send(first), Send(second), Land(1), Land(0)];
    assert steps[..0] == [] && steps[..4] == steps;
    AfterNext(steps, 0);
    AfterNext(steps, 1);
    AfterNext(steps, 2);
    AfterNext(steps, 3);
    var done := [Charge(first, first, true), Charge(second, second, true)];
    assert After(steps).charges == done;
    assert done[..1] == [Charge(first, first, true)] && done[..1][..0] == [];
    assert Landed(done[..1]) == first;
  }
}
