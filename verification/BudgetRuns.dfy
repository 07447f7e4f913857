/**
 Why the budget gate rounds as it does, and what its signed column costs: for
 every other choice there is a run of the protocol that loses a promise.
 */
module BudgetRuns {
  import opened Shared
  import opened Budget
  import opened BudgetGate

  // ---- Runs, one step at a time -----------------------------------------------------

  /** A run that ends in `s`. */
  ghost predicate RunsTo(run: seq<System>, s: System) {
    IsRun(run) && run[|run| - 1] == s
  }

  lemma RunGrows(run: seq<System>, s: System, step: Step)
    requires RunsTo(run, s) && Enabled(s, step)
    ensures RunsTo(run + [After(s, step)], After(s, step)) && (run + [After(s, step)])[0] == run[0]
  {
    var longer := run + [After(s, step)];
    assert Next(s, step, After(s, step));
    forall i | 0 <= i < |longer| - 1 ensures CanBecome(longer[i], longer[i + 1]) {
      if i < |run| - 1 {
        assert CanBecome(run[i], run[i + 1]);
      }
    }
  }

  /** Nothing that was admitted is ever refused for these limits. */
  const AMPLE := Limits(U64_MAX, U64_MAX, U64_MAX)
  const ID := "task"

  function Idle(rounding: Rounding, now: int): System {
    System(rounding, now, Down, map[], map[], {}, map[], map[], {}, map[])
  }

  /** Core serves, with one reservation acknowledged and stored. */
  predicate Acknowledged(s: System, rounding: Rounding, cents: nat, ttl: nat, at: int)
    requires cents <= U64_MAX
  {
    && s.rounding == rounding && s.now == at && s.phase.Serving?
    && s.rows == map[ID := Row(AsStored(cents), Active, at + WholeSeconds(ttl, rounding.up) * SECOND)]
    && s.promised == map[ID := Promise(cents, at + ttl)]
  }

  /** Core has started on an empty database. */
  function Started(rounding: Rounding, at: int): System {
    Idle(rounding, at).(phase := Serving(Book(AMPLE, 0, map[])))
  }

  lemma Start(rounding: Rounding, at: int) returns (run: seq<System>)
    ensures RunsTo(run, Started(rounding, at)) && run[0].rounding == rounding
  {
    var s := Idle(rounding, at);
    run := [s];
    run, s := Take(run, s, ReadActive(AMPLE, 0, []));
    run, s := Take(run, s, Readopt);
  }

  lemma Acknowledge(rounding: Rounding, cents: nat, ttl: nat, at: int) returns (run: seq<System>, s: System)
    requires cents <= U64_MAX
    ensures RunsTo(run, s) && run[0].rounding == rounding && Acknowledged(s, rounding, cents, ttl, at)
  {
    s := Started(rounding, at);
    run := Start(rounding, at);
    run, s := Take(run, s, BeginReserve(ID, cents, ttl));
    run, s := Take(run, s, CreateLands(ID));
    run, s := Take(run, s, ReserveReturns(ID));
  }

  lemma Take(run: seq<System>, s: System, step: Step) returns (longer: seq<System>, s': System)
    requires RunsTo(run, s) && Enabled(s, step)
    ensures s' == After(s, step) && RunsTo(longer, s') && longer[0] == run[0]
  {
    RunGrows(run, s, step);
    s' := After(s, step);
    longer := run + [s'];
  }

  /** Core crashes, comes back `later`, and finds `found`. */
  lemma Restart(run: seq<System>, s: System, later: nat, found: seq<DurableHold>) returns (longer: seq<System>, s': System)
    requires RunsTo(run, s) && |found| <= MAX_ACTIVE_ON_START
    requires ListsActive(found, s.rows, s.now + later, s.rounding.spare)
    ensures RunsTo(longer, s') && longer[0] == run[0]
    ensures s' == s.(now := s.now + later, waiting := map[], entitled := s'.entitled,
                     phase := Serving(RestoreAll(Book(AMPLE, 0, map[]), found, s.now + later)))
  {
    longer, s' := Take(run, s, Crash);
    longer, s' := Take(longer, s', Pass(later));
    longer, s' := Take(longer, s', ReadActive(AMPLE, 0, found));
    longer, s' := Take(longer, s', Readopt);
  }

  lemma RestoreOne(hold: DurableHold, now: int)
    ensures RestoreAll(Book(AMPLE, 0, map[]), [hold], now).holds == map[hold.id := Hold(hold.cents, now + hold.remaining)]
  {
    assert [hold][..0] == [];
    assert RestoreAll(Book(AMPLE, 0, map[]), [], now) == Book(AMPLE, 0, map[]);
  }

  // ---- The column -------------------------------------------------------------------

  /**
   Beyond the column every amount can be lost: the reservation is acknowledged,
   Core restarts, and before the deadline it is held for no cents at all.
   */
  lemma LostInTheColumn(cents: nat) returns (run: seq<System>, s: System)
    requires I64_MAX < cents <= U64_MAX
    ensures RunsTo(run, s) && run[0].rounding == AS_CODED && Outstanding(s, ID) && s.promised[ID].cents == cents
    ensures ID in s.phase.book.holds && s.phase.book.holds[ID].cents == 0
  {
    run, s := Acknowledge(AS_CODED, cents, SECOND, 0);
    StoredCentsComeBack(cents);
    var hold := DurableHold(ID, 0, RemainingAt(s.rows[ID].expiresAt, s.now, true));
    assert [hold][0] == hold;
    run, s := Restart(run, s, 0, [hold]);
    RestoreOne(hold, s.now);
  }

  /** In this run the book counts the whole amount of every outstanding reservation of `cents`. */
  ghost predicate CountsInFull(run: seq<System>, cents: nat) {
    forall i: nat, id: string | i < |run| && Outstanding(run[i], id) && run[i].promised[id].cents == cents ::
      id in run[i].phase.book.holds && run[i].phase.book.holds[id].cents >= cents
  }

  /** Every run counts a reserved amount in full exactly when the signed column can hold it. */
  lemma CountedInFullExactly(cents: nat)
    requires cents <= U64_MAX
    ensures cents <= I64_MAX <==> forall run: seq<System> | IsRun(run) && run[0].rounding == AS_CODED :: CountsInFull(run, cents)
  {
    if cents <= I64_MAX {
      forall run: seq<System> | IsRun(run) && run[0].rounding == AS_CODED ensures CountsInFull(run, cents) {
        forall i: nat, id: string | i < |run| && Outstanding(run[i], id) && run[i].promised[id].cents == cents
          ensures id in run[i].phase.book.holds && run[i].phase.book.holds[id].cents >= cents
        {
          AcknowledgedIsCounted(run, i, id);
        }
      }
    } else {
      var run, s := LostInTheColumn(cents);
      assert Outstanding(run[|run| - 1], ID);
      assert !CountsInFull(run, cents);
    }
  }

  // ---- The rounding -----------------------------------------------------------------

  /** A lifetime of one and a half seconds, stored as one: after 1.2 seconds a restart finds nothing. */
  lemma LostWithoutRoundingUp(spare: bool) returns (run: seq<System>, s: System)
    ensures RunsTo(run, s) && run[0].rounding == Rounding(false, spare) && Outstanding(s, ID)
    ensures ID !in s.phase.book.holds
  {
    run, s := Acknowledge(Rounding(false, spare), 1, 1_500_000_000, 0);
    run, s := Restart(run, s, 1_200_000_000, []);
  }

  /** A whole second from half past on: 0.3 seconds before its end a restart grants nothing, and a sweep drops it. */
  lemma LostWithoutTheSpareSecond() returns (run: seq<System>, s: System)
    ensures RunsTo(run, s) && run[0].rounding == Rounding(true, false) && Outstanding(s, ID)
    ensures ID !in s.phase.book.holds
  {
    run, s := Acknowledge(Rounding(true, false), 1, SECOND, 500_000_000);
    var hold := DurableHold(ID, 1, 0);
    assert [hold][0] == hold;
    run, s := Restart(run, s, 700_000_000, [hold]);
    RestoreOne(hold, s.now);
    run, s := Take(run, s, SweepBook);
  }

  /** In this run every outstanding reservation is held. */
  ghost predicate HoldsAll(run: seq<System>) {
    forall i: nat, id: string | i < |run| && Outstanding(run[i], id) :: Held(run[i], id)
  }

  /** Every run holds every outstanding reservation exactly when the gate rounds both ways, as it does. */
  lemma BothRoundingsAreNeeded(rounding: Rounding)
    ensures rounding == AS_CODED <==> forall run: seq<System> | IsRun(run) && run[0].rounding == rounding :: HoldsAll(run)
  {
    if rounding == AS_CODED {
      forall run: seq<System> | IsRun(run) && run[0].rounding == rounding ensures HoldsAll(run) {
        forall i: nat, id: string | i < |run| && Outstanding(run[i], id) ensures Held(run[i], id) {
          AcknowledgedIsCounted(run, i, id);
        }
      }
    } else {
      var run, s;
      if rounding.up {
        run, s := LostWithoutTheSpareSecond();
      } else {
        run, s := LostWithoutRoundingUp(rounding.spare);
      }
      assert Outstanding(run[|run| - 1], ID);
      assert !HoldsAll(run);
    }
  }
}
