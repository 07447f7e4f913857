/**
 The in-memory budget book of `crates/usage/src/lib.rs`: the atomic admission
 point for monthly spend in euro cents. `Book` is its value; the class
 `BudgetBook` changes its fields in place under one lock.
 */
module Budget {
  import opened Wrappers
  import opened Shared

  function SaturatingAdd(a: nat, b: nat): nat {
    if a + b > U64_MAX then U64_MAX else a + b
  }

  function Max(a: int, b: int): int {
    if a < b then b else a
  }

  datatype Limits = Limits(monthlySoftCents: nat, monthlyHardCents: nat, perRequestHardCents: nat)

  datatype BudgetError = RequestCap | MonthlyHardCap | DuplicateReservation

  /** An amount held until an instant, in nanoseconds. */
  datatype Hold = Hold(cents: nat, expiresAt: int)

  type Holds = map<string, Hold>

  datatype Book = Book(limits: Limits, actualCents: nat, holds: Holds)

  datatype Snapshot = Snapshot(actualCents: nat, reservedCents: nat, remainingHardCents: nat, aboveSoftLimit: bool)

  ghost function Reserved(holds: Holds): nat
    decreases |holds|
  {
    if holds == map[] then 0
    else
      var id :| id in holds;
      holds[id].cents + Reserved(holds - {id})
  }

  /** What counts against the month: spent and held. */
  ghost function Committed(book: Book): nat {
    SaturatingAdd(book.actualCents, Reserved(book.holds))
  }

  ghost predicate WithinCap(book: Book) {
    Committed(book) <= book.limits.monthlyHardCents
  }

  ghost function Reserve(book: Book, id: string, cents: nat, expiresAt: int): Result<Book, BudgetError> {
    if cents > book.limits.perRequestHardCents then Failure(RequestCap)
    else if id in book.holds then Failure(DuplicateReservation)
    else if SaturatingAdd(Committed(book), cents) > book.limits.monthlyHardCents then Failure(MonthlyHardCap)
    else Success(book.(holds := book.holds[id := Hold(cents, expiresAt)]))
  }

  /** Count a durable hold again, whatever the cap says. */
  function Restore(book: Book, id: string, cents: nat, expiresAt: int): Book {
    var hold := if id in book.holds then book.holds[id] else Hold(0, expiresAt);
    book.(holds := book.holds[id := Hold(Max(hold.cents, cents), Max(hold.expiresAt, expiresAt))])
  }

  /** The book after a settle, and whether it was accepted. */
  ghost function Settle(book: Book, id: string, actualCents: nat): (Book, Result<(), BudgetError>) {
    if id !in book.holds then (book, Failure(DuplicateReservation))
    else
      var rest := book.(holds := book.holds - {id});
      if SaturatingAdd(Committed(rest), actualCents) > book.limits.monthlyHardCents then
        (book.(holds := book.holds[id := book.holds[id].(cents := Max(book.holds[id].cents, actualCents))]),
         Failure(MonthlyHardCap))
      else (rest.(actualCents := SaturatingAdd(book.actualCents, actualCents)), Success(()))
  }

  function Cancel(book: Book, id: string): Book {
    book.(holds := book.holds - {id})
  }

  function Unexpired(holds: Holds, now: int): Holds {
    map id | id in holds && holds[id].expiresAt > now :: holds[id]
  }

  function Expire(book: Book, now: int): Book {
    book.(holds := Unexpired(book.holds, now))
  }

  /** What the durable record says was spent takes the place of the book's own count. */
  function Reconcile(book: Book, actualCents: nat): Book {
    book.(actualCents := actualCents)
  }

  // ---- Sums over the holds --------------------------------------------------------

  lemma {:induction false} ReservedSplit(holds: Holds, id: string)
    requires id in holds
    ensures Reserved(holds) == holds[id].cents + Reserved(holds - {id})
    decreases |holds|
  {
    var first :| first in holds && Reserved(holds) == holds[first].cents + Reserved(holds - {first});
    if first != id {
      ReservedSplit(holds - {first}, id);
      ReservedSplit(holds - {id}, first);
      assert holds - {first} - {id} == holds - {id} - {first};
    }
  }

  lemma ReservedPut(holds: Holds, id: string, hold: Hold)
    ensures Reserved(holds[id := hold]) == hold.cents + Reserved(holds - {id})
  {
    ReservedSplit(holds[id := hold], id);
    assert holds[id := hold] - {id} == holds - {id};
  }

  lemma {:induction false} ReservedMonotone(part: Holds, holds: Holds)
    requires forall id <- part :: id in holds && holds[id] == part[id]
    ensures Reserved(part) <= Reserved(holds)
    decreases |part|
  {
    if part != map[] {
      var id :| id in part;
      ReservedSplit(part, id);
      ReservedSplit(holds, id);
      ReservedMonotone(part - {id}, holds - {id});
    }
  }

  // ---- The cap ------------------------------------------------------------------------

  /**
   A request is admitted exactly when it is no larger than the request cap, its
   id is new and it fits below the hard cap; an admitted one leaves the book
   within the cap, even a book restored above it. Cancelling it gives the book back.
   */
  lemma AdmissionIsExact(book: Book, id: string, cents: nat, expiresAt: int)
    ensures Reserve(book, id, cents, expiresAt).Success? <==>
            && cents <= book.limits.perRequestHardCents
            && id !in book.holds
            && SaturatingAdd(book.actualCents, Reserved(book.holds) + cents) <= book.limits.monthlyHardCents
    ensures Reserve(book, id, cents, expiresAt).Success? ==>
              var after := Reserve(book, id, cents, expiresAt).value;
              && WithinCap(after)
              && Reserved(after.holds) == Reserved(book.holds) + cents
              && Cancel(after, id) == book
  {
    if id !in book.holds {
      ReservedPut(book.holds, id, Hold(cents, expiresAt));
      assert book.holds - {id} == book.holds;
      assert book.holds[id := Hold(cents, expiresAt)] - {id} == book.holds;
    }
  }

  /**
   An admitted request is held until its own deadline and not beyond: a sweep
   from then on leaves the book as it would be without the request, in what it
   admits, counts and shows; a sweep before then keeps it, in full.
   */
  lemma HeldUntilTheDeadline(book: Book, id: string, cents: nat, expiresAt: int, now: int)
    requires Reserve(book, id, cents, expiresAt).Success?
    ensures var after := Reserve(book, id, cents, expiresAt).value;
            && (now >= expiresAt ==> Expire(after, now) == Expire(book, now))
            && (now < expiresAt ==>
                  && Expire(after, now) == Expire(book, now).(holds := Expire(book, now).holds[id := Hold(cents, expiresAt)])
                  && Reserved(Expire(after, now).holds) == Reserved(Expire(book, now).holds) + cents)
  {
    var after := Reserve(book, id, cents, expiresAt).value;
    if now < expiresAt {
      assert Expire(after, now).holds == Expire(book, now).holds[id := Hold(cents, expiresAt)];
      ReservedPut(Expire(book, now).holds, id, Hold(cents, expiresAt));
      assert Expire(book, now).holds - {id} == Expire(book, now).holds;
    } else {
      assert Expire(after, now).holds == Expire(book, now).holds;
    }
  }

  /**
   Above the cap nothing is admitted, not even zero cents; at the cap (when it
   is a real one) nothing positive is.
   */
  lemma FullBookAdmitsNothing(book: Book, id: string, cents: nat, expiresAt: int)
    requires Committed(book) >= book.limits.monthlyHardCents
    requires Committed(book) > book.limits.monthlyHardCents
             || (cents > 0 && book.limits.monthlyHardCents < U64_MAX)
    ensures Reserve(book, id, cents, expiresAt).Failure?
  {
  }

  /**
   For every book: a settle is refused exactly when nothing is held under the id,
   or when the amount spent, this one and what else is held exceed the cap. It
   never touches another hold; accepted, it turns the hold into spent money,
   refused for the cap it keeps the hold, at the larger amount and as long.
   */
  lemma SettleIsExact(book: Book, id: string, actualCents: nat)
    requires book.limits.monthlyHardCents < U64_MAX
    ensures var (after, outcome) := Settle(book, id, actualCents);
            && (outcome == Failure(DuplicateReservation) <==> id !in book.holds)
            && (outcome == Failure(MonthlyHardCap) <==>
                  id in book.holds
                  && book.actualCents + Reserved(book.holds) - book.holds[id].cents + actualCents > book.limits.monthlyHardCents)
            && (outcome.Success? || outcome.error != RequestCap)
            && after.limits == book.limits
            && (forall other: string | other != id :: Lookup(after.holds, other) == Lookup(book.holds, other))
            && (outcome.Success? ==> id !in after.holds && after.actualCents == book.actualCents + actualCents)
            && (outcome.Failure? ==> after.actualCents == book.actualCents && (id in after.holds <==> id in book.holds))
            && (outcome == Failure(MonthlyHardCap) ==>
                  && after.holds[id].expiresAt == book.holds[id].expiresAt
                  && after.holds[id].cents >= book.holds[id].cents && after.holds[id].cents >= actualCents
                  && (after.holds[id].cents == book.holds[id].cents || after.holds[id].cents == actualCents))
  {
    if id in book.holds {
      ReservedSplit(book.holds, id);
    }
  }

  /**
   From a book within its cap, settling keeps it there exactly when it is not
   refused for the cap; settling no more than was held is never refused for it.
   A refused settle keeps the hold, at the larger amount.
   */
  lemma SettleAndTheCap(book: Book, id: string, actualCents: nat)
    requires WithinCap(book) && book.limits.monthlyHardCents < U64_MAX
    ensures var (after, outcome) := Settle(book, id, actualCents);
            && (WithinCap(after) <==> outcome != Failure(MonthlyHardCap))
            && (id in book.holds && actualCents <= book.holds[id].cents ==> outcome == Success(()))
            && (outcome == Failure(MonthlyHardCap) ==>
                  id in book.holds && id in after.holds && after.actualCents == book.actualCents
                  && after.holds[id].cents == actualCents && after.holds[id].expiresAt == book.holds[id].expiresAt)
            && (outcome == Success(()) ==>
                  id in book.holds
                  && after.actualCents == book.actualCents + actualCents
                  && Reserved(after.holds) == Reserved(book.holds) - book.holds[id].cents)
  {
    if id in book.holds {
      ReservedSplit(book.holds, id);
      ReservedPut(book.holds, id, book.holds[id].(cents := Max(book.holds[id].cents, actualCents)));
    }
  }

  datatype BookStep =
    | ReserveStep(id: string, cents: nat, expiresAt: int)
    | RolledBackReserve(id: string, cents: nat, expiresAt: int)
    | SettleStep(id: string, actualCents: nat)
    | CancelStep(id: string)
    | ExpireStep(now: int)
    | ReconcileStep(actualCents: nat)

  ghost function Take(book: Book, step: BookStep): Book {
    match step
    case ReserveStep(id, cents, expiresAt) =>
      var r := Reserve(book, id, cents, expiresAt); if r.Success? then r.value else book
    case RolledBackReserve(id, cents, expiresAt) =>
      var r := Reserve(book, id, cents, expiresAt); if r.Success? then Cancel(r.value, id) else book
    case SettleStep(id, actualCents) => Settle(book, id, actualCents).0
    case CancelStep(id) => Cancel(book, id)
    case ExpireStep(now) => Expire(book, now)
    case ReconcileStep(actualCents) => Reconcile(book, actualCents)
  }

  ghost function TakeAll(book: Book, steps: seq<BookStep>): Book
    decreases |steps|
  {
    if steps == [] then book else TakeAll(Take(book, steps[0]), steps[1..])
  }

  /** A settle is for at most what is held, and a reconciled amount fits together with the holds. */
  ghost predicate ModestStep(book: Book, step: BookStep) {
    && (step.SettleStep? && step.id in book.holds ==> step.actualCents <= book.holds[step.id].cents)
    && (step.ReconcileStep? ==> WithinCap(Reconcile(book, step.actualCents)))
  }

  ghost predicate Modest(book: Book, steps: seq<BookStep>)
    decreases |steps|
  {
    steps != [] ==> ModestStep(book, steps[0]) && Modest(Take(book, steps[0]), steps[1..])
  }

  lemma ReleasingKeepsCap(book: Book, holds: Holds)
    requires WithinCap(book) && forall id <- holds :: id in book.holds && book.holds[id] == holds[id]
    ensures WithinCap(book.(holds := holds))
  {
    ReservedMonotone(holds, book.holds);
  }

  lemma TakeKeepsCap(book: Book, step: BookStep)
    requires WithinCap(book) && ModestStep(book, step)
    ensures WithinCap(Take(book, step))
    ensures Take(book, step).limits == book.limits
  {
    match step
    case ReserveStep(id, cents, expiresAt) => AdmissionIsExact(book, id, cents, expiresAt);
    case RolledBackReserve(id, cents, expiresAt) => AdmissionIsExact(book, id, cents, expiresAt);
    case SettleStep(id, actualCents) =>
      if id in book.holds {
        ReservedSplit(book.holds, id);
        if book.limits.monthlyHardCents < U64_MAX {
          SettleAndTheCap(book, id, actualCents);
        }
      }
    case CancelStep(id) => ReleasingKeepsCap(book, book.holds - {id});
    case ExpireStep(now) => ReleasingKeepsCap(book, Unexpired(book.holds, now));
    case ReconcileStep(_) =>
  }

  /**
   However admissions, rolled-back admissions, settles of at most the held
   amount, cancels, sweeps and reconciled amounts that fit interleave, spent
   plus held never passes the hard cap.
   */
  lemma {:induction false} EveryRunStaysWithinTheCap(book: Book, steps: seq<BookStep>, k: nat)
    requires WithinCap(book) && Modest(book, steps) && k <= |steps|
    ensures WithinCap(TakeAll(book, steps[..k]))
    decreases k
  {
    if k > 0 {
      TakeKeepsCap(book, steps[0]);
      assert steps[..k][0] == steps[0] && steps[..k][1..] == steps[1..][..k - 1];
      EveryRunStaysWithinTheCap(Take(book, steps[0]), steps[1..], k - 1);
    }
  }

  // ---- Above the cap --------------------------------------------------------------------

  /** Steps that can lower what counts against the month. */
  ghost predicate Releases(book: Book, step: BookStep) {
    match step
    case SettleStep(id, actualCents) => id in book.holds && actualCents < book.holds[id].cents
    case CancelStep(id) => id in book.holds
    case ExpireStep(now) => Unexpired(book.holds, now) != book.holds
    case ReconcileStep(actualCents) => actualCents < book.actualCents
    case _ => false
  }

  /** Holds are those of before, for the same time, and none is smaller. */
  ghost predicate NothingNew(before: Holds, after: Holds) {
    forall id <- after ::
      id in before && after[id].cents >= before[id].cents && after[id].expiresAt == before[id].expiresAt
  }

  /** One step of a book above its cap: nothing is admitted, and only a release can bring it below. */
  lemma StepAboveTheCap(book: Book, step: BookStep)
    requires !WithinCap(book)
    ensures NothingNew(book.holds, Take(book, step).holds)
    ensures !Releases(book, step) ==> !WithinCap(Take(book, step)) && Take(book, step).holds.Keys == book.holds.Keys
    ensures Take(book, step).limits == book.limits
  {
    match step {
      case ReserveStep(id, cents, expiresAt) => FullBookAdmitsNothing(book, id, cents, expiresAt);
      case RolledBackReserve(id, cents, expiresAt) => FullBookAdmitsNothing(book, id, cents, expiresAt);
      case SettleStep(id, actualCents) =>
        if id in book.holds {
          ReservedSplit(book.holds, id);
          ReservedPut(book.holds, id, book.holds[id].(cents := Max(book.holds[id].cents, actualCents)));
        }
      case CancelStep(id) =>
        if id !in book.holds {
          assert book.holds - {id} == book.holds;
        }
      case ExpireStep(_) =>
      case ReconcileStep(_) =>
    }
  }

  lemma TakeAllNext(book: Book, steps: seq<BookStep>, k: nat)
    requires 0 < k <= |steps|
    ensures TakeAll(book, steps[..k]) == TakeAll(Take(book, steps[0]), steps[1..][..k - 1])
  {
    assert steps[..k][0] == steps[0] && steps[..k][1..] == steps[1..][..k - 1];
  }

  /**
   From a book above its cap, lowered or restored that way, over every run: as
   long as the total has not fallen to the cap nothing new is held, nothing that
   is held shrinks or lasts longer, and so every request was refused.
   */
  lemma {:induction false} NothingNewAboveTheCap(book: Book, steps: seq<BookStep>, k: nat)
    requires k <= |steps| && forall j | 0 <= j < k :: !WithinCap(TakeAll(book, steps[..j]))
    ensures NothingNew(book.holds, TakeAll(book, steps[..k]).holds)
    decreases k
  {
    hide Take, TakeAll, WithinCap;
    if k == 0 {
      TakeNothing(book, steps);
    } else {
      TakeNothing(book, steps);
      StepAboveTheCap(book, steps[0]);
      TakeAllNext(book, steps, k);
      forall j | 0 <= j < k - 1 ensures !WithinCap(TakeAll(Take(book, steps[0]), steps[1..][..j])) {
        TakeAllNext(book, steps, j + 1);
        assert !WithinCap(TakeAll(book, steps[..j + 1]));
      }
      NothingNewAboveTheCap(Take(book, steps[0]), steps[1..], k - 1);
    }
  }

  lemma TakeNothing(book: Book, steps: seq<BookStep>)
    ensures TakeAll(book, steps[..0]) == book
  {
    assert steps[..0] == [];
  }

  /** No step of the run releases anything at its time. */
  ghost predicate Holding(book: Book, steps: seq<BookStep>)
    decreases |steps|
  {
    steps != [] ==> !Releases(book, steps[0]) && Holding(Take(book, steps[0]), steps[1..])
  }

  /** Requests and settles alone, however many and for whatever amounts held or more, never bring it down. */
  lemma {:induction false} OnlyReleasesBringItDown(book: Book, steps: seq<BookStep>, k: nat)
    requires !WithinCap(book) && Holding(book, steps) && k <= |steps|
    ensures !WithinCap(TakeAll(book, steps[..k]))
    ensures TakeAll(book, steps[..k]).holds.Keys == book.holds.Keys
    decreases k
  {
    hide Take, TakeAll, WithinCap, Releases;
    if k == 0 {
      TakeNothing(book, steps);
    } else {
      StepAboveTheCap(book, steps[0]);
      TakeAllNext(book, steps, k);
      OnlyReleasesBringItDown(Take(book, steps[0]), steps[1..], k - 1);
    }
  }

  // ---- Restoring after a restart -----------------------------------------------------------

  /** What startup learns of a stored reservation: its amount, and how many nanoseconds it has left. */
  datatype DurableHold = DurableHold(id: string, cents: nat, remaining: int)

  function RestoreAll(book: Book, holds: seq<DurableHold>, now: int): Book
    decreases |holds|
  {
    if holds == [] then book
    else
      var last := holds[|holds| - 1];
      Restore(RestoreAll(book, holds[..|holds| - 1], now), last.id, last.cents, now + last.remaining)
  }

  /** Every restored hold counts in full and for its whole remaining time. */
  lemma {:induction false} RestoreCountsAll(book: Book, holds: seq<DurableHold>, now: int)
    ensures forall k | 0 <= k < |holds| ::
              var after := RestoreAll(book, holds, now).holds;
              && holds[k].id in after
              && after[holds[k].id].cents >= holds[k].cents
              && after[holds[k].id].expiresAt >= now + holds[k].remaining
    ensures RestoreAll(book, holds, now).actualCents == book.actualCents
    ensures RestoreAll(book, holds, now).limits == book.limits
  {
    if holds != [] {
      var before := holds[..|holds| - 1];
      RestoreCountsAll(book, before, now);
      var after := RestoreAll(book, holds, now).holds;
      forall k | 0 <= k < |holds|
        ensures && holds[k].id in after
                && after[holds[k].id].cents >= holds[k].cents
                && after[holds[k].id].expiresAt >= now + holds[k].remaining
      {
        if k < |before| {
          assert before[k] == holds[k];
        }
      }
    }
  }

  // ---- The book itself ---------------------------------------------------------------------

  class BudgetBook {
    const limits: Limits
    var actualCents: nat
    var holds: Holds

    function State(): Book
      reads this
    {
      Book(limits, actualCents, holds)
    }

    constructor (limits: Limits, actualCents: nat)
      ensures State() == Book(limits, actualCents, map[])
    {
      this.limits, this.actualCents, this.holds := limits, actualCents, map[];
    }

    method ReservedCents() returns (sum: nat)
      ensures sum == Reserved(holds)
    {
      sum := 0;
      var left := holds;
      while left != map[]
        invariant sum + Reserved(left) == Reserved(holds)
        decreases |left|
      {
        var id :| id in left;
        ReservedSplit(left, id);
        sum := sum + left[id].cents;
        left := left - {id};
      }
    }

    method TryReserve(id: string, cents: nat, expiresAt: int) returns (r: Result<(), BudgetError>)
      modifies this
      ensures match Reserve(old(State()), id, cents, expiresAt)
              case Success(book) => r == Success(()) && State() == book
              case Failure(e) => r == Failure(e) && State() == old(State())
    {
      if cents > limits.perRequestHardCents {
        return Failure(RequestCap);
      }
      if id in holds {
        return Failure(DuplicateReservation);
      }
      var reserved := ReservedCents();
      if SaturatingAdd(SaturatingAdd(actualCents, reserved), cents) > limits.monthlyHardCents {
        return Failure(MonthlyHardCap);
      }
      holds := holds[id := Hold(cents, expiresAt)];
      return Success(());
    }

    method RestoreHold(id: string, cents: nat, expiresAt: int)
      modifies this
      ensures State() == Restore(old(State()), id, cents, expiresAt)
    {
      var hold := if id in holds then holds[id] else Hold(0, expiresAt);
      holds := holds[id := Hold(Max(hold.cents, cents), Max(hold.expiresAt, expiresAt))];
    }

    /** The startup loop: every still-active durable hold is adopted again. */
    method Readopt(durable: seq<DurableHold>, now: int)
      modifies this
      ensures State() == RestoreAll(old(State()), durable, now)
    {
      for i := 0 to |durable|
        invariant State() == RestoreAll(old(State()), durable[..i], now)
      {
        assert durable[..i + 1][..i] == durable[..i];
        RestoreHold(durable[i].id, durable[i].cents, now + durable[i].remaining);
      }
      assert durable[..|durable|] == durable;
    }

    method SettleHold(id: string, actual: nat) returns (r: Result<(), BudgetError>)
      modifies this
      ensures (State(), r) == Settle(old(State()), id, actual)
    {
      if id !in holds {
        return Failure(DuplicateReservation);
      }
      var hold := holds[id];
      ghost var all := holds;
      holds := holds - {id};
      var reserved := ReservedCents();
      if SaturatingAdd(SaturatingAdd(actualCents, reserved), actual) > limits.monthlyHardCents {
        holds := holds[id := hold.(cents := Max(hold.cents, actual))];
        assert holds == all[id := hold.(cents := Max(hold.cents, actual))];
        return Failure(MonthlyHardCap);
      }
      actualCents := SaturatingAdd(actualCents, actual);
      return Success(());
    }

    method CancelHold(id: string) returns (held: bool)
      modifies this
      ensures State() == Cancel(old(State()), id) && held == (id in old(holds))
    {
      held := id in holds;
      holds := holds - {id};
    }

    method ReconcileActual(cents: nat)
      modifies this
      ensures State() == Reconcile(old(State()), cents)
    {
      actualCents := cents;
    }

    /** Drop every lapsed hold; returns how many. */
    method ExpireHolds(now: int) returns (dropped: nat)
      modifies this
      ensures State() == Expire(old(State()), now)
      ensures dropped == |old(holds)| - |holds|
    {
      var before := |holds|;
      var kept := Unexpired(holds, now);
      FewerHolds(kept, holds);
      holds := kept;
      dropped := before - |holds|;
    }

    method TakeSnapshot() returns (s: Snapshot)
      ensures s.actualCents == actualCents && s.reservedCents == Reserved(holds)
      ensures s.remainingHardCents == 0 <==> Committed(State()) >= limits.monthlyHardCents
      ensures s.remainingHardCents > 0 ==> s.remainingHardCents + Committed(State()) == limits.monthlyHardCents
      ensures s.aboveSoftLimit <==> Committed(State()) >= limits.monthlySoftCents
    {
      var reserved := ReservedCents();
      var total := SaturatingAdd(actualCents, reserved);
      s := Snapshot(
        actualCents,
        reserved,
        if total < limits.monthlyHardCents then limits.monthlyHardCents - total else 0,
        total >= limits.monthlySoftCents);
    }
  }

  lemma FewerHolds(kept: Holds, holds: Holds)
    requires kept.Keys <= holds.Keys
    ensures |kept| <= |holds|
  {
    var dropped := holds.Keys - kept.Keys;
    assert holds.Keys == kept.Keys + dropped;
    assert |kept.Keys| == |kept| && |holds.Keys| == |holds|;
  }
}
