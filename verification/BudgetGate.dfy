/**
 The crash-safe reservation protocol of `jarvis-api/src/budget_gate.rs`: an
 in-memory book admits, durable rows survive restarts.

 One step is one atomic effect: a lock section on the book, a statement taking
 effect in the database, a call returning, a crash. Statements that were sent
 may take effect much later, after the caller gave up or Core crashed, or
 never. Time is one global clock in nanoseconds.
 */
module BudgetGate {
  import opened Wrappers
  import opened Shared
  import opened Budget

  const SECOND: int := 1_000_000_000
  const MAX_ACTIVE_ON_START: nat := 10_000

  // ---- Rounding at the database boundary -------------------------------------------

  /** Whether a create rounds a lifetime up, and whether a restart grants a spare second. */
  datatype Rounding = Rounding(up: bool, spare: bool)

  /** The gate does both. */
  const AS_CODED := Rounding(true, true)

  /** Whole seconds, any fraction rounded up or dropped. */
  function WholeSeconds(ttl: nat, up: bool): nat {
    ttl / SECOND + if up && ttl % SECOND > 0 then 1 else 0
  }

  /** `u64 as i64`. */
  function AsStored(cents: nat): int
    requires cents <= U64_MAX
  {
    if cents <= I64_MAX then cents else cents - U64_MAX - 1
  }

  /** What a restart reads back from a stored amount. */
  function ReadBack(stored: int): nat {
    if stored < 0 then 0 else stored
  }

  /** The remaining time a restart grants: whole seconds of both ends, and the spare one. */
  function RemainingAt(expiresAt: int, now: int, spare: bool): int
    requires expiresAt > now
  {
    (Max(expiresAt / SECOND - now / SECOND, 0) + if spare then 1 else 0) * SECOND
  }

  /** Rounded up, the seconds cover the lifetime; not rounded, exactly when it has no fraction. */
  lemma SecondsRoundUp(ttl: nat)
    ensures ttl <= WholeSeconds(ttl, true) * SECOND < ttl + SECOND
    ensures ttl <= WholeSeconds(ttl, false) * SECOND <==> ttl % SECOND == 0
  {
  }

  /** Stored cents come back unchanged exactly below 2^63, and as nothing otherwise. */
  lemma StoredCentsComeBack(cents: nat)
    requires cents <= U64_MAX
    ensures ReadBack(AsStored(cents)) == cents <==> cents <= I64_MAX
    ensures cents > I64_MAX ==> ReadBack(AsStored(cents)) == 0
  {
  }

  /**
   A hold restored at `now` outlives its row, by less than two seconds. Without
   the extra second it would lapse early exactly when the row's fraction of a
   second lies beyond that of `now`.
   */
  lemma RestoredHoldOutlivesItsRow(expiresAt: int, now: int)
    requires expiresAt > now
    ensures expiresAt < now + RemainingAt(expiresAt, now, true) < expiresAt + 2 * SECOND
    ensures now + RemainingAt(expiresAt, now, false) < expiresAt <==> expiresAt % SECOND > now % SECOND
  {
  }

  // ---- The system ---------------------------------------------------------------------

  datatype Status = Active | Released | Expired

  datatype Row = Row(storedCents: int, status: Status, expiresAt: int)

  /** A create statement on its way to the database. */
  datatype CreateWrite = CreateWrite(storedCents: int, seconds: nat)

  /** What a caller is, or is about to be, promised. */
  datatype Promise = Promise(cents: nat, deadline: int)

  datatype Phase =
    | Down
    | Starting(blank: Book, readAt: int, found: seq<DurableHold>)
    | Serving(book: Book)

  datatype System = System(
    rounding: Rounding,
    now: int,
    phase: Phase,
    rows: map<string, Row>,
    creates: map<string, CreateWrite>,
    releases: set<string>,
    waiting: map<string, Promise>,
    promised: map<string, Promise>,
    issued: set<string>,
    // What the running Core may count at most, and until when.
    entitled: map<string, Promise>)

  datatype Step =
    | Pass(time: nat)
    | BeginReserve(id: string, cents: nat, ttl: nat)
    | CreateLands(id: string)
    | CreateIsLost(id: string)
    | ReserveReturns(id: string)
    | ReserveGivesUp(id: string)
    | SettleCall(id: string, actualCents: nat)
    | CancelCall(id: string)
    | ReleaseLands(id: string)
    | ReleaseIsLost(id: string)
    | SweepBook
    | ReconcileCall(actualCents: nat)
    | ExpireRows
    | Crash
    | ReadActive(limits: Limits, actualCents: nat, found: seq<DurableHold>)
    | Readopt

  predicate IsLive(rows: map<string, Row>, id: string, now: int) {
    id in rows && rows[id].status.Active? && rows[id].expiresAt > now
  }

  /** `found` lists exactly the active, unexpired rows, each as the store reports it. */
  ghost predicate ListsActive(found: seq<DurableHold>, rows: map<string, Row>, now: int, spare: bool) {
    && (forall k | 0 <= k < |found| ::
          && IsLive(rows, found[k].id, now)
          && found[k].cents == ReadBack(rows[found[k].id].storedCents)
          && found[k].remaining == RemainingAt(rows[found[k].id].expiresAt, now, spare))
    && (forall id | IsLive(rows, id, now) :: exists k :: 0 <= k < |found| && found[k].id == id)
  }

  ghost predicate Enabled(s: System, step: Step) {
    match step
    case Pass(_) => true
    case BeginReserve(id, cents, ttl) => s.phase.Serving? && id !in s.issued && cents <= U64_MAX
    case CreateLands(id) => id in s.creates
    case CreateIsLost(id) => id in s.creates
    // The create call answered, so the row was written.
    case ReserveReturns(id) => s.phase.Serving? && id in s.waiting && id in s.rows
    case ReserveGivesUp(id) => s.phase.Serving? && id in s.waiting
    // Only the caller that was promised an id settles or cancels it.
    case SettleCall(id, _) => s.phase.Serving? && id in s.issued && id !in s.waiting
    case CancelCall(id) => s.phase.Serving? && id in s.issued && id !in s.waiting
    case ReleaseLands(id) => id in s.releases
    case ReleaseIsLost(id) => id in s.releases
    case SweepBook => s.phase.Serving?
    case ReconcileCall(_) => s.phase.Serving?
    case ExpireRows => true
    case Crash => true
    case ReadActive(_, _, found) =>
      s.phase.Down? && ListsActive(found, s.rows, s.now, s.rounding.spare) && |found| <= MAX_ACTIVE_ON_START
    case Readopt => s.phase.Starting?
  }

  function ExpireLapsed(rows: map<string, Row>, now: int): map<string, Row> {
    map id | id in rows ::
      if rows[id].status.Active? && rows[id].expiresAt <= now then rows[id].(status := Expired) else rows[id]
  }

  function ReleaseRow(rows: map<string, Row>, id: string): map<string, Row> {
    if id in rows && rows[id].status.Active? then rows[id := rows[id].(status := Released)] else rows
  }

  /** A settle that is refused keeps the larger amount. */
  function RaisedTo(entitled: map<string, Promise>, id: string, cents: nat): map<string, Promise> {
    if id in entitled then entitled[id := entitled[id].(cents := Max(entitled[id].cents, cents))] else entitled
  }

  /** What a restart may count of the rows it reads: two seconds beyond their expiry, exclusive. */
  function RowsEntitle(rows: map<string, Row>, now: int): map<string, Promise> {
    map id | id in rows && IsLive(rows, id, now) :: Promise(ReadBack(rows[id].storedCents), rows[id].expiresAt + 2 * SECOND - 1)
  }

  /** The holds are restored that much after their rows were read. */
  function Prolonged(entitled: map<string, Promise>, time: int): map<string, Promise> {
    map id | id in entitled :: entitled[id].(deadline := entitled[id].deadline + time)
  }

  ghost function After(s: System, step: Step): System
    requires Enabled(s, step)
  {
    match step
    case Pass(time) => s.(now := s.now + time)
    case BeginReserve(id, cents, ttl) =>
      var begun := s.(issued := s.issued + {id});
      (match Reserve(s.phase.book, id, cents, s.now + ttl)
       case Failure(_) => begun
       case Success(book) =>
         begun.(phase := Serving(book),
                creates := s.creates[id := CreateWrite(AsStored(cents), WholeSeconds(ttl, s.rounding.up))],
                waiting := s.waiting[id := Promise(cents, s.now + ttl)],
                entitled := s.entitled[id := Promise(cents, s.now + ttl)]))
    case CreateLands(id) =>
      var write := s.creates[id];
      s.(creates := s.creates - {id},
         rows := s.rows[id := Row(write.storedCents, Active, s.now + write.seconds * SECOND)])
    case CreateIsLost(id) => s.(creates := s.creates - {id})
    case ReserveReturns(id) => s.(waiting := s.waiting - {id}, promised := s.promised[id := s.waiting[id]])
    case ReserveGivesUp(id) =>
      s.(waiting := s.waiting - {id}, phase := Serving(Cancel(s.phase.book, id)), entitled := s.entitled - {id})
    case SettleCall(id, actualCents) =>
      var (book, outcome) := Settle(s.phase.book, id, actualCents);
      if outcome.Failure? then s.(phase := Serving(book), entitled := RaisedTo(s.entitled, id, actualCents))
      else
        s.(phase := Serving(book), promised := s.promised - {id}, releases := s.releases + {id},
           entitled := s.entitled - {id})
    case CancelCall(id) =>
      s.(phase := Serving(Cancel(s.phase.book, id)), promised := s.promised - {id}, releases := s.releases + {id},
         entitled := s.entitled - {id})
    case ReleaseLands(id) => s.(rows := ReleaseRow(s.rows, id), releases := s.releases - {id})
    case ReleaseIsLost(id) => s.(releases := s.releases - {id})
    case SweepBook => s.(phase := Serving(Expire(s.phase.book, s.now)))
    case ReconcileCall(actualCents) => s.(phase := Serving(Reconcile(s.phase.book, actualCents)))
    case ExpireRows => s.(rows := ExpireLapsed(s.rows, s.now))
    case Crash => s.(phase := Down, waiting := map[], entitled := map[])
    case ReadActive(limits, actualCents, found) =>
      s.(phase := Starting(Book(limits, actualCents, map[]), s.now, found), entitled := RowsEntitle(s.rows, s.now))
    case Readopt =>
      s.(phase := Serving(RestoreAll(s.phase.blank, s.phase.found, s.now)),
         entitled := Prolonged(s.entitled, s.now - s.phase.readAt))
  }

  // ---- The invariant --------------------------------------------------------------------

  /** The row carries the promise until its deadline. */
  predicate Backed(s: System, id: string, p: Promise)
    requires p.cents <= U64_MAX
  {
    && id in s.rows
    && s.rows[id].status.Active?
    && s.rows[id].expiresAt >= p.deadline
    && s.rows[id].storedCents == AsStored(p.cents)
  }

  /** The book counts the promise (as far as a stored amount survives) until its deadline. */
  predicate Counted(book: Book, id: string, p: Promise)
    requires p.cents <= U64_MAX
  {
    && id in book.holds
    && book.holds[id].cents >= ReadBack(AsStored(p.cents))
    && book.holds[id].expiresAt >= p.deadline
  }

  /** The startup read found the promise and will restore it. */
  ghost predicate Found(s: System, id: string, p: Promise)
    requires s.phase.Starting? && p.cents <= U64_MAX
  {
    exists k ::
      && 0 <= k < |s.phase.found|
      && s.phase.found[k].id == id
      && s.phase.found[k].cents >= ReadBack(AsStored(p.cents))
      && s.phase.readAt + s.phase.found[k].remaining >= p.deadline
  }

  ghost predicate KeepsPromise(s: System, id: string, p: Promise) {
    && p.cents <= U64_MAX
    && id in s.issued && id !in s.creates && id !in s.releases && id !in s.waiting
    && (p.deadline > s.now ==>
          && Backed(s, id, p)
          && (s.phase.Serving? ==> Counted(s.phase.book, id, p))
          && (s.phase.Starting? ==> Found(s, id, p)))
  }

  ghost predicate MayPromise(s: System, id: string, p: Promise) {
    && p.cents <= U64_MAX
    && s.phase.Serving?
    && id in s.issued && id !in s.releases && id !in s.promised
    && (p.deadline > s.now ==> Counted(s.phase.book, id, p))
    && (p.deadline > s.now && id in s.rows ==> Backed(s, id, p))
    && (id in s.creates ==>
          && s.creates[id].storedCents == AsStored(p.cents)
          && s.now + s.creates[id].seconds * SECOND >= p.deadline)
  }

  ghost predicate Inv(s: System) {
    && s.rounding == AS_CODED
    && (forall id <- s.promised :: KeepsPromise(s, id, s.promised[id]))
    && (forall id <- s.waiting :: MayPromise(s, id, s.waiting[id]))
    && (forall id <- s.creates :: id in s.issued && id !in s.rows)
    && (forall id <- s.rows :: id in s.issued)
    && (forall id <- s.releases :: id in s.issued)
    && (s.phase.Starting? ==> s.phase.readAt <= s.now)
  }

  // ---- Every step keeps it ------------------------------------------------------------------

  lemma StillFound(s: System, s': System, id: string, p: Promise)
    requires s.phase.Starting? && s'.phase == s.phase && p.cents <= U64_MAX && Found(s, id, p)
    ensures Found(s', id, p)
  {
    var k :| && 0 <= k < |s.phase.found|
             && s.phase.found[k].id == id
             && s.phase.found[k].cents >= ReadBack(AsStored(p.cents))
             && s.phase.readAt + s.phase.found[k].remaining >= p.deadline;
    assert s'.phase.found[k] == s.phase.found[k];
  }

  /** A live row is found by the startup read, with time to spare. */
  lemma FoundAtRead(s: System, step: Step, id: string, p: Promise)
    requires s.rounding == AS_CODED && step.ReadActive? && Enabled(s, step) && p.cents <= U64_MAX && p.deadline > s.now && Backed(s, id, p)
    ensures Found(After(s, step), id, p)
  {
    assert IsLive(s.rows, id, s.now);
    var k :| 0 <= k < |step.found| && step.found[k].id == id;
    RestoredHoldOutlivesItsRow(s.rows[id].expiresAt, s.now);
    assert After(s, step).phase.found[k] == step.found[k];
  }

  /** What was found is counted once it is restored, however much later. */
  lemma CountedAtReadopt(s: System, id: string, p: Promise)
    requires s.phase.Starting? && s.phase.readAt <= s.now && p.cents <= U64_MAX && Found(s, id, p)
    ensures Counted(RestoreAll(s.phase.blank, s.phase.found, s.now), id, p)
  {
    RestoreCountsAll(s.phase.blank, s.phase.found, s.now);
    var k :| && 0 <= k < |s.phase.found|
             && s.phase.found[k].id == id
             && s.phase.found[k].cents >= ReadBack(AsStored(p.cents))
             && s.phase.readAt + s.phase.found[k].remaining >= p.deadline;
  }

  /** Nothing the book does to other reservations, and no refused settle, uncounts this one. */
  lemma BookStepsCount(book: Book, id: string, p: Promise, other: string, amount: nat, at: int)
    requires p.cents <= U64_MAX && Counted(book, id, p)
    ensures other != id && Reserve(book, other, amount, at).Success? ==> Counted(Reserve(book, other, amount, at).value, id, p)
    ensures other != id || Settle(book, other, amount).1.Failure? ==> Counted(Settle(book, other, amount).0, id, p)
    ensures other != id ==> Counted(Cancel(book, other), id, p)
    ensures p.deadline > at ==> Counted(Expire(book, at), id, p)
  {
  }

  lemma ServingKept(s: System, step: Step, id: string, p: Promise)
    requires Enabled(s, step) && s.phase.Serving? && p.cents <= U64_MAX && p.deadline > s.now
    requires Counted(s.phase.book, id, p)
    requires step.BeginReserve? || step.ReserveGivesUp? || step.CancelCall? ==> step.id != id
    requires step.SettleCall? && step.id == id ==> Settle(s.phase.book, id, step.actualCents).1.Failure?
    ensures After(s, step).phase.Serving? ==> Counted(After(s, step).phase.book, id, p)
    ensures !After(s, step).phase.Starting?
  {
    if step.BeginReserve? {
      BookStepsCount(s.phase.book, id, p, step.id, step.cents, s.now + step.ttl);
    } else if step.SettleCall? {
      BookStepsCount(s.phase.book, id, p, step.id, step.actualCents, s.now);
    } else if step.CancelCall? || step.ReserveGivesUp? {
      BookStepsCount(s.phase.book, id, p, step.id, 0, s.now);
    } else if step.SweepBook? {
      BookStepsCount(s.phase.book, id, p, "", 0, s.now);
    }
  }

  /** The phase after a step counts, or will restore, what it counted before. */
  lemma PhaseKept(s: System, step: Step, id: string, p: Promise)
    requires s.rounding == AS_CODED
    requires Enabled(s, step) && p.cents <= U64_MAX && p.deadline > s.now && Backed(s, id, p)
    requires s.phase.Starting? ==> s.phase.readAt <= s.now && Found(s, id, p)
    requires s.phase.Serving? ==> Counted(s.phase.book, id, p)
    requires step.SettleCall? && step.id == id ==> Settle(s.phase.book, id, step.actualCents).1.Failure?
    requires step.BeginReserve? || step.ReserveGivesUp? || step.CancelCall? ==> step.id != id
    ensures After(s, step).phase.Serving? ==> Counted(After(s, step).phase.book, id, p)
    ensures After(s, step).phase.Starting? ==> Found(After(s, step), id, p)
  {
    if s.phase.Serving? {
      ServingKept(s, step, id, p);
    } else if step.ReadActive? {
      FoundAtRead(s, step, id, p);
    } else if step.Readopt? {
      CountedAtReadopt(s, id, p);
    } else if s.phase.Starting? && !step.Crash? {
      StillFound(s, After(s, step), id, p);
    }
  }

  /** A live, backed row stays so unless its own release lands. */
  lemma RowKept(s: System, step: Step, id: string, p: Promise)
    requires Enabled(s, step) && p.cents <= U64_MAX && p.deadline > s.now && Backed(s, id, p)
    requires id !in s.creates && id !in s.releases
    ensures Backed(After(s, step), id, p)
  {
  }

  /** Apart from its row and its hold, an outstanding promise stays as it was. */
  lemma PromiseStays(s: System, step: Step, id: string)
    requires Enabled(s, step) && id in s.promised && id in After(s, step).promised
    requires id in s.issued && id !in s.creates && id !in s.releases && id !in s.waiting
    ensures var s' := After(s, step);
            && s'.promised[id] == s.promised[id] && s.now <= s'.now
            && id in s'.issued && id !in s'.creates && id !in s'.releases && id !in s'.waiting
    ensures step.BeginReserve? || step.ReserveGivesUp? || step.CancelCall? ==> step.id != id
    ensures step.SettleCall? && step.id == id ==> Settle(s.phase.book, id, step.actualCents).1.Failure?
  {
    hide Reserve, Settle, Cancel, Expire, RestoreAll, Reconcile, ListsActive, RaisedTo, RowsEntitle, Prolonged;
  }

  /** A promise that is outstanding after a step is kept by it. */
  lemma PromiseKept(s: System, step: Step, id: string)
    requires Inv(s) && Enabled(s, step) && id in s.promised && id in After(s, step).promised
    ensures KeepsPromise(After(s, step), id, After(s, step).promised[id])
  {
    var p := s.promised[id];
    assert KeepsPromise(s, id, p);
    hide After, Enabled, Backed, Counted, Found;
    PromiseStays(s, step, id);
    if p.deadline > s.now {
      PhaseKept(s, step, id, p);
      RowKept(s, step, id, p);
    }
  }

  /** The row of a call in progress, once it is written, carries the promise. */
  lemma WaitingRow(s: System, step: Step, id: string)
    requires Inv(s) && Enabled(s, step) && id in s.waiting && id in After(s, step).waiting
    ensures var p, s' := s.waiting[id], After(s, step);
            p.cents <= U64_MAX && (p.deadline > s'.now && id in s'.rows ==> Backed(s', id, p))
  {
    hide Reserve, Settle, Cancel, Expire, RestoreAll, Reconcile, Counted, ListsActive, Found;
    hide RaisedTo, RowsEntitle, Prolonged;
    assert MayPromise(s, id, s.waiting[id]);
  }

  /** The create of a call in progress, until it lands, will carry it. */
  lemma WaitingWrite(s: System, step: Step, id: string)
    requires Inv(s) && Enabled(s, step) && id in s.waiting && id in After(s, step).waiting
    ensures var p, s' := s.waiting[id], After(s, step);
            && s'.waiting[id] == p
            && id in s'.issued && id !in s'.releases && id !in s'.promised
            && (id in s'.creates ==>
                  s'.creates[id].storedCents == AsStored(p.cents) && s'.now + s'.creates[id].seconds * SECOND >= p.deadline)
  {
    hide Reserve, Settle, Cancel, Expire, RestoreAll, Reconcile, Counted, ListsActive, Found;
    hide RaisedTo, RowsEntitle, Prolonged;
    assert MayPromise(s, id, s.waiting[id]);
  }

  /** A reserve call in progress stays on the way to a kept promise. */
  lemma WaitingKept(s: System, step: Step, id: string)
    requires Inv(s) && Enabled(s, step) && id in s.waiting && id in After(s, step).waiting
    ensures MayPromise(After(s, step), id, After(s, step).waiting[id])
  {
    var p := s.waiting[id];
    assert MayPromise(s, id, p);
    WaitingRow(s, step, id);
    WaitingWrite(s, step, id);
    if p.deadline > s.now {
      hide Backed, RestoreAll, Reconcile, RaisedTo, RowsEntitle, Prolonged, ListsActive;
      ServingKept(s, step, id, p);
    }
  }

  /** What a new admission and a returning call leave behind. */
  lemma NewlyWaiting(s: System, step: Step, id: string)
    requires Inv(s) && Enabled(s, step) && id !in s.waiting && id in After(s, step).waiting
    ensures MayPromise(After(s, step), id, After(s, step).waiting[id])
  {
    hide Settle, Cancel, Expire, RestoreAll, Reconcile, ListsActive, Found, RaisedTo, RowsEntitle, Prolonged;
    SecondsRoundUp(step.ttl);
  }

  lemma NewlyPromised(s: System, step: Step, id: string)
    requires Inv(s) && Enabled(s, step) && id !in s.promised && id in After(s, step).promised
    ensures KeepsPromise(After(s, step), id, After(s, step).promised[id])
  {
    hide Reserve, Settle, Cancel, Expire, RestoreAll, Reconcile, Counted, ListsActive, Found;
    hide RaisedTo, RowsEntitle, Prolonged;
    assert MayPromise(s, id, s.waiting[id]);
  }

  lemma StepKeepsInv(s: System, step: Step)
    requires Inv(s) && Enabled(s, step)
    ensures Inv(After(s, step))
  {
    var s' := After(s, step);
    forall id <- s'.promised ensures KeepsPromise(s', id, s'.promised[id]) {
      if id in s.promised {
        PromiseKept(s, step, id);
      } else {
        NewlyPromised(s, step, id);
      }
    }
    forall id <- s'.waiting ensures MayPromise(s', id, s'.waiting[id]) {
      if id in s.waiting {
        WaitingKept(s, step, id);
      } else {
        NewlyWaiting(s, step, id);
      }
    }
    IssuedKept(s, step);
    PhaseTimes(s, step);
    CreatesKept(s, step);
  }

  lemma IssuedKept(s: System, step: Step)
    requires Inv(s) && Enabled(s, step)
    ensures var s' := After(s, step);
            && (forall id <- s'.rows :: id in s'.issued)
            && (forall id <- s'.releases :: id in s'.issued)
  {
    hide Reserve, Settle, Cancel, Expire, RestoreAll, Reconcile, ListsActive, RaisedTo, RowsEntitle, Prolonged;
    hide KeepsPromise, MayPromise;
  }

  lemma PhaseTimes(s: System, step: Step)
    requires Inv(s) && Enabled(s, step)
    ensures var s' := After(s, step);
            (s'.phase.Starting? ==> s'.phase.readAt <= s'.now) && s'.rounding == s.rounding
  {
    hide Reserve, Settle, Cancel, Expire, RestoreAll, Reconcile, ListsActive, RaisedTo, RowsEntitle, Prolonged;
    hide KeepsPromise, MayPromise;
  }

  lemma CreatesKept(s: System, step: Step)
    requires Inv(s) && Enabled(s, step)
    ensures forall id <- After(s, step).creates :: id in After(s, step).issued && id !in After(s, step).rows
  {
    hide Settle, Cancel, Expire, RestoreAll, Reconcile, ListsActive, RaisedTo, RowsEntitle, Prolonged;
    hide KeepsPromise, MayPromise;
  }

  // ---- Every run ------------------------------------------------------------------------------

  /** Nothing was ever reserved. */
  predicate Initial(s: System) {
    s.phase.Down? && s.rows == map[] && s.creates == map[] && s.releases == {}
    && s.waiting == map[] && s.promised == map[] && s.issued == {} && s.entitled == map[]
  }

  ghost predicate Next(s: System, step: Step, s': System) {
    Enabled(s, step) && s' == After(s, step)
  }

  ghost predicate CanBecome(s: System, s': System) {
    exists step :: Next(s, step, s')
  }

  ghost predicate IsRun(run: seq<System>) {
    && run != []
    && Initial(run[0])
    && forall i | 0 <= i < |run| - 1 :: CanBecome(run[i], run[i + 1])
  }

  lemma {:induction false} RunKeepsInv(run: seq<System>, i: nat)
    requires IsRun(run) && run[0].rounding == AS_CODED && i < |run|
    ensures Inv(run[i])
  {
    if i > 0 {
      RunKeepsInv(run, i - 1);
      assert CanBecome(run[i - 1], run[i - 1 + 1]);
      var step :| Next(run[i - 1], step, run[i]);
      StepKeepsInv(run[i - 1], step);
    }
  }

  /** While Core serves, `id` is acknowledged, neither settled nor cancelled, and not past its deadline. */
  predicate Outstanding(s: System, id: string) {
    s.phase.Serving? && id in s.promised && s.promised[id].deadline > s.now
  }

  /** The book holds `id` until its deadline. */
  predicate Held(s: System, id: string)
    requires Outstanding(s, id)
  {
    id in s.phase.book.holds && s.phase.book.holds[id].expiresAt >= s.promised[id].deadline
  }

  /**
   In every run, however statements land late, calls time out and Core
   crashes: an outstanding reservation is held in the book until at least its
   deadline, for all its cents as long as they fit the signed database column.
   */
  lemma AcknowledgedIsCounted(run: seq<System>, i: nat, id: string)
    requires IsRun(run) && run[0].rounding == AS_CODED && i < |run| && Outstanding(run[i], id)
    ensures Held(run[i], id)
    ensures run[i].promised[id].cents <= I64_MAX ==> run[i].phase.book.holds[id].cents >= run[i].promised[id].cents
  {
    RunKeepsInv(run, i);
    assert KeepsPromise(run[i], id, run[i].promised[id]);
    StoredCentsComeBack(run[i].promised[id].cents);
  }

  // ---- No longer, and for no more, than asked -----------------------------------------------------

  predicate AtMost(hold: Hold, p: Promise) {
    hold.cents <= p.cents && hold.expiresAt <= p.deadline
  }

  ghost predicate CountsAtMost(book: Book, entitled: map<string, Promise>) {
    forall id <- book.holds :: id in entitled && AtMost(book.holds[id], entitled[id])
  }

  /** Nothing is held, or about to be restored, beyond what it is entitled to. */
  ghost predicate WithinEntitlement(s: System) {
    match s.phase
    case Down => true
    case Starting(blank, readAt, found) =>
      && blank.holds == map[] && readAt <= s.now
      && (forall k | 0 <= k < |found| ::
            found[k].id in s.entitled && AtMost(Hold(found[k].cents, readAt + found[k].remaining), s.entitled[found[k].id]))
    case Serving(book) => CountsAtMost(book, s.entitled)
  }

  lemma {:induction false} RestoreAtMost(book: Book, holds: seq<DurableHold>, now: int, entitled: map<string, Promise>)
    requires CountsAtMost(book, entitled)
    requires forall k | 0 <= k < |holds| ::
               holds[k].id in entitled && AtMost(Hold(holds[k].cents, now + holds[k].remaining), entitled[holds[k].id])
    ensures CountsAtMost(RestoreAll(book, holds, now), entitled)
  {
    if holds != [] {
      var before, last := holds[..|holds| - 1], holds[|holds| - 1];
      assert forall k | 0 <= k < |before| :: before[k] == holds[k];
      RestoreAtMost(book, before, now, entitled);
    }
  }

  lemma BookStaysWithin(book: Book, entitled: map<string, Promise>, id: string, cents: nat, at: int)
    requires CountsAtMost(book, entitled)
    ensures var r := Reserve(book, id, cents, at);
            r.Success? ==> CountsAtMost(r.value, entitled[id := Promise(cents, at)])
    ensures CountsAtMost(Cancel(book, id), entitled - {id})
    ensures CountsAtMost(Expire(book, at), entitled)
    ensures CountsAtMost(Reconcile(book, cents), entitled)
    ensures var (after, outcome) := Settle(book, id, cents);
            CountsAtMost(after, if outcome.Failure? then RaisedTo(entitled, id, cents) else entitled - {id})
  {
  }

  lemma StepStaysWithin(s: System, step: Step)
    requires WithinEntitlement(s) && Enabled(s, step)
    ensures WithinEntitlement(After(s, step))
  {
    hide Reserve, Settle, Cancel, Expire, Reconcile, RestoreAll, RaisedTo, CountsAtMost;
    match step {
      case BeginReserve(id, cents, ttl) => BookStaysWithin(s.phase.book, s.entitled, id, cents, s.now + ttl);
      case ReserveGivesUp(id) => BookStaysWithin(s.phase.book, s.entitled, id, 0, s.now);
      case SettleCall(id, actualCents) => BookStaysWithin(s.phase.book, s.entitled, id, actualCents, s.now);
      case CancelCall(id) => BookStaysWithin(s.phase.book, s.entitled, id, 0, s.now);
      case SweepBook => BookStaysWithin(s.phase.book, s.entitled, "", 0, s.now);
      case ReconcileCall(actualCents) => BookStaysWithin(s.phase.book, s.entitled, "", actualCents, s.now);
      case ReadActive(_, _, found) => ReadIsWithin(s, found);
      case Readopt => ReadoptIsWithin(s);
      case _ =>
    }
  }

  lemma ReadIsWithin(s: System, found: seq<DurableHold>)
    requires ListsActive(found, s.rows, s.now, s.rounding.spare)
    ensures forall k | 0 <= k < |found| ::
              var entitled := RowsEntitle(s.rows, s.now);
              found[k].id in entitled && AtMost(Hold(found[k].cents, s.now + found[k].remaining), entitled[found[k].id])
  {
    forall k | 0 <= k < |found|
      ensures s.now + found[k].remaining < s.rows[found[k].id].expiresAt + 2 * SECOND
    {
      RestoredHoldOutlivesItsRow(s.rows[found[k].id].expiresAt, s.now);
    }
  }

  lemma ReadoptIsWithin(s: System)
    requires WithinEntitlement(s) && s.phase.Starting?
    ensures WithinEntitlement(After(s, Readopt))
  {
    var later := Prolonged(s.entitled, s.now - s.phase.readAt);
    assert CountsAtMost(s.phase.blank, later);
    RestoreAtMost(s.phase.blank, s.phase.found, s.now, later);
  }

  lemma {:induction false} RunStaysWithin(run: seq<System>, i: nat)
    requires IsRun(run) && i < |run|
    ensures WithinEntitlement(run[i])
  {
    if i > 0 {
      hide WithinEntitlement;
      RunStaysWithin(run, i - 1);
      assert CanBecome(run[i - 1], run[i - 1 + 1]);
      var step :| Next(run[i - 1], step, run[i]);
      StepStaysWithin(run[i - 1], step);
    } else {
      assert run[0].phase.Down?;
    }
  }

  /**
   No caller can pin budget: in every run, right after a sweep, the book holds
   only what was asked for in this Core's lifetime and neither settled,
   cancelled nor given up, for no more cents (or than a refused settle raised it
   to) and only before the deadline that was asked for; or what the last start
   found, no later than two seconds after its row's expiry, and by as much more as
   the start took.
   */
  lemma NothingIsPinned(run: seq<System>, i: nat, id: string)
    requires IsRun(run) && i + 1 < |run| && Next(run[i], SweepBook, run[i + 1]) && run[i + 1].phase.Serving?
    ensures var s := run[i + 1];
            id in s.phase.book.holds ==>
              && id in s.entitled && s.phase.book.holds[id].cents <= s.entitled[id].cents
              && s.now < s.entitled[id].deadline
  {
    RunStaysWithin(run, i + 1);
  }
}
