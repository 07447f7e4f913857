/**
 The bounded fixed-window counters of `jarvis-api/src/rate_limit.rs`.

 `Reference` is the counter without any bound: it never forgets an expired
 window and loses a key only where the log says it was evicted. The class
 `Windows` is the bounded table; its log records every call and eviction.
 */
module RateLimiter {
  import opened Wrappers
  import opened Shared

  const MAX_TRACKED_KEYS: nat := 4096

  /** When a window opened, and the events counted in it. */
  datatype Window = Window(start: int, hits: nat)

  type Table = map<string, Window>

  predicate Live(w: Window, now: int, span: nat) {
    Elapsed(now, w.start) < span
  }

  /** A window after one more event; a missing or expired one starts afresh. */
  function Hit(w: Option<Window>, now: int, span: nat): Window {
    if w.None? || !Live(w.value, now, span) then Window(now, 1)
    else Window(w.value.start, if w.value.hits < U32_MAX then w.value.hits + 1 else U32_MAX)
  }

  datatype Entry = Called(key: string, at: int) | Evicted(key: string)

  function Record(table: Table, entry: Entry, span: nat): Table {
    match entry
    case Called(key, at) => table[key := Hit(Lookup(table, key), at, span)]
    case Evicted(key) => table - {key}
  }

  /** The unbounded counter after a log. */
  function Reference(log: seq<Entry>, span: nat): Table {
    if log == [] then map[] else Record(Reference(log[..|log| - 1], span), log[|log| - 1], span)
  }

  /** The bounded table agrees with the counter on every live window. */
  ghost predicate Agrees(table: Table, reference: Table, now: int, span: nat) {
    && (forall key <- table :: key in reference && table[key] == reference[key])
    && (forall key <- reference :: Live(reference[key], now, span) ==> key in table)
    && (forall key <- reference :: reference[key].start <= now)
  }

  function LiveOnly(table: Table, now: int, span: nat): Table {
    map key | key in table && Live(table[key], now, span) :: table[key]
  }

  lemma SmallerTable(part: Table, table: Table)
    requires part.Keys <= table.Keys
    ensures |part| <= |table|
    ensures |part| == |table| ==> part.Keys == table.Keys
  {
    var rest := table.Keys - part.Keys;
    assert table.Keys == part.Keys + rest;
    assert |part.Keys| == |part| && |table.Keys| == |table|;
  }

  lemma ReferenceLast(log: seq<Entry>, entry: Entry, span: nat)
    ensures Reference(log + [entry], span) == Record(Reference(log, span), entry, span)
  {
    assert (log + [entry])[..|log|] == log;
  }

  lemma ReferenceWithout(log: seq<Entry>, key: string, span: nat)
    ensures Reference(log + [Evicted(key)], span) == Reference(log, span) - {key}
  {
    ReferenceLast(log, Evicted(key), span);
  }

  lemma LiveOnes(table: Table, now: int, span: nat)
    ensures LiveOnly(table, now, span).Keys <= table.Keys
    ensures forall key <- LiveOnly(table, now, span) ::
              LiveOnly(table, now, span)[key] == table[key] && Live(table[key], now, span)
  {
  }

  /** Time passes and expired windows are dropped: still in agreement. */
  lemma AgreesExpired(table: Table, reference: Table, now: int, at: int, span: nat)
    requires Agrees(table, reference, now, span) && now <= at
    ensures Agrees(table, reference, at, span)
    ensures Agrees(LiveOnly(table, at, span), reference, at, span)
  {
  }

  lemma AgreesEvicted(table: Table, reference: Table, now: int, span: nat, key: string)
    requires Agrees(table, reference, now, span)
    ensures Agrees(table - {key}, reference - {key}, now, span)
  {
  }

  /** A key the table dropped had expired, so both sides open a new window for it. */
  lemma AgreesCalled(table: Table, reference: Table, now: int, span: nat, key: string)
    requires Agrees(table, reference, now, span)
    ensures Hit(Lookup(table, key), now, span) == Hit(Lookup(reference, key), now, span)
    ensures var w := Hit(Lookup(table, key), now, span); Agrees(table[key := w], reference[key := w], now, span)
  {
  }

  /** The table was full of live windows, and none started before the one given up. */
  ghost predicate Displaced(table: Table, victim: string, now: int, span: nat) {
    && |table| == MAX_TRACKED_KEYS && victim in table
    && forall key <- table :: Live(table[key], now, span) && table[victim].start <= table[key].start
  }

  /** The calls of a log came in order, the last no later than `now`. */
  ghost predicate Timed(log: seq<Entry>, now: int) {
    && (forall i | 0 <= i < |log| && log[i].Called? :: log[i].at <= now)
    && (forall i, j | 0 <= i < j < |log| && log[i].Called? && log[j].Called? :: log[i].at <= log[j].at)
  }

  lemma TimedLater(log: seq<Entry>, now: int, at: int)
    requires Timed(log, now) && now <= at
    ensures Timed(log, at)
  {
  }

  lemma TimedNext(log: seq<Entry>, now: int, entry: Entry, at: int)
    requires Timed(log, now) && now <= at && (entry.Called? ==> entry.at == at)
    ensures Timed(log + [entry], at)
  {
  }

  class Windows {
    const span: nat
    var table: Table
    ghost var log: seq<Entry>
    ghost var now: int

    ghost predicate Valid()
      reads this
    {
      && |table| <= MAX_TRACKED_KEYS
      && Agrees(table, Reference(log, span), now, span)
      && Timed(log, now)
    }

    constructor (span: nat)
      ensures Valid() && this.span == span && table == map[] && log == [] && now == 0
    {
      this.span, table, log, now := span, map[], [], 0;
    }

    /** A window no other started before. */
    method Oldest() returns (oldest: string)
      requires table != map[]
      ensures oldest in table && forall key <- table :: table[oldest].start <= table[key].start
    {
      oldest :| oldest in table;
      var left := table.Keys - {oldest};
      while left != {}
        invariant oldest in table && left <= table.Keys
        invariant forall key <- table | key !in left :: table[oldest].start <= table[key].start
        decreases |left|
      {
        var key :| key in left;
        if table[key].start < table[oldest].start {
          oldest := key;
        }
        left := left - {key};
      }
    }

    /** Room for a key that is not in a full table. */
    method MakeRoom(key: string, at: int) returns (ghost evicted: Option<string>)
      requires Valid() && now <= at && |table| == MAX_TRACKED_KEYS && key !in table
      modifies this
      ensures Valid() && now == at && |table| < MAX_TRACKED_KEYS && key !in table
      ensures log == old(log) + if evicted.Some? then [Evicted(evicted.value)] else []
      ensures evicted.Some? ==> Displaced(old(table), evicted.value, at, span)
    {
      hide Agrees, Timed, Reference, Record, LiveOnly;
      evicted := None;
      ghost var reference := Reference(log, span);
      TimedLater(log, now, at);
      LiveOnes(table, at, span);
      AgreesExpired(table, reference, now, at, span);
      var kept := LiveOnly(table, at, span);
      SmallerTable(kept, table);
      table, now := kept, at;
      if |table| >= MAX_TRACKED_KEYS {
        var oldest := Oldest();
        evicted := Some(oldest);
        ReferenceWithout(log, oldest, span);
        AgreesEvicted(table, reference, at, span, oldest);
        RemovingAKey(table, oldest);
        TimedNext(log, at, Evicted(oldest), at);
        table, log := table - {oldest}, log + [Evicted(oldest)];
      }
    }

    /**
     Count one event for `key`. The answer is the unbounded counter's. A live
     window is lost only when the table is full of live windows of other keys
     and none of them started earlier; dropping expired ones never shows.
     */
    method Count(key: string, at: int) returns (n: nat, ghost evicted: Option<string>)
      requires Valid() && now <= at
      modifies this
      ensures Valid() && now == at
      ensures log == old(log) + (if evicted.Some? then [Evicted(evicted.value)] else []) + [Called(key, at)]
      ensures key in table && n == table[key].hits
      ensures key in Reference(log, span) && n == Reference(log, span)[key].hits
      ensures evicted.Some? ==> key !in old(table) && Displaced(old(table), evicted.value, at, span)
    {
      evicted := None;
      if |table| >= MAX_TRACKED_KEYS && key !in table {
        evicted := MakeRoom(key, at);
      }
      AgreesExpired(table, Reference(log, span), now, at, span);
      AgreesCalled(table, Reference(log, span), at, span, key);
      ReferenceLast(log, Called(key, at), span);
      var window := Hit(Lookup(table, key), at, span);
      AddingAKey(table, key, window);
      TimedNext(log, now, Called(key, at), at);
      table, log, now := table[key := window], log + [Called(key, at)], at;
      n := window.hits;
    }

    /** Whether one more event stays within the limit. */
    method Check(key: string, max: nat, at: int) returns (admitted: bool, ghost evicted: Option<string>)
      requires Valid() && now <= at
      modifies this
      ensures Valid() && now == at
      ensures log == old(log) + (if evicted.Some? then [Evicted(evicted.value)] else []) + [Called(key, at)]
      ensures admitted <==> Alone(TimesOf(log, key), span).Some? && Alone(TimesOf(log, key), span).value.hits <= max
      ensures evicted.Some? ==> key !in old(table) && Displaced(old(table), evicted.value, at, span)
    {
      var n;
      n, evicted := Count(key, at);
      OthersDoNotMatter(log, key, span);
      admitted := n <= max;
    }

    /**
     Any number of checks, one after the other. Of the calls of a key that is
     not evicted meanwhile, no half-open span as long as the window contains
     more than 2·max - 1 that were admitted. Evicted is only a key in a crowd: as
     many others as the table holds were seen within the length of a window.
     */
    method Serve(calls: seq<Call>, max: nat) returns (answers: seq<bool>)
      requires Valid() && InOrder(calls, now)
      modifies this
      ensures Valid() && old(log) <= log && |answers| == |calls|
      ensures max < U32_MAX ==>
                forall key, from | NotLost(log[|old(log)|..], key) ::
                  AnsweredWithin(calls, answers, key, span, from) <= MostAdmitted(max)
      ensures Tallied(old(log), log, calls, answers, span, max)
      ensures CallsOf(log) == CallsOf(old(log)) + calls
      ensures forall key | !Crowded(CallsOf(log), key, span) :: NotLost(log[|old(log)|..], key)
    {
      hide Tallied, Timed, Agrees, TimesOf, NotLost, AnsweredWithin, Crowded, CallsOf, LossesExplained, Displaced, Reference;
      answers := [];
      ghost var start := log;
      NothingTallied(log, span, max);
      NothingLost(log, span);
      for i := 0 to |calls|
        invariant Valid() && start <= log && |answers| == i
        invariant i > 0 ==> now == calls[i - 1].at
        invariant i == 0 ==> now == old(now)
        invariant Tallied(start, log, calls[..i], answers, span, max)
        invariant CallsOf(log) == CallsOf(start) + calls[..i] && LossesExplained(start, log, span)
      {
        ghost var before, table', now' := log, table, now;
        var call := calls[i];
        var admitted;
        ghost var evicted;
        admitted, evicted := Check(call.key, max, call.at);
        if evicted.Some? {
          EvictionNeedsACrowd(table', before, now', evicted.value, call, span);
        }
        LossNext(start, before, evicted, call, span);
        TallyNext(start, before, evicted, calls[..i], answers, call, admitted, span, max);
        assert calls[..i + 1] == calls[..i] + [call];
        answers := answers + [admitted];
      }
      assert calls[..|calls|] == calls;
      OnlyTheCrowdedAreLost(start, log, span);
      if max < U32_MAX {
        AnsweredAtMost(start, log, now, calls, answers, span, max);
      }
    }

    /** The count of `key` in its current window; zero once it elapsed. */
    method InWindow(key: string, at: int) returns (n: nat)
      requires Valid() && now <= at
      ensures n == var w := Lookup(Reference(log, span), key); if w.Some? && Live(w.value, at, span) then w.value.hits else 0
    {
      n := if key in table && Live(table[key], at, span) then table[key].hits else 0;
    }

    /** Forget a key; the log says so like an eviction. */
    method Clear(key: string)
      requires Valid()
      modifies this
      ensures Valid() && now == old(now) && log == old(log) + [Evicted(key)]
      ensures table == old(table) - {key}
    {
      ReferenceWithout(log, key, span);
      TimedNext(log, now, Evicted(key), now);
      log := log + [Evicted(key)];
      SmallerTable(table - {key}, table);
      table := table - {key};
    }
  }

  lemma RemovingAKey(table: Table, key: string)
    requires key in table
    ensures |table - {key}| == |table| - 1
  {
    assert (table - {key}).Keys == table.Keys - {key};
    assert |table.Keys| == |table| && |(table - {key}).Keys| == |table - {key}|;
  }

  lemma AddingAKey(table: Table, key: string, window: Window)
    ensures |table[key := window]| == |table| + if key in table then 0 else 1
  {
    assert table[key := window].Keys == table.Keys + {key};
    assert |table.Keys| == |table| && |table[key := window].Keys| == |table[key := window]|;
  }

  // ---- One key on its own --------------------------------------------------------------

  /** The window of a single caller after calls at these times. */
  function Alone(times: seq<int>, span: nat): Option<Window> {
    if times == [] then None
    else Some(Hit(Alone(times[..|times| - 1], span), times[|times| - 1], span))
  }

  /** The calls for `key` since it was last evicted. */
  function TimesOf(log: seq<Entry>, key: string): seq<int> {
    if log == [] then []
    else
      match log[|log| - 1]
      case Called(k, at) => TimesOf(log[..|log| - 1], key) + if k == key then [at] else []
      case Evicted(k) => if k == key then [] else TimesOf(log[..|log| - 1], key)
  }

  /** Whatever other keys do, a key is counted by its own calls since it was last evicted. */
  lemma {:induction false} OthersDoNotMatter(log: seq<Entry>, key: string, span: nat)
    ensures Lookup(Reference(log, span), key) == Alone(TimesOf(log, key), span)
  {
    if log != [] {
      OthersDoNotMatter(log[..|log| - 1], key, span);
      var times := TimesOf(log[..|log| - 1], key);
      var last := log[|log| - 1];
      if last.Called? {
        assert (times + [last.at])[..|times|] == times;
        assert times + [] == times;
      }
    }
  }

  ghost predicate Ordered(times: seq<int>) {
    forall i, j | 0 <= i < j < |times| :: times[i] <= times[j]
  }

  lemma TimesNext(log: seq<Entry>, entry: Entry, key: string)
    ensures TimesOf(log + [entry], key) ==
            if entry.key != key then TimesOf(log, key)
            else if entry.Called? then TimesOf(log, key) + [entry.at]
            else []
  {
    assert (log + [entry])[..|log|] == log;
  }

  lemma OrderedNext(times: seq<int>, at: int)
    requires Ordered(times) && forall time <- times :: time <= at
    ensures Ordered(times + [at])
  {
    forall k | 0 <= k < |times| ensures times[k] <= at {
      assert times[k] in times;
    }
  }

  lemma TimedPrefix(log: seq<Entry>, entry: Entry, now: int)
    requires Timed(log + [entry], now)
    ensures Timed(log, now) && (entry.Called? ==> entry.at <= now && Timed(log, entry.at))
  {
    var all := log + [entry];
    assert forall i | 0 <= i < |log| :: all[i] == log[i];
    assert all[|log|] == entry;
  }

  /** The calls for a key, since it was last evicted, are in order. */
  lemma {:induction false} TimesAreOrdered(log: seq<Entry>, now: int, key: string)
    requires Timed(log, now)
    ensures Ordered(TimesOf(log, key)) && forall time <- TimesOf(log, key) :: time <= now
    decreases |log|
  {
    if log != [] {
      hide TimesOf, Timed;
      var before, last := log[..|log| - 1], log[|log| - 1];
      assert log == before + [last];
      TimedPrefix(before, last, now);
      TimesNext(before, last, key);
      if last.Called? {
        TimesAreOrdered(before, last.at, key);
        OrderedNext(TimesOf(before, key), last.at);
      } else {
        TimesAreOrdered(before, now, key);
      }
    }
  }

  /**
   The count is the number of calls since the window opened: it opened at call
   `o`, the first one after the window before it ran out.
   */
  lemma {:induction false} CountsSinceOpening(times: seq<int>, span: nat) returns (o: nat)
    requires times != [] && Ordered(times) && span > 0
    ensures o < |times|
    ensures Alone(times, span) == Some(Window(times[o], if |times| - o < U32_MAX then |times| - o else U32_MAX))
    ensures times[|times| - 1] < times[o] + span
    ensures o > 0 ==> Alone(times[..o], span).Some? && times[o] >= Alone(times[..o], span).value.start + span
  {
    var last := |times| - 1;
    if last == 0 || !Live(Alone(times[..last], span).value, times[last], span) {
      o := last;
      if last > 0 {
        var _ := CountsSinceOpening(times[..last], span);
      }
    } else {
      o := CountsSinceOpening(times[..last], span);
      assert times[..last][..o] == times[..o];
    }
  }

  // ---- How much a caller gets through -----------------------------------------------------

  /** The calls admitted under `max` with `from <= time < from + span`. */
  function AdmittedWithin(times: seq<int>, span: nat, max: nat, from: int): nat {
    if times == [] then 0
    else
      var last := times[|times| - 1];
      AdmittedWithin(times[..|times| - 1], span, max, from) +
      if from <= last < from + span && Alone(times, span).value.hits <= max then 1 else 0
  }

  function MostAdmitted(max: nat): nat {
    if max == 0 then 0 else 2 * max - 1
  }

  /**
   Where the calls of the span can sit: in a window that opened before it (and
   then not its first call), and in the one window that opened within it.
   */
  lemma {:induction false} AdmittedSoFar(times: seq<int>, span: nat, max: nat, from: int)
    requires Ordered(times) && 0 < max < U32_MAX && times != []
    ensures var admitted := AdmittedWithin(times, span, max, from);
            var w := Alone(times, span).value;
            && w.hits >= 1 && w.start <= times[|times| - 1]
            && (times[|times| - 1] < from ==> admitted == 0)
            && (w.start < from ==> admitted <= Min(w.hits, max) - 1)
            && (from <= w.start < from + span ==> admitted <= max - 1 + Min(w.hits, max))
            && admitted <= 2 * max - 1
  {
    var last := |times| - 1;
    if last > 0 {
      AdmittedSoFar(times[..last], span, max, from);
      assert times[last - 1] <= times[last];
      assert times[..last][last - 1] == times[last - 1];
    } else {
      assert times[..0] == [];
      assert AdmittedWithin(times[..0], span, max, from) == 0;
    }
  }

  /**
   Whatever the caller does, no half-open span as long as the window contains
   more than 2·max - 1 of its admitted calls, as long as it is not evicted.
   Whether a call is admitted is what the table answers for it.
   */
  lemma AtMostTwiceTheLimit(log: seq<Entry>, key: string, span: nat, max: nat, from: int)
    requires Ordered(TimesOf(log, key)) && max < U32_MAX
    ensures AdmittedWithin(TimesOf(log, key), span, max, from) <= MostAdmitted(max)
    ensures forall k | 0 <= k <= |log| ::
              Lookup(Reference(log[..k], span), key) == Alone(TimesOf(log[..k], key), span)
  {
    var times := TimesOf(log, key);
    if max == 0 {
      NothingAdmitted(times, span, from);
    } else if times != [] {
      AdmittedSoFar(times, span, max, from);
    }
    forall k | 0 <= k <= |log| ensures Lookup(Reference(log[..k], span), key) == Alone(TimesOf(log[..k], key), span) {
      OthersDoNotMatter(log[..k], key, span);
    }
  }

  // ---- The answers of a whole sequence of checks -------------------------------------------

  datatype Call = Call(key: string, at: int)

  /** Times never decrease, from `now` on. */
  ghost predicate InOrder(calls: seq<Call>, now: int) {
    && (calls != [] ==> now <= calls[0].at)
    && forall i | 0 < i < |calls| :: calls[i - 1].at <= calls[i].at
  }

  /** The calls of `key` with `from <= time < from + span` that were answered with yes. */
  function AnsweredWithin(calls: seq<Call>, answers: seq<bool>, key: string, span: nat, from: int): nat
    requires |answers| == |calls|
  {
    if calls == [] then 0
    else
      var last := |calls| - 1;
      AnsweredWithin(calls[..last], answers[..last], key, span, from) +
      if calls[last].key == key && from <= calls[last].at < from + span && answers[last] then 1 else 0
  }

  /** `key` was neither evicted nor cleared in this part of a log. */
  predicate NotLost(part: seq<Entry>, key: string) {
    Evicted(key) !in part
  }

  /** The yes answers are the calls the reference admits, counted on from the log at the start. */
  ghost predicate Tallied(start: seq<Entry>, log: seq<Entry>, calls: seq<Call>, answers: seq<bool>, span: nat, max: nat)
    requires start <= log && |answers| == |calls|
  {
    forall key, from | NotLost(log[|start|..], key) :: TallyOf(start, log, calls, answers, span, max, key, from)
  }

  predicate TallyOf(start: seq<Entry>, log: seq<Entry>, calls: seq<Call>, answers: seq<bool>, span: nat, max: nat,
                    key: string, from: int)
    requires |answers| == |calls|
  {
    AdmittedWithin(TimesOf(start, key), span, max, from) + AnsweredWithin(calls, answers, key, span, from)
    == AdmittedWithin(TimesOf(log, key), span, max, from)
  }

  lemma AnsweredNext(calls: seq<Call>, answers: seq<bool>, call: Call, answer: bool, key: string, span: nat, from: int)
    requires |answers| == |calls|
    ensures AnsweredWithin(calls + [call], answers + [answer], key, span, from) ==
            AnsweredWithin(calls, answers, key, span, from) +
            if call.key == key && from <= call.at < from + span && answer then 1 else 0
  {
    assert (calls + [call])[..|calls|] == calls && (answers + [answer])[..|answers|] == answers;
  }

  /** A call of the key itself, answered as the reference admits it, or of another. */
  lemma TallyCalled(start: seq<Entry>, log: seq<Entry>, calls: seq<Call>, answers: seq<bool>,
                    call: Call, answer: bool, span: nat, max: nat, key: string, from: int)
    requires |answers| == |calls| && TallyOf(start, log, calls, answers, span, max, key, from)
    requires answer <==> Hit(Alone(TimesOf(log, call.key), span), call.at, span).hits <= max
    ensures TallyOf(start, log + [Called(call.key, call.at)], calls + [call], answers + [answer], span, max, key, from)
  {
    hide TimesOf, AnsweredWithin, AdmittedWithin, Alone, Hit;
    TimesNext(log, Called(call.key, call.at), key);
    AnsweredNext(calls, answers, call, answer, key, span, from);
    if call.key == key {
      OneMore(TimesOf(log, key), call.at, span, max, from);
    }
  }

  /** The log after a check. */
  function Checked(log: seq<Entry>, evicted: Option<string>, call: Call): seq<Entry> {
    log + (if evicted.Some? then [Evicted(evicted.value)] else []) + [Called(call.key, call.at)]
  }

  lemma StillKept(start: seq<Entry>, log: seq<Entry>, evicted: Option<string>, call: Call, key: string)
    requires start <= log && NotLost(Checked(log, evicted, call)[|start|..], key)
    ensures NotLost(log[|start|..], key) && evicted != Some(key)
  {
    var part := if evicted.Some? then [Evicted(evicted.value)] else [];
    assert Checked(log, evicted, call)[|start|..] == log[|start|..] + part + [Called(call.key, call.at)];
    assert evicted.Some? ==> part[0] == Evicted(evicted.value);
  }

  lemma TallyNext(start: seq<Entry>, before: seq<Entry>, evicted: Option<string>, calls: seq<Call>, answers: seq<bool>,
                  call: Call, answer: bool, span: nat, max: nat)
    requires start <= before && |answers| == |calls| && Tallied(start, before, calls, answers, span, max)
    requires var times := TimesOf(Checked(before, evicted, call), call.key);
             answer <==> Alone(times, span).Some? && Alone(times, span).value.hits <= max
    ensures start <= Checked(before, evicted, call)
    ensures Tallied(start, Checked(before, evicted, call), calls + [call], answers + [answer], span, max)
  {
    hide TimesOf, Alone, Hit, NotLost, AdmittedWithin, AnsweredWithin;
    var middle := before + if evicted.Some? then [Evicted(evicted.value)] else [];
    TimesNext(middle, Called(call.key, call.at), call.key);
    OneMore(TimesOf(middle, call.key), call.at, span, max, 0);
    forall key, from | NotLost(Checked(before, evicted, call)[|start|..], key)
      ensures TallyOf(start, Checked(before, evicted, call), calls + [call], answers + [answer], span, max, key, from)
    {
      StillKept(start, before, evicted, call, key);
      assert TallyOf(start, before, calls, answers, span, max, key, from);
      if evicted.Some? {
        TimesNext(before, Evicted(evicted.value), key);
      } else {
        assert before + [] == before;
      }
      TallyCalled(start, middle, calls, answers, call, answer, span, max, key, from);
    }
  }

  lemma NothingTallied(log: seq<Entry>, span: nat, max: nat)
    ensures Tallied(log, log, [], [], span, max)
  {
  }

  lemma AnsweredAtMost(start: seq<Entry>, log: seq<Entry>, now: int, calls: seq<Call>, answers: seq<bool>, span: nat, max: nat)
    requires start <= log && |answers| == |calls| && Tallied(start, log, calls, answers, span, max)
    requires Timed(log, now) && max < U32_MAX
    ensures forall key, from | NotLost(log[|start|..], key) ::
              AnsweredWithin(calls, answers, key, span, from) <= MostAdmitted(max)
  {
    hide TimesOf, NotLost, AdmittedWithin, AnsweredWithin, Timed;
    forall key, from | NotLost(log[|start|..], key)
      ensures AnsweredWithin(calls, answers, key, span, from) <= MostAdmitted(max)
    {
      TimesAreOrdered(log, now, key);
      AtMostTwiceTheLimit(log, key, span, max, from);
      assert TallyOf(start, log, calls, answers, span, max, key, from);
    }
  }

  // ---- Which traffic evicts a key ------------------------------------------------------------

  function CallsOf(log: seq<Entry>): seq<Call> {
    if log == [] then []
    else
      CallsOf(log[..|log| - 1]) +
      match log[|log| - 1]
      case Called(key, at) => [Call(key, at)]
      case Evicted(_) => []
  }

  /** The other keys that called in the span that ends at `at`. */
  function OtherCallers(traffic: seq<Call>, key: string, at: int, span: nat): set<string> {
    set c | c in traffic && c.key != key && at - span < c.at <= at :: c.key
  }

  /** At some time as many other keys had called within a span as the table holds. */
  ghost predicate Crowded(traffic: seq<Call>, key: string, span: nat) {
    exists at :: |OtherCallers(traffic, key, at, span)| >= MAX_TRACKED_KEYS
  }

  lemma CallsNext(log: seq<Entry>, entry: Entry)
    ensures CallsOf(log + [entry]) == CallsOf(log) + if entry.Called? then [Call(entry.key, entry.at)] else []
  {
    assert (log + [entry])[..|log|] == log;
  }

  /** A window opened with a call of its key. */
  lemma {:induction false} OpenedByACall(log: seq<Entry>, key: string, span: nat)
    requires key in Reference(log, span)
    ensures Call(key, Reference(log, span)[key].start) in CallsOf(log)
  {
    if log != [] {
      var before, last := log[..|log| - 1], log[|log| - 1];
      assert log == before + [last];
      ReferenceLast(before, last, span);
      CallsNext(before, last);
      if key in Reference(before, span) {
        OpenedByACall(before, key, span);
      }
    }
  }

  lemma SubsetSize<T>(a: set<T>, b: set<T>)
    requires a <= b
    ensures |a| <= |b|
  {
    assert b == a + (b - a);
  }

  lemma CrowdGrows(traffic: seq<Call>, call: Call, key: string, span: nat)
    requires Crowded(traffic, key, span)
    ensures Crowded(traffic + [call], key, span)
  {
    var at :| |OtherCallers(traffic, key, at, span)| >= MAX_TRACKED_KEYS;
    SubsetSize(OtherCallers(traffic, key, at, span), OtherCallers(traffic + [call], key, at, span));
  }

  /** A table of live windows, none of them the caller's: all of them but the victim, and the caller, are others. */
  lemma EvictionNeedsACrowd(table: Table, log: seq<Entry>, now: int, victim: string, call: Call, span: nat)
    requires Agrees(table, Reference(log, span), now, span) && now <= call.at
    requires call.key !in table && Displaced(table, victim, call.at, span)
    ensures Crowded(CallsOf(log) + [call], victim, span)
  {
    hide Reference, CallsOf;
    var traffic := CallsOf(log) + [call];
    var others := table.Keys - {victim} + {call.key};
    forall key | key in others ensures key in OtherCallers(traffic, victim, call.at, span) {
      if key == call.key {
        assert call in traffic;
      } else {
        OpenedByACall(log, key, span);
        assert Live(table[key], call.at, span);
        assert Call(key, table[key].start) in traffic;
      }
    }
    OneForAnother(table, victim, call.key);
    SubsetSize(others, OtherCallers(traffic, victim, call.at, span));
  }

  lemma OneForAnother(table: Table, gone: string, comer: string)
    requires gone in table && comer !in table
    ensures |table.Keys - {gone} + {comer}| == |table|
  {
    assert |table.Keys| == |table|;
  }

  /** Every loss since `start` was one in a crowd. */
  ghost predicate LossesExplained(start: seq<Entry>, log: seq<Entry>, span: nat) {
    forall i | |start| <= i < |log| && log[i].Evicted? :: Crowded(CallsOf(log), log[i].key, span)
  }

  lemma NothingLost(log: seq<Entry>, span: nat)
    ensures LossesExplained(log, log, span)
  {
  }

  lemma LossNext(start: seq<Entry>, before: seq<Entry>, evicted: Option<string>, call: Call, span: nat)
    requires LossesExplained(start, before, span)
    requires evicted.Some? ==> Crowded(CallsOf(before) + [call], evicted.value, span)
    ensures LossesExplained(start, Checked(before, evicted, call), span)
    ensures CallsOf(Checked(before, evicted, call)) == CallsOf(before) + [call]
  {
    hide CallsOf, Crowded;
    var middle := before + if evicted.Some? then [Evicted(evicted.value)] else [];
    var after := Checked(before, evicted, call);
    if evicted.Some? {
      CallsNext(before, Evicted(evicted.value));
      assert CallsOf(before) + [] == CallsOf(before);
    } else {
      assert before + [] == before;
    }
    CallsNext(middle, Called(call.key, call.at));
    forall i | |start| <= i < |after| && after[i].Evicted? ensures Crowded(CallsOf(after), after[i].key, span) {
      if i < |before| {
        assert after[i] == before[i];
        CrowdGrows(CallsOf(before), call, before[i].key, span);
      }
    }
  }

  lemma OnlyTheCrowdedAreLost(start: seq<Entry>, log: seq<Entry>, span: nat)
    requires start <= log && LossesExplained(start, log, span)
    ensures forall key | !Crowded(CallsOf(log), key, span) :: NotLost(log[|start|..], key)
  {
    hide Crowded, CallsOf;
    assert forall i | 0 <= i < |log| - |start| :: log[|start|..][i] == log[|start| + i];
  }

  /** A key that shares the table with fewer others than it holds is never in a crowd. */
  lemma FewCallersAreNoCrowd(traffic: seq<Call>, key: string, span: nat)
    requires |set c | c in traffic && c.key != key :: c.key| < MAX_TRACKED_KEYS
    ensures !Crowded(traffic, key, span)
  {
    forall at: int ensures |OtherCallers(traffic, key, at, span)| < MAX_TRACKED_KEYS {
      SubsetSize(OtherCallers(traffic, key, at, span), set c | c in traffic && c.key != key :: c.key);
    }
  }

  // ---- Limits at either end ------------------------------------------------------------------

  lemma {:induction false} NothingAdmitted(times: seq<int>, span: nat, from: int)
    ensures AdmittedWithin(times, span, 0, from) == 0
  {
    if times != [] {
      NothingAdmitted(times[..|times| - 1], span, from);
      assert Alone(times, span).value.hits >= 1 by {
        HitsArePositive(times, span);
      }
    }
  }

  lemma {:induction false} HitsArePositive(times: seq<int>, span: nat)
    requires times != []
    ensures Alone(times, span).value.hits >= 1
  {
    if |times| > 1 {
      HitsArePositive(times[..|times| - 1], span);
    }
  }

  /** The calls with `from <= time < from + span`. */
  function CallsWithin(times: seq<int>, span: nat, from: int): nat {
    if times == [] then 0
    else
      CallsWithin(times[..|times| - 1], span, from) + if from <= times[|times| - 1] < from + span then 1 else 0
  }

  /** At the largest limit the bound is void: the saturated count refuses nothing, however many calls there are. */
  lemma {:induction false} SaturationAdmitsAll(times: seq<int>, span: nat, max: nat, from: int)
    requires max >= U32_MAX
    ensures AdmittedWithin(times, span, max, from) == CallsWithin(times, span, from)
    ensures times != [] ==> Alone(times, span).value.hits <= U32_MAX
  {
    if times != [] {
      SaturationAdmitsAll(times[..|times| - 1], span, max, from);
    }
  }

  lemma OneMore(times: seq<int>, at: int, span: nat, max: nat, from: int)
    ensures Alone(times + [at], span) == Some(Hit(Alone(times, span), at, span))
    ensures AdmittedWithin(times + [at], span, max, from) ==
            AdmittedWithin(times, span, max, from) +
            if from <= at < from + span && Hit(Alone(times, span), at, span).hits <= max then 1 else 0
  {
    assert (times + [at])[..|times|] == times;
  }

  /** What a caller has: the current window, and the calls admitted within the span. */
  ghost predicate Has(times: seq<int>, span: nat, max: nat, from: int, w: Window, admitted: nat) {
    times != [] && Ordered(times) && Alone(times, span) == Some(w) && AdmittedWithin(times, span, max, from) == admitted
  }

  /** One more call inside the span, within the limit of the current or of a new window. */
  lemma NextCall(times: seq<int>, at: int, span: nat, max: nat, from: int, w: Window, admitted: nat)
    requires Has(times, span, max, from, w, admitted)
    requires times[|times| - 1] <= at && w.start <= at && from <= at < from + span && 0 < max < U32_MAX
    ensures at < w.start + span && w.hits < max ==>
              Has(times + [at], span, max, from, Window(w.start, w.hits + 1), admitted + 1)
    ensures at >= w.start + span ==> Has(times + [at], span, max, from, Window(at, 1), admitted + 1)
  {
    OneMore(times, at, span, max, from);
  }

  /** Calls at one time, up to the limit of the window. */
  lemma Burst(times: seq<int>, at: int, span: nat, max: nat, from: int, w: Window, admitted: nat) returns (after: seq<int>)
    requires Has(times, span, max, from, w, admitted)
    requires times[|times| - 1] <= at && w.start <= at < w.start + span && from <= at < from + span
    requires w.hits <= max && 0 < max < U32_MAX
    ensures Has(after, span, max, from, Window(w.start, max), admitted + max - w.hits)
    ensures after == times + Repeated(at, max - w.hits) && after[|after| - 1] <= at
    decreases max - w.hits
  {
    after := times;
    if w.hits < max {
      hide Has;
      NextCall(times, at, span, max, from, w, admitted);
      after := Burst(times + [at], at, span, max, from, Window(w.start, w.hits + 1), admitted + 1);
      assert Repeated(at, max - w.hits) == [at] + Repeated(at, max - w.hits - 1);
    }
  }

  function Repeated(at: int, n: nat): seq<int> {
    seq(n, _ => at)
  }

  lemma FirstCall(span: nat, max: nat, from: int)
    requires from > 0
    ensures Has([0], span, max, from, Window(0, 1), 0)
  {
    assert [0][..0] == [];
  }

  /** One call at zero, the rest of its window just before it runs out, and a whole new window at once. */
  function WorstTimes(span: nat, max: nat): seq<int>
    requires 0 < max && span > 1
  {
    [0] + Repeated(span - 1, max - 1) + [span] + Repeated(span, max - 1)
  }

  /** The bound is met: for every limit, some caller gets 2·max - 1 calls through in one span. */
  lemma TwiceTheLimitIsReached(span: nat, max: nat) returns (times: seq<int>)
    requires 0 < max < U32_MAX && span > 1
    ensures Ordered(times) && AdmittedWithin(times, span, max, span - 1) == 2 * max - 1
    ensures times == WorstTimes(span, max)
  {
    var from := span - 1;
    FirstCall(span, max, from);
    times := Burst([0], from, span, max, from, Window(0, 1), 0);
    NextCall(times, span, span, max, from, Window(0, max), max - 1);
    times := Burst(times + [span], span, span, max, from, Window(span, 1), max);
  }

  function AtTimes(key: string, times: seq<int>): seq<Call> {
    seq(|times|, i requires 0 <= i < |times| => Call(key, times[i]))
  }

  /** What a table records of a caller that it does not evict. */
  lemma {:induction false} TimesRecorded(log: seq<Entry>, key: string, times: seq<int>)
    requires NotLost(log, key) && CallsOf(log) == AtTimes(key, times)
    ensures TimesOf(log, key) == times
    decreases |log|
  {
    if log != [] {
      hide CallsOf, TimesOf;
      var before, last := log[..|log| - 1], log[|log| - 1];
      assert log == before + [last];
      CallsNext(before, last);
      TimesNext(before, last, key);
      if last.Called? {
        var calls := AtTimes(key, times);
        assert calls[|times| - 1] == Call(last.key, last.at);
        assert CallsOf(before) == calls[..|times| - 1] == AtTimes(key, times[..|times| - 1]);
        TimesRecorded(before, key, times[..|times| - 1]);
      } else {
        assert CallsOf(before) + [] == CallsOf(before);
        TimesRecorded(before, key, times);
      }
    } else {
      assert |AtTimes(key, times)| == 0;
    }
  }

  lemma OneCallerIsNoCrowd(key: string, times: seq<int>, span: nat)
    ensures !Crowded(AtTimes(key, times), key, span)
  {
    var traffic := AtTimes(key, times);
    assert (set c | c in traffic && c.key != key :: c.key) == {};
    FewCallersAreNoCrowd(traffic, key, span);
  }

  /** The table itself lets a caller that is alone through that often. */
  method ServeTheWorst(key: string, span: nat, max: nat) returns (calls: seq<Call>, answers: seq<bool>)
    requires 0 < max < U32_MAX && span > 1
    ensures |answers| == |calls|
    ensures AnsweredWithin(calls, answers, key, span, span - 1) == MostAdmitted(max)
  {
    hide AnsweredWithin, AdmittedWithin, CallsOf, TimesOf, Crowded, Tallied, NotLost;
    var times := WorstTimes(span, max);
    calls := AtTimes(key, times);
    var windows := new Windows(span);
    NothingCalled(key, span, max, span - 1);
    answers := windows.Serve(calls, max);
    ghost var log := windows.log;
    assert log[0..] == log && [] + calls == calls;
    ghost var reached := TwiceTheLimitIsReached(span, max);
    OneCallerIsNoCrowd(key, times, span);
    TimesRecorded(log, key, times);
    TallyFor([], log, calls, answers, span, max, key, span - 1);
  }

  lemma NothingCalled(key: string, span: nat, max: nat, from: int)
    ensures CallsOf([]) == [] && TimesOf([], key) == [] && AdmittedWithin([], span, max, from) == 0
  {
  }

  lemma TallyFor(start: seq<Entry>, log: seq<Entry>, calls: seq<Call>, answers: seq<bool>, span: nat, max: nat,
                 key: string, from: int)
    requires start <= log && |answers| == |calls| && Tallied(start, log, calls, answers, span, max)
    requires NotLost(log[|start|..], key)
    ensures AdmittedWithin(TimesOf(start, key), span, max, from) + AnsweredWithin(calls, answers, key, span, from)
         == AdmittedWithin(TimesOf(log, key), span, max, from)
  {
    hide NotLost, AdmittedWithin, AnsweredWithin, TimesOf;
    assert TallyOf(start, log, calls, answers, span, max, key, from);
  }
}
