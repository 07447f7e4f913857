/**
 The password backoff of `jarvis-api/src/rate_limit.rs`: after some free
 failures each further one doubles the wait, up to a cap. Durations are
 nanoseconds; attempts are taken one after the other.
 */
module PasswordBackoff {
  import opened Wrappers
  import opened Shared

  const SECOND: nat := 1_000_000_000
  const BASE: nat := 2 * SECOND
  /** How long a failure is remembered. */
  const MEMORY: nat := 24 * 60 * 60 * SECOND

  datatype Policy = Policy(free: nat, max: nat)

  function PowerOfTwo(n: nat): nat {
    if n == 0 then 1 else 2 * PowerOfTwo(n - 1)
  }

  /** The failures beyond the free ones, as far as they still double the delay. */
  function Doublings(failures: nat, policy: Policy): nat {
    if failures <= policy.free then 0 else Min(failures - policy.free - 1, 16)
  }

  /** The wait after this many failures. */
  function Delay(failures: nat, policy: Policy): nat {
    if failures <= policy.free then 0
    else Min(BASE * PowerOfTwo(Doublings(failures, policy)), policy.max)
  }

  /** A key's failures, and when the last one was. */
  datatype Failures = Failures(count: nat, last: int)

  type Memory = map<string, Failures>

  /** The wait still ahead of a key at `now`; zero is none. */
  function Wait(known: Option<Failures>, now: int, policy: Policy): nat {
    if known.None? || Elapsed(now, known.value.last) >= MEMORY then 0
    else
      var since := Elapsed(now, known.value.last);
      if Delay(known.value.count, policy) > since then Delay(known.value.count, policy) - since else 0
  }

  function Failed(known: Option<Failures>, now: int): Failures {
    if known.None? || Elapsed(now, known.value.last) >= MEMORY then Failures(1, now)
    else Failures(Min(known.value.count + 1, U32_MAX), now)
  }

  /** A key that has not failed for so long is forgotten. */
  function Swept(memory: Memory, key: string, now: int): Memory {
    if key in memory && Elapsed(now, memory[key].last) >= MEMORY then memory - {key} else memory
  }

  class PasswordFailures {
    var memory: Memory

    constructor ()
      ensures memory == map[]
    {
      memory := map[];
    }

    /** The time `key` must still wait, if any; a forgotten key is dropped. */
    method Backoff(key: string, policy: Policy, now: int) returns (wait: Option<nat>)
      modifies this
      ensures wait == var w := Wait(old(Lookup(memory, key)), now, policy); if w == 0 then None else Some(w)
      ensures memory == Swept(old(memory), key, now)
    {
      if key !in memory {
        return None;
      }
      var since := Elapsed(now, memory[key].last);
      if since >= MEMORY {
        memory := memory - {key};
        return None;
      }
      var delay := Delay(memory[key].count, policy);
      var left := if delay > since then delay - since else 0;
      return if left == 0 then None else Some(left);
    }

    /** Record one wrong password; returns the running count. */
    method NoteFailure(key: string, now: int) returns (count: nat)
      modifies this
      ensures memory == old(memory)[key := Failed(old(Lookup(memory, key)), now)]
      ensures count == memory[key].count
    {
      var entry := if key in memory then memory[key] else Failures(0, now);
      if Elapsed(now, entry.last) >= MEMORY {
        entry := entry.(count := 0);
      }
      entry := Failures(Min(entry.count + 1, U32_MAX), now);
      memory := memory[key := entry];
      count := entry.count;
    }

    method Clear(key: string)
      modifies this
      ensures memory == old(memory) - {key}
    {
      memory := memory - {key};
    }
  }

  // ---- The delay ---------------------------------------------------------------------

  lemma {:induction false} PowerGrows(a: nat, b: nat)
    requires a <= b
    ensures 1 <= PowerOfTwo(a) <= PowerOfTwo(b)
    decreases b
  {
    if a < b {
      PowerGrows(a, b - 1);
    } else if a > 0 {
      PowerGrows(a - 1, a - 1);
    }
  }

  lemma LongerWait(low: nat, high: nat, max: nat)
    requires 1 <= low <= high
    ensures Min(BASE * low, max) <= Min(BASE * high, max) <= max
    ensures Min(BASE * low, max) == 0 <==> max == 0
  {
  }

  /** The delay never falls with more failures, and never passes the cap. */
  lemma DelayIsMonotone(fewer: nat, more: nat, policy: Policy)
    requires fewer <= more
    ensures Delay(fewer, policy) <= Delay(more, policy) <= policy.max
    ensures Delay(fewer, policy) == 0 <==> fewer <= policy.free || policy.max == 0
  {
    hide PowerOfTwo, Min;
    MoreDoublings(fewer, more, policy);
    PowerGrows(Doublings(fewer, policy), Doublings(more, policy));
    LongerWait(PowerOfTwo(Doublings(fewer, policy)), PowerOfTwo(Doublings(more, policy)), policy.max);
  }

  lemma MoreDoublings(fewer: nat, more: nat, policy: Policy)
    requires fewer <= more
    ensures Doublings(fewer, policy) <= Doublings(more, policy)
  {
  }

  /** Beyond the free failures each one doubles the wait, until the cap or 2^17 seconds. */
  lemma DelayDoubles(failures: nat, policy: Policy)
    requires policy.free < failures <= policy.free + 16
    ensures Delay(failures + 1, policy) == Min(2 * (BASE * PowerOfTwo(failures - policy.free - 1)), policy.max)
    ensures Delay(policy.free + 1, policy) == Min(BASE, policy.max)
  {
    var over := failures - policy.free;
    assert PowerOfTwo(over) == 2 * PowerOfTwo(over - 1);
  }

  /** From the 17th failure beyond the free ones on, the wait no longer grows. */
  lemma DelayLevelsOff(failures: nat, policy: Policy)
    requires failures > policy.free + 16
    ensures Delay(failures, policy) == Min(BASE * 65536, policy.max)
  {
    assert PowerOfTwo(4) == 16 && PowerOfTwo(8) == 256 && PowerOfTwo(12) == 4096;
    assert PowerOfTwo(16) == 65536;
  }

  /**
   At a later time without a new failure, a key is blocked exactly while less
   than the returned wait has passed: waiting it out always unblocks.
   */
  lemma WaitingUnblocks(known: Option<Failures>, now: int, later: nat, policy: Policy)
    requires known.Some? ==> known.value.last <= now
    ensures Wait(known, now + later, policy) ==
            if later < Wait(known, now, policy) && Elapsed(now + later, known.value.last) < MEMORY
            then Wait(known, now, policy) - later else 0
  {
  }

  // ---- A whole run of failures ----------------------------------------------------------

  /** One wrong guess: when the caller was let through, and when it was counted. */
  datatype Attempt = Attempt(checkedAt: int, failedAt: int)

  function After(attempts: seq<Attempt>): Option<Failures> {
    if attempts == [] then None
    else Some(Failed(After(attempts[..|attempts| - 1]), attempts[|attempts| - 1].failedAt))
  }

  /** Attempts in time order, each made only when no wait was left. */
  ghost predicate Obedient(attempts: seq<Attempt>, policy: Policy) {
    && (forall k | 0 <= k < |attempts| ::
          attempts[k].checkedAt <= attempts[k].failedAt
          && Wait(After(attempts[..k]), attempts[k].checkedAt, policy) == 0)
    && (forall i, j | 0 <= i < j < |attempts| :: attempts[i].failedAt <= attempts[j].checkedAt)
  }

  /** No two consecutive failures lie a day apart. */
  ghost predicate NeverForgotten(attempts: seq<Attempt>) {
    forall i, j | 0 <= i < j < |attempts| && j == i + 1 :: attempts[j].failedAt - attempts[i].failedAt < MEMORY
  }

  /** The delays after the first `n` failures, added up. */
  function DelaySum(n: nat, policy: Policy): nat {
    if n == 0 then 0 else DelaySum(n - 1, policy) + Delay(Min(n, U32_MAX), policy)
  }

  lemma {:induction false} CountOfRun(attempts: seq<Attempt>, policy: Policy)
    requires attempts != [] && Obedient(attempts, policy) && NeverForgotten(attempts)
    ensures After(attempts) == Some(Failures(Min(|attempts|, U32_MAX), attempts[|attempts| - 1].failedAt))
  {
    var n := |attempts|;
    if n > 1 {
      var before := attempts[..n - 1];
      ObedientPrefix(attempts, n - 1, policy);
      CountOfRun(before, policy);
      assert attempts[n - 2].failedAt <= attempts[n - 1].checkedAt;
      assert attempts[n - 1].failedAt - attempts[n - 2].failedAt < MEMORY;
    } else {
      assert attempts[..0] == [];
    }
  }

  lemma ObedientPrefix(attempts: seq<Attempt>, n: nat, policy: Policy)
    requires n <= |attempts| && Obedient(attempts, policy) && NeverForgotten(attempts)
    ensures Obedient(attempts[..n], policy) && NeverForgotten(attempts[..n])
  {
    forall k | 0 <= k < n
      ensures Wait(After(attempts[..n][..k]), attempts[..n][k].checkedAt, policy) == 0
    {
      assert attempts[..n][..k] == attempts[..k];
    }
  }

  /**
   A guesser who waits every backoff out, and is neither cleared nor forgotten,
   fails for the n-th time no earlier than all delays before it allow.
   */
  lemma {:induction false} GuessesAreSpaced(attempts: seq<Attempt>, policy: Policy)
    requires attempts != [] && Obedient(attempts, policy) && NeverForgotten(attempts)
    ensures attempts[|attempts| - 1].failedAt >= attempts[0].failedAt + DelaySum(|attempts| - 1, policy)
  {
    var n := |attempts|;
    if n > 1 {
      var before := attempts[..n - 1];
      ObedientPrefix(attempts, n - 1, policy);
      GuessesAreSpaced(before, policy);
      CountOfRun(before, policy);
      assert attempts[n - 2].failedAt <= attempts[n - 1].checkedAt;
      assert attempts[n - 1].failedAt - attempts[n - 2].failedAt < MEMORY;
      assert Wait(After(before), attempts[n - 1].checkedAt, policy) == 0;
    }
  }

  // ---- Devices and the account ------------------------------------------------------------

  /** What gates logins and password changes of one device. */
  const DEVICE_POLICY := Policy(3, 15 * 60 * SECOND)
  /** What gates pairing, where no device is known yet. */
  const ACCOUNT_POLICY := Policy(10, 60 * SECOND)
  const ACCOUNT_KEY := "password:account"
  const DEVICE_PREFIX := "password:device:"

  function DeviceKey(id: string): string {
    DEVICE_PREFIX + id
  }

  lemma KeysDiffer(a: string, b: string)
    ensures DeviceKey(a) != ACCOUNT_KEY
    ensures DeviceKey(a) == DeviceKey(b) ==> a == b
  {
    assert DeviceKey(a)[9] == 'd' && ACCOUNT_KEY[9] == 'a';
    assert DeviceKey(a)[|DEVICE_PREFIX|..] == a && DeviceKey(b)[|DEVICE_PREFIX|..] == b;
  }

  /** A password that is tried: by a known device, or at pairing by anyone. */
  datatype Guess = Guess(device: Option<string>, at: Attempt, right: bool)

  function GatingKey(device: Option<string>): string {
    if device.Some? then DeviceKey(device.value) else ACCOUNT_KEY
  }

  function GatingPolicy(device: Option<string>): Policy {
    if device.Some? then DEVICE_POLICY else ACCOUNT_POLICY
  }

  function Noted(memory: Memory, key: string, now: int): Memory {
    memory[key := Failed(Lookup(memory, key), now)]
  }

  /** A wrong password counts for the device, if there is one, and for the account. */
  function AllNoted(memory: Memory, device: Option<string>, now: int): Memory {
    Noted(if device.Some? then Noted(memory, DeviceKey(device.value), now) else memory, ACCOUNT_KEY, now)
  }

  function AllCleared(memory: Memory, device: Option<string>): Memory {
    (if device.Some? then memory - {DeviceKey(device.value)} else memory) - {ACCOUNT_KEY}
  }

  /** Whether a guess is checked at all, and the memory after it. */
  function Handled(memory: Memory, guess: Guess): (bool, Memory) {
    var key := GatingKey(guess.device);
    var swept := Swept(memory, key, guess.at.checkedAt);
    if Wait(Lookup(memory, key), guess.at.checkedAt, GatingPolicy(guess.device)) > 0 then (false, swept)
    else if guess.right then (true, AllCleared(swept, guess.device))
    else (true, AllNoted(swept, guess.device, guess.at.failedAt))
  }

  method NotePasswordFailure(failures: PasswordFailures, device: Option<string>, now: int)
    modifies failures
    ensures failures.memory == AllNoted(old(failures.memory), device, now)
  {
    if device.Some? {
      var _ := failures.NoteFailure(DeviceKey(device.value), now);
    }
    var _ := failures.NoteFailure(ACCOUNT_KEY, now);
  }

  method NotePasswordVerified(failures: PasswordFailures, device: Option<string>)
    modifies failures
    ensures failures.memory == AllCleared(old(failures.memory), device)
  {
    if device.Some? {
      failures.Clear(DeviceKey(device.value));
    }
    failures.Clear(ACCOUNT_KEY);
  }

  /** One guess: refused while its key must wait, else checked and counted. */
  method Handle(failures: PasswordFailures, guess: Guess) returns (checked: bool)
    modifies failures
    ensures (checked, failures.memory) == Handled(old(failures.memory), guess)
  {
    var wait := failures.Backoff(GatingKey(guess.device), GatingPolicy(guess.device), guess.at.checkedAt);
    checked := wait.None?;
    if checked && guess.right {
      NotePasswordVerified(failures, guess.device);
    } else if checked {
      NotePasswordFailure(failures, guess.device, guess.at.failedAt);
    }
  }

  // ---- What is held against a device, and against pairing -----------------------------------------

  /** The guesses in time order, each over before the next. */
  ghost predicate InOrder(guesses: seq<Guess>) {
    && (forall i | 0 <= i < |guesses| :: guesses[i].at.checkedAt <= guesses[i].at.failedAt)
    && (forall i, j | 0 <= i < j < |guesses| :: guesses[i].at.failedAt <= guesses[j].at.checkedAt)
  }

  /**
   The checked wrong guesses since the last right one: of a device its own, at
   pairing (no device) those of everyone.
   */
  function WrongSince(guesses: seq<Guess>, checked: seq<bool>, gate: Option<string>): seq<Attempt>
    requires |checked| == |guesses|
  {
    if guesses == [] then []
    else
      var last := |guesses| - 1;
      Further(WrongSince(guesses[..last], checked[..last], gate), guesses[last], checked[last], gate)
  }

  predicate CountsFor(guess: Guess, gate: Option<string>) {
    gate.None? || guess.device == gate
  }

  function Further(attempts: seq<Attempt>, guess: Guess, checked: bool, gate: Option<string>): seq<Attempt> {
    if !CountsFor(guess, gate) || !checked then attempts
    else if guess.right then []
    else attempts + [guess.at]
  }

  lemma WrongNext(guesses: seq<Guess>, checked: seq<bool>, guess: Guess, answer: bool, gate: Option<string>)
    requires |checked| == |guesses|
    ensures WrongSince(guesses + [guess], checked + [answer], gate) ==
            Further(WrongSince(guesses, checked, gate), guess, answer, gate)
  {
    assert (guesses + [guess])[..|guesses|] == guesses && (checked + [answer])[..|checked|] == checked;
  }

  /** The table knows what a key failed at, or has forgotten what no longer counts. */
  predicate Remembers(memory: Memory, key: string, attempts: seq<Attempt>, now: int) {
    || Lookup(memory, key) == After(attempts)
    || (key !in memory && After(attempts).Some? && Elapsed(now, After(attempts).value.last) >= MEMORY)
  }

  lemma RemembersLater(memory: Memory, key: string, attempts: seq<Attempt>, now: int, later: int, policy: Policy)
    requires Remembers(memory, key, attempts, now) && now <= later
    ensures Remembers(memory, key, attempts, later)
    ensures Remembers(Swept(memory, key, later), key, attempts, later)
    ensures Wait(Lookup(memory, key), later, policy) == Wait(After(attempts), later, policy)
    ensures Failed(Lookup(memory, key), later) == Failed(After(attempts), later)
  {
  }

  lemma AfterNext(attempts: seq<Attempt>, at: Attempt)
    ensures After(attempts + [at]) == Some(Failed(After(attempts), at.failedAt))
  {
    assert (attempts + [at])[..|attempts|] == attempts;
  }

  /** One more attempt that comes after all others, at a time without a wait. */
  lemma ObedientNext(attempts: seq<Attempt>, at: Attempt, policy: Policy)
    requires Obedient(attempts, policy) && at.checkedAt <= at.failedAt
    requires forall a <- attempts :: a.failedAt <= at.checkedAt
    requires Wait(After(attempts), at.checkedAt, policy) == 0
    ensures Obedient(attempts + [at], policy)
  {
    hide After, Wait;
    var all := attempts + [at];
    forall k | 0 <= k < |all|
      ensures all[k].checkedAt <= all[k].failedAt && Wait(After(all[..k]), all[k].checkedAt, policy) == 0
    {
      assert all[..k] == if k < |attempts| then attempts[..k] else attempts;
    }
    forall i, j | 0 <= i < j < |all| ensures all[i].failedAt <= all[j].checkedAt {
      assert j == |attempts| ==> attempts[i] in attempts;
    }
  }

  /** What holds of every device, and of the account, between two guesses. */
  ghost predicate Tracks(memory: Memory, gate: Option<string>, attempts: seq<Attempt>, now: int) {
    && Remembers(memory, GatingKey(gate), attempts, now)
    && (gate.Some? ==> Obedient(attempts, DEVICE_POLICY))
    && forall a <- attempts :: a.failedAt <= now
  }

  /** What a guess leaves under the key of a device, or of the account. */
  lemma KeyAfter(memory: Memory, guess: Guess, gate: Option<string>)
    ensures var (checked, after) := Handled(memory, guess);
            && (guess.device == gate ==>
                  (checked <==> Wait(Lookup(memory, GatingKey(gate)), guess.at.checkedAt, GatingPolicy(gate)) == 0))
            && Lookup(after, GatingKey(gate)) ==
               var swept := if guess.device == gate then Swept(memory, GatingKey(gate), guess.at.checkedAt) else memory;
               var known := Lookup(swept, GatingKey(gate));
               if !CountsFor(guess, gate) || !checked then known
               else if guess.right then None
               else Some(Failed(known, guess.at.failedAt))
  {
    hide Wait, Failed;
    KeysDiffer(if gate.Some? then gate.value else "", if guess.device.Some? then guess.device.value else "");
    KeysDiffer(if guess.device.Some? then guess.device.value else "", "");
  }

  lemma NothingFailed(policy: Policy)
    ensures After([]) == None && Obedient([], policy)
  {
  }

  lemma GuessTracked(memory: Memory, guess: Guess, gate: Option<string>, attempts: seq<Attempt>, now: int)
    requires Tracks(memory, gate, attempts, now) && now <= guess.at.checkedAt <= guess.at.failedAt
    ensures var (checked, after) := Handled(memory, guess);
            && Tracks(after, gate, Further(attempts, guess, checked, gate), guess.at.failedAt)
            && (guess.device == gate ==>
                  (checked <==> Wait(After(attempts), guess.at.checkedAt, GatingPolicy(gate)) == 0))
  {
    hide Handled, Wait, Failed, Obedient, Swept, After;
    var key, at := GatingKey(gate), guess.at;
    KeyAfter(memory, guess, gate);
    RemembersLater(memory, key, attempts, now, at.checkedAt, GatingPolicy(gate));
    RemembersLater(memory, key, attempts, now, at.failedAt, GatingPolicy(gate));
    RemembersLater(Swept(memory, key, at.checkedAt), key, attempts, at.checkedAt, at.failedAt, GatingPolicy(gate));
    if CountsFor(guess, gate) && Handled(memory, guess).0 {
      NothingFailed(DEVICE_POLICY);
      AfterNext(attempts, at);
      if gate.Some? {
        ObedientNext(attempts, at, DEVICE_POLICY);
      }
    }
  }

  /** A device is answered by its own guesses, whatever the others do; pairing by everyone's. */
  ghost predicate OwnAnswers(guesses: seq<Guess>, checked: seq<bool>)
    requires |checked| == |guesses|
  {
    forall i | 0 <= i < |guesses| ::
      checked[i] <==>
      Wait(After(WrongSince(guesses[..i], checked[..i], guesses[i].device)), guesses[i].at.checkedAt,
           GatingPolicy(guesses[i].device)) == 0
  }

  lemma OwnAnswersNext(guesses: seq<Guess>, checked: seq<bool>, i: nat, answer: bool)
    requires i < |guesses| && |checked| == i && OwnAnswers(guesses[..i], checked)
    requires var gate := guesses[i].device;
             answer <==> Wait(After(WrongSince(guesses[..i], checked, gate)), guesses[i].at.checkedAt, GatingPolicy(gate)) == 0
    ensures OwnAnswers(guesses[..i + 1], checked + [answer])
  {
    hide Wait, After, WrongSince, GatingPolicy;
    var made, tried := guesses[..i + 1], checked + [answer];
    forall k | 0 <= k < i + 1
      ensures tried[k] <==>
              Wait(After(WrongSince(made[..k], tried[..k], made[k].device)), made[k].at.checkedAt,
                   GatingPolicy(made[k].device)) == 0
    {
      assert made[..k] == guesses[..i][..k];
      if k < i {
        assert tried[..k] == checked[..k] && guesses[..i][k] == guesses[k];
      } else {
        assert tried[..k] == checked && guesses[..i][..k] == guesses[..i];
      }
    }
  }

  /**
   Any guesses by any devices and at pairing, from an empty table. A device is
   refused exactly as its own wrong guesses since its last right one demand, so
   nobody else can hold it up; pairing exactly as the wrong guesses of everyone
   since anyone's last right one demand. And whatever a device tries, the wrong
   guesses it gets checked are spaced by the delays, unless it pauses for a day.
   */
  method ServeGuesses(failures: PasswordFailures, guesses: seq<Guess>) returns (checked: seq<bool>)
    requires failures.memory == map[] && InOrder(guesses)
    modifies failures
    ensures |checked| == |guesses| && OwnAnswers(guesses, checked)
    ensures forall id ::
              var wrong := WrongSince(guesses, checked, Some(id));
              wrong != [] && NeverForgotten(wrong) ==>
                wrong[|wrong| - 1].failedAt >= wrong[0].failedAt + DelaySum(|wrong| - 1, DEVICE_POLICY)
  {
    hide Handled, Tracks, WrongSince, OwnAnswers, Wait, After, NeverForgotten, DelaySum;
    checked := [];
    ghost var now := if guesses == [] then 0 else guesses[0].at.checkedAt;
    NothingTracked(failures.memory, now);
    for i := 0 to |guesses|
      invariant |checked| == i && (i < |guesses| ==> now <= guesses[i].at.checkedAt)
      invariant OwnAnswers(guesses[..i], checked)
      invariant forall gate :: Tracks(failures.memory, gate, WrongSince(guesses[..i], checked, gate), now)
    {
      ghost var memory := failures.memory;
      var answer := Handle(failures, guesses[i]);
      assert guesses[..i + 1] == guesses[..i] + [guesses[i]];
      ghost var tried, made, later := checked + [answer], guesses[..i + 1], guesses[i].at.failedAt;
      forall gate ensures Tracks(failures.memory, gate, WrongSince(made, tried, gate), later) {
        GuessTracked(memory, guesses[i], gate, WrongSince(guesses[..i], checked, gate), now);
        WrongNext(guesses[..i], checked, guesses[i], answer, gate);
      }
      ghost var own := guesses[i].device;
      GuessTracked(memory, guesses[i], own, WrongSince(guesses[..i], checked, own), now);
      OwnAnswersNext(guesses, checked, i, answer);
      checked, now := checked + [answer], guesses[i].at.failedAt;
      assert checked == tried;
    }
    assert guesses[..|guesses|] == guesses;
    forall id ensures var wrong := WrongSince(guesses, checked, Some(id));
                      wrong != [] && NeverForgotten(wrong) ==>
                        wrong[|wrong| - 1].failedAt >= wrong[0].failedAt + DelaySum(|wrong| - 1, DEVICE_POLICY)
    {
      TrackedIsSpaced(failures.memory, id, WrongSince(guesses, checked, Some(id)), now);
    }
  }

  lemma NothingTracked(memory: Memory, now: int)
    requires memory == map[]
    ensures OwnAnswers([], []) && forall gate :: Tracks(memory, gate, WrongSince([], [], gate), now)
  {
  }

  lemma TrackedIsSpaced(memory: Memory, id: string, wrong: seq<Attempt>, now: int)
    requires Tracks(memory, Some(id), wrong, now)
    ensures wrong != [] && NeverForgotten(wrong) ==>
              wrong[|wrong| - 1].failedAt >= wrong[0].failedAt + DelaySum(|wrong| - 1, DEVICE_POLICY)
  {
    if wrong != [] && NeverForgotten(wrong) {
      GuessesAreSpaced(wrong, DEVICE_POLICY);
    }
  }
}
