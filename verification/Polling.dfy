/** Polling a deployment with capped exponential backoff, on a clock that only fetching and
    sleeping advance. */
module Polling {
  import opened Wrappers

  datatype Settings = Settings(
    maxAttempts: int, initialBackoff: real, maxBackoff: real, multiplier: real, timeout: real)

  /** The first sleep, and how each sleep follows from the one before. */
  datatype Schedule = Schedule(first: real, next: real -> real)

  /** What one fetch gives: an exception; a deployed revision with its time and the whole document; a
      value that is no text but prints, such as null or a list; or one that fails to print after it
      was recorded. */
  datatype Fetch =
    | Raised(message: string)
    | Found(sha: string, time: string, document: string)
    | OtherSha(shown: string, time: string)
    | OddSha(shown: string, time: string, message: string)

  /** What attempt `k` (from 1) gives, and how long its fetch takes. */
  datatype World = World(expected: string, answer: nat -> Fetch, duration: nat -> real) {
    predicate Matches(k: nat) {
      answer(k).Found? && answer(k).sha == expected
    }
  }

  datatype Entry =
    | Seen(attempt: nat, sha: string, time: string, elapsed: real)
    | SeenOther(attempt: nat, shown: string, time: string, elapsed: real)
    | Error(attempt: nat, message: string, elapsed: real)

  datatype LastError =
    | NoAttempts | TimedOut(elapsed: real) | Mismatch(sha: string) | OtherMismatch(shown: string)
    | FetchFailed(message: string)

  datatype Outcome = Outcome(
    passed: bool, attempts: nat, sleeps: seq<real>, finished: real, history: seq<Entry>, error: LastError,
    provenance: Option<string>)

  function Min(a: real, b: real): real {
    if a < b then a else b
  }

  function ScheduleOf(s: Settings): Schedule {
    Schedule(s.initialBackoff, b => NextSleep(s, b))
  }

  function NextSleep(s: Settings, backoff: real): real {
    Min(s.maxBackoff, backoff * s.multiplier)
  }

  function Attempts(s: Settings): nat {
    if s.maxAttempts > 0 then s.maxAttempts else 0
  }

  /** The sleep after attempt `i + 1`. */
  function Sleep(d: Schedule, i: nat): real {
    if i == 0 then d.first else d.next(Sleep(d, i - 1))
  }

  /** When attempt `k + 1` begins. */
  function Begins(d: Schedule, w: World, k: nat): real {
    if k == 0 then 0.0 else Begins(d, w, k - 1) + w.duration(k) + Sleep(d, k - 1)
  }

  function Fetched(d: Schedule, w: World, k: nat): real
    requires k > 0
  {
    Begins(d, w, k - 1) + w.duration(k)
  }

  /** What attempt `k` adds to the history. */
  function EntriesOf(d: Schedule, w: World, k: nat): seq<Entry>
    requires k > 0
  {
    var elapsed := Begins(d, w, k - 1);
    match w.answer(k)
    case Found(sha, time, _) => [Seen(k, sha, time, elapsed)]
    case OtherSha(shown, time) => [SeenOther(k, shown, time, elapsed)]
    case Raised(message) => [Error(k, message, elapsed)]
    case OddSha(shown, time, message) => [SeenOther(k, shown, time, elapsed), Error(k, message, elapsed)]
  }

  function History(d: Schedule, w: World, k: nat): seq<Entry> {
    if k == 0 then [] else History(d, w, k - 1) + EntriesOf(d, w, k)
  }

  /** The error that `k` fetched attempts leave. */
  function ErrorAfter(w: World, k: nat): LastError {
    if k == 0 then NoAttempts
    else
      match w.answer(k)
      case Found(sha, _, _) => Mismatch(sha)
      case OtherSha(shown, _) => OtherMismatch(shown)
      case Raised(message) => FetchFailed(message)
      case OddSha(_, _, message) => FetchFailed(message)
  }

  /** Attempts 1 to `k` all begin in time and find nothing. */
  ghost predicate AllMissed(d: Schedule, w: World, timeout: real, k: nat) {
    forall j | 1 <= j <= k :: InTime(d, w, timeout, j) && !w.Matches(j)
  }

  predicate InTime(d: Schedule, w: World, timeout: real, k: nat)
    requires k > 0
  {
    Begins(d, w, k - 1) <= timeout
  }

  ghost predicate HasSleeps(d: Schedule, sleeps: seq<real>, n: nat) {
    |sleeps| == n && forall i | 0 <= i < n :: sleeps[i] == Sleep(d, i)
  }

  /** A pass reports the first matching attempt, which began within the timeout; a failure either
      stopped at the first attempt that would begin too late or used all `limit` attempts.  The
      history holds every fetch that was made. */
  ghost predicate IsOutcome(d: Schedule, w: World, limit: nat, timeout: real, r: Outcome) {
    && r.attempts <= limit && HasSleeps(d, r.sleeps, if r.attempts > 0 then r.attempts - 1 else 0)
    && (r.provenance.Some? <==> r.passed)
    && if r.passed then
         && r.attempts > 0 && InTime(d, w, timeout, r.attempts) && w.Matches(r.attempts)
         && AllMissed(d, w, timeout, r.attempts - 1) && r.finished == Fetched(d, w, r.attempts)
         && r.history == History(d, w, r.attempts) && r.provenance == Some(w.answer(r.attempts).document)
       else if r.attempts > 0 && !InTime(d, w, timeout, r.attempts) then
         && AllMissed(d, w, timeout, r.attempts - 1) && r.finished == Begins(d, w, r.attempts - 1)
         && r.history == History(d, w, r.attempts - 1) && r.error == TimedOut(r.finished)
       else
         && r.attempts == limit && AllMissed(d, w, timeout, limit)
         && r.finished == (if limit == 0 then 0.0 else Fetched(d, w, limit))
         && r.history == History(d, w, limit) && r.error == ErrorAfter(w, limit)
  }

  method Poll(d: Schedule, w: World, limit: nat, timeout: real) returns (r: Outcome)
    ensures IsOutcome(d, w, limit, timeout, r)
  {
    var clock, backoff := 0.0, d.first;
    var sleeps: seq<real> := [];
    var history: seq<Entry> := [];
    var attemptsMade, lastError := 0, NoAttempts;
    for attempt := 1 to limit + 1
      invariant attemptsMade == attempt - 1 && AllMissed(d, w, timeout, attemptsMade)
      invariant HasSleeps(d, sleeps, if 0 < attemptsMade == limit then attemptsMade - 1 else attemptsMade)
      invariant attemptsMade < limit ==> clock == Begins(d, w, attemptsMade) && backoff == Sleep(d, attemptsMade)
      invariant attemptsMade == limit ==> clock == if limit == 0 then 0.0 else Fetched(d, w, limit)
      invariant history == History(d, w, attemptsMade) && lastError == ErrorAfter(w, attemptsMade)
    {
      attemptsMade := attempt;
      var elapsed := clock;
      if elapsed > timeout {
        return Outcome(false, attemptsMade, sleeps, clock, history, TimedOut(elapsed), None);
      }
      clock := clock + w.duration(attempt);
      match w.answer(attempt) {
        case Found(sha, time, document) =>
          history := history + [Seen(attempt, sha, time, elapsed)];
          if sha == w.expected {
            return Outcome(true, attemptsMade, sleeps, clock, history, lastError, Some(document));
          }
          lastError := Mismatch(sha);
        case OtherSha(shown, time) =>
          history := history + [SeenOther(attempt, shown, time, elapsed)];
          lastError := OtherMismatch(shown);
        case Raised(message) =>
          lastError := FetchFailed(message);
          history := history + [Error(attempt, message, elapsed)];
        case OddSha(shown, time, message) =>
          history := history + [SeenOther(attempt, shown, time, elapsed), Error(attempt, message, elapsed)];
          lastError := FetchFailed(message);
      }
      if attempt < limit {
        clock := clock + backoff;
        sleeps := sleeps + [backoff];
        backoff := d.next(backoff);
      }
    }
    r := Outcome(false, attemptsMade, sleeps, clock, history, lastError, None);
  }

  method VerifyFreshness(s: Settings, w: World) returns (r: Outcome)
    ensures IsOutcome(ScheduleOf(s), w, Attempts(s), s.timeout, r)
  {
    r := Poll(ScheduleOf(s), w, Attempts(s), s.timeout);
  }

  // ---- The sleeps ----

  function Power(m: real, i: nat): real {
    if i == 0 then 1.0 else Power(m, i - 1) * m
  }

  lemma ProductBounds(a: real, b: real)
    requires 0.0 <= a && 0.0 <= b
    ensures 0.0 <= a * b && (b <= 1.0 ==> a * b <= a)
  {
  }

  ghost predicate Sensible(s: Settings) {
    0.0 <= s.initialBackoff && 0.0 <= s.multiplier
  }

  /** `a` multiplied by `m`, `i` times over. */
  function Grown(a: real, m: real, i: nat): real {
    if i == 0 then a else Grown(a, m, i - 1) * m
  }

  lemma {:induction false} GrownIsPower(a: real, m: real, i: nat)
    ensures Grown(a, m, i) == a * Power(m, i)
  {
    if i > 0 {
      GrownIsPower(a, m, i - 1);
    }
  }

  /** Below a multiplier of 1 the value never exceeds the start. */
  lemma {:induction false} GrownBounds(a: real, m: real, i: nat)
    requires 0.0 <= a && 0.0 <= m
    ensures 0.0 <= Grown(a, m, i) && (m <= 1.0 ==> Grown(a, m, i) <= a)
  {
    if i > 0 {
      GrownBounds(a, m, i - 1);
      ProductBounds(Grown(a, m, i - 1), m);
    }
  }

  lemma CappedProduct(cap: real, x: real, m: real)
    requires x > cap ==> 0.0 <= cap && 1.0 <= m
    ensures Min(cap, Min(cap, x) * m) == Min(cap, x * m)
  {
  }

  function Capped(s: Settings, i: nat): real {
    Min(s.maxBackoff, Grown(s.initialBackoff, s.multiplier, i))
  }

  lemma CappedNext(s: Settings, i: nat)
    requires Sensible(s) && s.initialBackoff <= s.maxBackoff
    ensures NextSleep(s, Capped(s, i)) == Capped(s, i + 1)
  {
    var x := Grown(s.initialBackoff, s.multiplier, i);
    GrownBounds(s.initialBackoff, s.multiplier, i);
    CappedProduct(s.maxBackoff, x, s.multiplier);
  }

  lemma {:induction false} SleepIsCapped(s: Settings, i: nat)
    requires Sensible(s) && s.initialBackoff <= s.maxBackoff
    ensures Sleep(ScheduleOf(s), i) == Capped(s, i)
  {
    if i > 0 {
      SleepIsCapped(s, i - 1);
      CappedNext(s, i - 1);
      assert Sleep(ScheduleOf(s), i) == NextSleep(s, Capped(s, i - 1));
    }
  }

  /** The i-th sleep is min(cap, initial * multiplier^i) for every i, exactly when the first one is
      not above the cap; the multiplier may be any non-negative number. */
  lemma SleepClosedForm(s: Settings)
    requires Sensible(s)
    ensures (forall i: nat :: Sleep(ScheduleOf(s), i) == Capped(s, i)) <==> s.initialBackoff <= s.maxBackoff
  {
    if s.initialBackoff <= s.maxBackoff {
      forall i: nat ensures Sleep(ScheduleOf(s), i) == Capped(s, i) {
        SleepIsCapped(s, i);
      }
    } else {
      assert Sleep(ScheduleOf(s), 0) == s.initialBackoff != s.maxBackoff == Capped(s, 0);
    }
  }

  lemma CappedIsPower(s: Settings, i: nat)
    ensures Capped(s, i) == Min(s.maxBackoff, s.initialBackoff * Power(s.multiplier, i))
  {
    GrownIsPower(s.initialBackoff, s.multiplier, i);
  }

  // ---- Success and time ----

  /** No sleep is negative, which is all that sleeping demands. */
  ghost predicate CanSleep(s: Settings) {
    Sensible(s) && 0.0 <= s.maxBackoff
  }

  /** The first sleep may be above the cap. */
  function LargestSleep(s: Settings): real {
    if s.initialBackoff > s.maxBackoff then s.initialBackoff else s.maxBackoff
  }

  /** Every sleep is between nothing and `cap`. */
  ghost predicate Bounded(d: Schedule, cap: real) {
    forall i: nat :: 0.0 <= Sleep(d, i) <= cap
  }

  lemma {:induction false} SleepBounds(s: Settings, i: nat)
    requires CanSleep(s)
    ensures 0.0 <= Sleep(ScheduleOf(s), i) <= LargestSleep(s)
  {
    if i > 0 {
      SleepBounds(s, i - 1);
      var before := Sleep(ScheduleOf(s), i - 1);
      ProductBounds(before, s.multiplier);
      assert Sleep(ScheduleOf(s), i) == NextSleep(s, before);
    }
  }

  lemma ScheduleIsBounded(s: Settings)
    requires CanSleep(s)
    ensures Bounded(ScheduleOf(s), LargestSleep(s))
  {
    forall i: nat ensures 0.0 <= Sleep(ScheduleOf(s), i) <= LargestSleep(s) { SleepBounds(s, i); }
  }

  lemma {:induction false} BeginsInOrder(d: Schedule, w: World, cap: real, j: nat, k: nat)
    requires Bounded(d, cap) && j <= k && forall i :: 0.0 <= w.duration(i)
    ensures Begins(d, w, j) <= Begins(d, w, k)
    decreases k
  {
    if j < k { BeginsInOrder(d, w, cap, j, k - 1); }
  }

  /** The call passes exactly when some attempt that begins within the timeout matches. */
  lemma PassesExactly(s: Settings, w: World, r: Outcome)
    requires CanSleep(s) && (forall i :: 0.0 <= w.duration(i))
    requires IsOutcome(ScheduleOf(s), w, Attempts(s), s.timeout, r)
    ensures r.passed
            <==> exists k: nat :: && 1 <= k <= s.maxAttempts && w.answer(k).Found? && w.answer(k).sha == w.expected
                                  && Begins(ScheduleOf(s), w, k - 1) <= s.timeout
  {
    ScheduleIsBounded(s);
    FailsExactly(ScheduleOf(s), w, LargestSleep(s), Attempts(s), s.timeout, r);
    forall k: nat | 1 <= k <= Attempts(s)
      ensures InTime(ScheduleOf(s), w, s.timeout, k) <==> Begins(ScheduleOf(s), w, k - 1) <= s.timeout
      ensures w.Matches(k) <==> w.answer(k).Found? && w.answer(k).sha == w.expected
    {
    }
  }

  lemma FailsExactly(d: Schedule, w: World, cap: real, limit: nat, timeout: real, r: Outcome)
    requires Bounded(d, cap) && (forall i :: 0.0 <= w.duration(i)) && IsOutcome(d, w, limit, timeout, r)
    ensures !r.passed <==> forall k | 1 <= k <= limit && w.Matches(k) :: !InTime(d, w, timeout, k)
  {
    if !r.passed && r.attempts > 0 && !InTime(d, w, timeout, r.attempts) {
      forall k | r.attempts <= k <= limit ensures !InTime(d, w, timeout, k) {
        BeginsInOrder(d, w, cap, r.attempts - 1, k - 1);
      }
    }
  }

  /** With fetches of at most `longest`, the call returns soon after the timeout. */
  lemma ReturnsInTime(s: Settings, w: World, r: Outcome, longest: real)
    requires CanSleep(s) && (forall i :: 0.0 <= w.duration(i) <= longest)
    requires IsOutcome(ScheduleOf(s), w, Attempts(s), s.timeout, r)
    ensures r.finished <= (if s.timeout > 0.0 then s.timeout else 0.0) + longest + LargestSleep(s)
  {
    ScheduleIsBounded(s);
    FinishBound(ScheduleOf(s), w, LargestSleep(s), Attempts(s), s.timeout, r, longest);
  }

  lemma FinishBound(d: Schedule, w: World, cap: real, limit: nat, timeout: real, r: Outcome, longest: real)
    requires Bounded(d, cap) && (forall i :: 0.0 <= w.duration(i) <= longest) && IsOutcome(d, w, limit, timeout, r)
    ensures r.finished <= (if timeout > 0.0 then timeout else 0.0) + longest + cap
  {
    assert 0.0 <= w.duration(0) <= longest && 0.0 <= Sleep(d, 0) <= cap;
    if !r.passed && r.attempts > 1 && !InTime(d, w, timeout, r.attempts) {
      assert InTime(d, w, timeout, r.attempts - 1);
      assert 0.0 <= Sleep(d, r.attempts - 2) <= cap;
    }
  }

  // ---- The report, spelled out ----

  /** Each sleep is the one before times the multiplier, cut off at the cap. */
  lemma SleepsExactly(s: Settings, i: nat)
    ensures Sleep(ScheduleOf(s), 0) == s.initialBackoff
    ensures var grown := Sleep(ScheduleOf(s), i) * s.multiplier;
            Sleep(ScheduleOf(s), i + 1) == if grown <= s.maxBackoff then grown else s.maxBackoff
  {
    assert Sleep(ScheduleOf(s), i + 1) == NextSleep(s, Sleep(ScheduleOf(s), i));
  }

  function Total(xs: seq<real>): real {
    if xs == [] then 0.0 else Total(xs[..|xs| - 1]) + xs[|xs| - 1]
  }

  lemma {:induction false} TotalExactly(a: seq<real>, b: seq<real>)
    ensures Total(a + b) == Total(a) + Total(b) && forall x: real :: Total([x]) == x
  {
    forall x: real ensures Total([x]) == x {
      assert [x][..0] == [];
    }
    if b == [] {
      assert a + b == a;
    } else {
      var init := b[..|b| - 1];
      TotalExactly(a, init);
      assert (a + b)[..|a + b| - 1] == a + init && (a + b)[|a + b| - 1] == b[|b| - 1];
    }
  }

  /** How long the first `n` fetches take. */
  ghost function Durations(w: World, n: nat): seq<real> {
    seq(n, (i: nat) => w.duration(i + 1))
  }

  ghost function Sleeps(d: Schedule, n: nat): seq<real> {
    seq(n, (i: nat) => Sleep(d, i))
  }

  lemma DurationsStep(w: World, n: nat)
    ensures Total(Durations(w, n + 1)) == Total(Durations(w, n)) + w.duration(n + 1)
  {
    assert Durations(w, n + 1)[..n] == Durations(w, n);
  }

  lemma SleepsStep(d: Schedule, n: nat)
    ensures Total(Sleeps(d, n + 1)) == Total(Sleeps(d, n)) + Sleep(d, n)
  {
    assert Sleeps(d, n + 1)[..n] == Sleeps(d, n);
  }

  ghost function TimeSpent(d: Schedule, w: World, k: nat): real {
    Total(Durations(w, k)) + Total(Sleeps(d, k))
  }

  lemma TimeStep(d: Schedule, w: World, k: nat)
    ensures TimeSpent(d, w, k + 1) == TimeSpent(d, w, k) + w.duration(k + 1) + Sleep(d, k)
    ensures TimeSpent(d, w, 0) == 0.0
  {
    DurationsStep(w, k);
    SleepsStep(d, k);
  }

  /** Time passes in fetches and in sleeps only. */
  lemma {:induction false} BeginsExactly(d: Schedule, w: World, k: nat)
    ensures Begins(d, w, k) == TimeSpent(d, w, k)
  {
    if k > 0 {
      BeginsExactly(d, w, k - 1);
      TimeStep(d, w, k - 1);
    }
  }

  /** The attempts that fetched: all of them, unless the last one came too late. */
  function FetchesOf(r: Outcome): int {
    if !r.passed && r.error.TimedOut? then r.attempts - 1 else r.attempts
  }

  /** A call takes the time of its fetches and of its sleeps. */
  lemma TimeAddsUp(d: Schedule, w: World, limit: nat, timeout: real, r: Outcome)
    requires IsOutcome(d, w, limit, timeout, r)
    ensures FetchesOf(r) >= 0
    ensures r.finished == Total(Durations(w, FetchesOf(r))) + Total(r.sleeps)
  {
    var slept := if r.attempts > 0 then r.attempts - 1 else 0;
    assert r.sleeps == Sleeps(d, slept);
    BeginsExactly(d, w, slept);
    DurationsStep(w, slept);
  }

  /** A pass reports the first answer that matches; a failure found none, and stopped late or after
      the last attempt. */
  lemma ReportExactly(s: Settings, w: World, r: Outcome)
    requires IsOutcome(ScheduleOf(s), w, Attempts(s), s.timeout, r)
    ensures forall k | 1 <= k < r.attempts :: !(w.answer(k).Found? && w.answer(k).sha == w.expected)
    ensures r.passed ==>
              && 1 <= r.attempts <= s.maxAttempts && w.answer(r.attempts).Found?
              && w.answer(r.attempts).sha == w.expected && r.provenance == Some(w.answer(r.attempts).document)
    ensures !r.passed ==> r.provenance == None
    ensures !r.passed && r.error.TimedOut? ==> r.error.elapsed == r.finished > s.timeout
    ensures !r.passed && !r.error.TimedOut? ==>
              && r.attempts == (if s.maxAttempts > 0 then s.maxAttempts else 0)
              && (r.attempts > 0 ==> !(w.answer(r.attempts).Found? && w.answer(r.attempts).sha == w.expected))
  {
    var d := ScheduleOf(s);
    assert forall k: nat :: w.Matches(k) <==> w.answer(k).Found? && w.answer(k).sha == w.expected;
    assert r.attempts > 0 ==> AllMissed(d, w, s.timeout, r.attempts - 1);
  }

  /** The error tells what the last attempt gave. */
  lemma ErrorExactly(w: World, k: nat)
    ensures ErrorAfter(w, k) == NoAttempts <==> k == 0
    ensures forall sha :: ErrorAfter(w, k) == Mismatch(sha) <==> k > 0 && w.answer(k).Found? && w.answer(k).sha == sha
    ensures forall shown ::
              ErrorAfter(w, k) == OtherMismatch(shown)
              <==> k > 0 && w.answer(k).OtherSha? && w.answer(k).shown == shown
    ensures forall message ::
              ErrorAfter(w, k) == FetchFailed(message)
              <==> k > 0 && (w.answer(k).Raised? || w.answer(k).OddSha?) && w.answer(k).message == message
  {
  }

  /** An entry tells what its attempt gave, and when that began. */
  ghost predicate Tells(d: Schedule, w: World, e: Entry) {
    && e.attempt >= 1 && e.elapsed == Begins(d, w, e.attempt - 1)
    && var answer := w.answer(e.attempt);
    && match e
       case Seen(_, sha, time, _) => answer.Found? && answer.sha == sha && answer.time == time
       case SeenOther(_, shown, time, _) =>
         (answer.OtherSha? || answer.OddSha?) && answer.shown == shown && answer.time == time
       case Error(_, message, _) => (answer.Raised? || answer.OddSha?) && answer.message == message
  }

  /** An earlier attempt, or in one attempt what was seen before what failed. */
  ghost predicate Precedes(e: Entry, f: Entry) {
    e.attempt < f.attempt || (e.attempt == f.attempt && e.SeenOther? && f.Error?)
  }

  lemma EntriesExactly(d: Schedule, w: World, k: nat, e: Entry)
    requires k > 0
    ensures e in EntriesOf(d, w, k) <==> Tells(d, w, e) && e.attempt == k
    ensures forall i, j | 0 <= i < j < |EntriesOf(d, w, k)| :: Precedes(EntriesOf(d, w, k)[i], EntriesOf(d, w, k)[j])
  {
  }

  /** The history holds exactly the entries that tell of its attempts. */
  lemma {:induction false} HistoryExactly(d: Schedule, w: World, k: nat, e: Entry)
    ensures e in History(d, w, k) <==> Tells(d, w, e) && e.attempt <= k
  {
    if k > 0 {
      HistoryExactly(d, w, k - 1, e);
      EntriesExactly(d, w, k, e);
    }
  }

  /** The history is in the order of the attempts. */
  lemma {:induction false} HistoryInOrder(d: Schedule, w: World, k: nat)
    ensures forall i, j | 0 <= i < j < |History(d, w, k)| :: Precedes(History(d, w, k)[i], History(d, w, k)[j])
  {
    if k > 0 {
      HistoryInOrder(d, w, k - 1);
      var before, last := History(d, w, k - 1), EntriesOf(d, w, k);
      forall e <- before ensures e.attempt < k { HistoryExactly(d, w, k - 1, e); }
      forall e <- last ensures e.attempt == k { EntriesExactly(d, w, k, e); }
      InOrder(before, last, k);
    }
  }

  lemma InOrder(a: seq<Entry>, b: seq<Entry>, k: nat)
    requires forall i, j | 0 <= i < j < |a| :: Precedes(a[i], a[j])
    requires forall i, j | 0 <= i < j < |b| :: Precedes(b[i], b[j])
    requires (forall e <- a :: e.attempt < k) && forall e <- b :: e.attempt == k
    ensures forall i, j | 0 <= i < j < |a + b| :: Precedes((a + b)[i], (a + b)[j])
  {
  }
}
