/**
 * Login rate limiting: at most five failed attempts per address in a sliding window of fifteen
 * minutes with inclusive bounds, and the retry hint sent with a refusal.
 *
 * Time is in integer microseconds, the resolution of the stored timestamps.  One login reads the
 * clock up to four times; the model keeps those readings apart.
 */
module RateLimiter {
  import opened Bytes

  const MAX_FAILED: nat := 5
  const SECOND: int := 1_000_000
  const WINDOW_SECONDS: int := 15 * 60
  const WINDOW: int := WINDOW_SECONDS * SECOND

  datatype Attempt = Attempt(ip: string, at: int, success: bool)

  type Attempts = seq<Attempt>

  predicate FailedSince(a: Attempt, ip: string, from: int) {
    a.ip == ip && a.at >= from && !a.success
  }

  /** Failed attempts of `ip` at or after `from`. */
  function CountSince(attempts: Attempts, ip: string, from: int): nat {
    if attempts == [] then 0
    else CountSince(attempts[..|attempts| - 1], ip, from)
         + if FailedSince(attempts[|attempts| - 1], ip, from) then 1 else 0
  }

  /** The earliest failed attempt of `ip` at or after `from`. */
  function OldestSince(attempts: Attempts, ip: string, from: int): Option<int> {
    if attempts == [] then None
    else
      var last := attempts[|attempts| - 1];
      var earlier := OldestSince(attempts[..|attempts| - 1], ip, from);
      if !FailedSince(last, ip, from) then earlier
      else if earlier.Some? then Some(Min(earlier.value, last.at)) else Some(last.at)
  }

  /** What the ordered, one-row query returns: `None` for no match, else the time of some match that no
      other match precedes. */
  lemma {:induction false} OldestIs(attempts: Attempts, ip: string, from: int)
    ensures var oldest := OldestSince(attempts, ip, from);
            && (oldest.None? <==> CountSince(attempts, ip, from) == 0)
            && (oldest.None? <==> forall i :: 0 <= i < |attempts| ==> !FailedSince(attempts[i], ip, from))
            && (oldest.Some? ==> exists i :: && 0 <= i < |attempts| && FailedSince(attempts[i], ip, from)
                                            && attempts[i].at == oldest.value)
            && (oldest.Some? ==>
                  forall i :: 0 <= i < |attempts| && FailedSince(attempts[i], ip, from) ==>
                                oldest.value <= attempts[i].at)
  {
    if attempts != [] {
      var n := |attempts| - 1;
      var earlier := OldestSince(attempts[..n], ip, from);
      OldestIs(attempts[..n], ip, from);
      forall i | 0 <= i < n && FailedSince(attempts[i], ip, from)
        ensures earlier.Some? && earlier.value <= attempts[i].at
      {
        assert attempts[..n][i] == attempts[i];
      }
      if earlier.Some? {
        var i :| 0 <= i < n && FailedSince(attempts[..n][i], ip, from) && attempts[..n][i].at == earlier.value;
        assert FailedSince(attempts[i], ip, from) && attempts[i].at == earlier.value;
      }
      if FailedSince(attempts[n], ip, from) { assert attempts[n].at == attempts[n].at; }
    }
  }

  predicate IsRateLimited(attempts: Attempts, ip: string, now: int) {
    CountSince(attempts, ip, now - WINDOW) >= MAX_FAILED
  }

  /** Whole seconds until the oldest counted attempt leaves the window, never negative. */
  function RetryAfter(oldest: Option<int>, now: int): int {
    match oldest
    case None => WINDOW_SECONDS
    case Some(at) => if at + WINDOW < now then 0 else (at + WINDOW - now) / SECOND
  }

  /** The three clock readings of the limit check. */
  datatype Clock = Clock(counting: int, selecting: int, answering: int)

  function CheckRateLimit(attempts: Attempts, ip: string, clock: Clock): Option<int> {
    if IsRateLimited(attempts, ip, clock.counting) then
      Some(RetryAfter(OldestSince(attempts, ip, clock.selecting - WINDOW), clock.answering))
    else
      None
  }

  datatype Response = TooManyRequests(retryAfter: int) | Unauthorized | Token

  datatype Login = Login(ip: string, clock: Clock, recordedAt: int, credentialsValid: bool)

  function Respond(attempts: Attempts, login: Login): (r: (Attempts, Response)) {
    match CheckRateLimit(attempts, login.ip, login.clock)
    case Some(retryAfter) => (attempts, TooManyRequests(retryAfter))
    case None =>
      (attempts + [Attempt(login.ip, login.recordedAt, login.credentialsValid)],
       if login.credentialsValid then Token else Unauthorized)
  }

  // ---------------------------------------------------------------- the window

  /** Failed attempts of `ip` in the closed interval `from..to`. */
  function CountWithin(attempts: Attempts, ip: string, from: int, to: int): nat {
    if attempts == [] then 0
    else CountWithin(attempts[..|attempts| - 1], ip, from, to)
         + if FailedSince(attempts[|attempts| - 1], ip, from) && attempts[|attempts| - 1].at <= to then 1 else 0
  }

  /** Every interval of fifteen minutes holds at most five recorded failures of every address. */
  ghost predicate Limited(attempts: Attempts) {
    forall ip, from :: InWindow(attempts, ip, from) <= MAX_FAILED
  }

  function InWindow(attempts: Attempts, ip: string, from: int): nat {
    CountWithin(attempts, ip, from, from + WINDOW)
  }

  lemma {:induction false} CountMonotone(attempts: Attempts, ip: string, earlier: int, later: int)
    requires earlier <= later
    ensures CountSince(attempts, ip, later) <= CountSince(attempts, ip, earlier)
  {
    if attempts != [] { CountMonotone(attempts[..|attempts| - 1], ip, earlier, later); }
  }

  lemma {:induction false} WithinIsSince(attempts: Attempts, ip: string, from: int, to: int)
    ensures CountWithin(attempts, ip, from, to) <= CountSince(attempts, ip, from)
    ensures (forall i :: 0 <= i < |attempts| ==> attempts[i].at <= to)
              ==> CountWithin(attempts, ip, from, to) == CountSince(attempts, ip, from)
  {
    if attempts != [] { WithinIsSince(attempts[..|attempts| - 1], ip, from, to); }
  }

  lemma LimitedStep(attempts: Attempts, login: Login)
    requires Limited(attempts) && login.clock.counting <= login.recordedAt
    ensures Limited(Respond(attempts, login).0)
  {
    var after := Respond(attempts, login).0;
    if after != attempts {
      forall ip, from ensures InWindow(after, ip, from) <= MAX_FAILED {
        LimitedAppend(attempts, after[|attempts|], ip, from, login.clock.counting);
      }
    }
  }

  lemma LimitedAppend(attempts: Attempts, added: Attempt, ip: string, from: int, counting: int)
    requires Limited(attempts) && counting <= added.at && !IsRateLimited(attempts, added.ip, counting)
    ensures InWindow(attempts + [added], ip, from) <= MAX_FAILED
  {
    assert (attempts + [added])[..|attempts|] == attempts;
    assert InWindow(attempts, ip, from) <= MAX_FAILED;
    if FailedSince(added, ip, from) && added.at <= from + WINDOW {
      WithinIsSince(attempts, ip, from, from + WINDOW);
      CountMonotone(attempts, ip, counting - WINDOW, from);
    }
  }

  function Run(attempts: Attempts, logins: seq<Login>): Attempts
    decreases |logins|
  {
    if logins == [] then attempts else Run(Respond(attempts, logins[0]).0, logins[1..])
  }

  /** The sliding window holds over every run: whatever is tried, from any number of addresses, no
      fifteen minutes see more than five failures of one address get past the limiter. */
  lemma {:induction false} WindowHolds(attempts: Attempts, logins: seq<Login>)
    requires Limited(attempts)
    requires forall i :: 0 <= i < |logins| ==> logins[i].clock.counting <= logins[i].recordedAt
    ensures Limited(Run(attempts, logins))
    decreases |logins|
  {
    if logins != [] {
      LimitedStep(attempts, logins[0]);
      WindowHolds(Respond(attempts, logins[0]).0, logins[1..]);
    }
  }

  // ---------------------------------------------------------------- the retry hint

  /** Clock readings of one check, in order, none before a stored attempt. */
  ghost predicate InOrder(attempts: Attempts, clock: Clock) {
    && clock.counting <= clock.selecting <= clock.answering
    && forall i :: 0 <= i < |attempts| ==> attempts[i].at <= clock.counting
  }

  lemma RetryBounded(attempts: Attempts, ip: string, clock: Clock)
    requires InOrder(attempts, clock)
    ensures var retry := CheckRateLimit(attempts, ip, clock); retry.Some? ==> 0 <= retry.value <= WINDOW_SECONDS
  {
    var oldest := OldestSince(attempts, ip, clock.selecting - WINDOW);
    OldestIs(attempts, ip, clock.selecting - WINDOW);
    if oldest.Some? {
      assert oldest.value + WINDOW - clock.answering <= WINDOW_SECONDS * SECOND;
    }
  }

  /** Dropping the oldest counted attempt lowers the count. */
  lemma {:induction false} CountDrops(attempts: Attempts, ip: string, from: int, later: int, i: nat)
    requires from <= later && i < |attempts|
    requires FailedSince(attempts[i], ip, from) && attempts[i].at < later
    ensures CountSince(attempts, ip, later) < CountSince(attempts, ip, from)
  {
    var n := |attempts| - 1;
    CountMonotone(attempts[..n], ip, from, later);
    if i < n {
      assert attempts[..n][i] == attempts[i];
      CountDrops(attempts[..n], ip, from, later, i);
    }
  }

  lemma {:induction false} SameCount(attempts: Attempts, ip: string, from: int, later: int)
    requires from <= later
    requires forall i :: 0 <= i < |attempts| && FailedSince(attempts[i], ip, from) ==> later <= attempts[i].at
    ensures CountSince(attempts, ip, later) == CountSince(attempts, ip, from)
  {
    if attempts != [] {
      var n := |attempts| - 1;
      assert forall i :: 0 <= i < n ==> attempts[..n][i] == attempts[i];
      SameCount(attempts[..n], ip, from, later);
    }
  }

  lemma FiveCounted(attempts: Attempts, ip: string, now: int)
    requires Limited(attempts) && forall i :: 0 <= i < |attempts| ==> attempts[i].at <= now
    ensures CountSince(attempts, ip, now - WINDOW) <= MAX_FAILED
  {
    WithinIsSince(attempts, ip, now - WINDOW, now);
    assert InWindow(attempts, ip, now - WINDOW) <= MAX_FAILED;
  }

  /** The retry hint is tight: an address refused now, and still blocked when the answer is computed,
      stays blocked through the hinted number of seconds and is admitted one second later. */
  lemma RetryIsTight(attempts: Attempts, ip: string, clock: Clock)
    requires Limited(attempts) && InOrder(attempts, clock)
    requires IsRateLimited(attempts, ip, clock.answering)
    ensures CheckRateLimit(attempts, ip, clock).Some?
    ensures var retry := CheckRateLimit(attempts, ip, clock).value;
            && 0 <= retry <= WINDOW_SECONDS
            && (forall t :: clock.answering <= t <= clock.answering + retry * SECOND ==> IsRateLimited(attempts, ip, t))
            && !IsRateLimited(attempts, ip, clock.answering + (retry + 1) * SECOND)
  {
    var now := clock.answering;
    var from, selected := now - WINDOW, clock.selecting - WINDOW;
    CountMonotone(attempts, ip, clock.counting - WINDOW, from);
    CountMonotone(attempts, ip, selected, from);
    FiveCounted(attempts, ip, clock.selecting);
    FiveCounted(attempts, ip, now);
    RetryBounded(attempts, ip, clock);
    OldestIs(attempts, ip, selected);
    var oldest := OldestSince(attempts, ip, selected).value;
    var i :| 0 <= i < |attempts| && FailedSince(attempts[i], ip, selected) && attempts[i].at == oldest;
    if oldest < from { CountDrops(attempts, ip, selected, from, i); }
    assert oldest >= from;
    var retry := CheckRateLimit(attempts, ip, clock).value;
    assert retry == (oldest + WINDOW - now) / SECOND;
    assert retry * SECOND <= oldest + WINDOW - now < (retry + 1) * SECOND;
    SameCount(attempts, ip, selected, oldest);
    forall t | now <= t <= now + retry * SECOND ensures IsRateLimited(attempts, ip, t) {
      CountMonotone(attempts, ip, t - WINDOW, oldest);
    }
    CountDrops(attempts, ip, selected, now + (retry + 1) * SECOND - WINDOW, i);
  }

  /** A refusal changes nothing: attempts made while blocked never prolong the block. */
  lemma RefusalRecordsNothing(attempts: Attempts, login: Login)
    ensures Respond(attempts, login).1.TooManyRequests? <==> IsRateLimited(attempts, login.ip, login.clock.counting)
    ensures Respond(attempts, login).1.TooManyRequests? <==> Respond(attempts, login).0 == attempts
  {
    if !IsRateLimited(attempts, login.ip, login.clock.counting) {
      assert |Respond(attempts, login).0| == |attempts| + 1;
    }
  }

  // ---------------------------------------------------------------- what a login is answered

  lemma {:induction false} RunSnoc(attempts: Attempts, logins: seq<Login>, last: Login)
    ensures Run(attempts, logins + [last]) == Respond(Run(attempts, logins), last).0
    decreases |logins|
  {
    hide Respond;
    if logins == [] {
      assert logins + [last] == [last] && [last][1..] == [];
    } else {
      assert (logins + [last])[1..] == logins[1..] + [last];
      RunSnoc(Respond(attempts, logins[0]).0, logins[1..], last);
    }
  }

  /** What the `i`-th login of a run on a fresh table is answered. */
  function Answer(logins: seq<Login>, i: nat): Response
    requires i < |logins|
  {
    Respond(Run([], logins[..i]), logins[i]).1
  }

  /** The `j`-th login failed: it got past the limiter with invalid credentials. */
  predicate Fails(logins: seq<Login>, j: nat, ip: string, from: int) {
    && j < |logins| && logins[j].ip == ip && !logins[j].credentialsValid
    && !Answer(logins, j).TooManyRequests?
    && logins[j].recordedAt >= from
  }

  /** The first `i` logins that failed, from the address and recorded at or after `from`. */
  function Failures(logins: seq<Login>, i: nat, ip: string, from: int): (r: set<nat>)
    ensures forall j: nat :: j in r <==> j < i && Fails(logins, j, ip, from)
  {
    set j: nat | j < i && Fails(logins, j, ip, from)
  }

  /** What a login adds to the table. */
  lemma OneMore(attempts: Attempts, login: Login, ip: string, from: int)
    ensures var fails := login.ip == ip && !login.credentialsValid
                         && !Respond(attempts, login).1.TooManyRequests? && login.recordedAt >= from;
            CountSince(Respond(attempts, login).0, ip, from) == CountSince(attempts, ip, from) + if fails then 1 else 0
  {
    hide CountSince, CheckRateLimit;
    CountAppend(attempts, Attempt(login.ip, login.recordedAt, login.credentialsValid), ip, from);
  }

  lemma CountAppend(attempts: Attempts, added: Attempt, ip: string, from: int)
    ensures CountSince(attempts + [added], ip, from)
              == CountSince(attempts, ip, from) + if FailedSince(added, ip, from) then 1 else 0
  {
    assert (attempts + [added])[..|attempts|] == attempts;
  }

  lemma {:induction false} FailuresCounted(logins: seq<Login>, i: nat, ip: string, from: int)
    requires i <= |logins|
    ensures CountSince(Run([], logins[..i]), ip, from) == |Failures(logins, i, ip, from)|
    decreases i
  {
    if i == 0 {
      assert Failures(logins, 0, ip, from) == {};
    } else {
      var n: nat := i - 1;
      hide CountSince, Respond, Run;
      FailuresCounted(logins, n, ip, from);
      assert logins[..i] == logins[..n] + [logins[n]];
      RunSnoc([], logins[..n], logins[n]);
      OneMore(Run([], logins[..n]), logins[n], ip, from);
      OneMoreFailure(logins, n, ip, from);
    }
  }

  lemma OneMoreFailure(logins: seq<Login>, n: nat, ip: string, from: int)
    requires n < |logins|
    ensures |Failures(logins, n + 1, ip, from)|
              == |Failures(logins, n, ip, from)| + if Fails(logins, n, ip, from) then 1 else 0
  {
    hide Fails;
    var before, after := Failures(logins, n, ip, from), Failures(logins, n + 1, ip, from);
    assert n !in before;
    assert after == if Fails(logins, n, ip, from) then before + {n} else before;
  }

  /** The limiter, exactly, over every run on a fresh table and whatever the clocks read: a login is refused if
      and only if five earlier logins of its address got past the limiter with invalid credentials and were
      recorded no more than 900 seconds before the check; any other is answered by its credentials. */
  lemma AnswersExactly(logins: seq<Login>, i: nat)
    requires i < |logins|
    ensures var login := logins[i];
            var refused := |Failures(logins, i, login.ip, login.clock.counting - 900_000_000)| >= 5;
            && (Answer(logins, i).TooManyRequests? <==> refused)
            && (Answer(logins, i) == Token <==> !refused && login.credentialsValid)
            && (Answer(logins, i) == Unauthorized <==> !refused && !login.credentialsValid)
  {
    var login := logins[i];
    FailuresCounted(logins, i, login.ip, login.clock.counting - 900_000_000);
  }

  ghost predicate Holds(attempts: Attempts, ip: string, from: int, at: int) {
    exists k :: 0 <= k < |attempts| && FailedSince(attempts[k], ip, from) && attempts[k].at == at
  }

  ghost predicate FailedAt(logins: seq<Login>, i: nat, ip: string, from: int, at: int) {
    exists j :: j in Failures(logins, i, ip, from) && j < |logins| && logins[j].recordedAt == at
  }

  lemma HoldsAppend(attempts: Attempts, added: Attempt, ip: string, from: int, at: int)
    ensures Holds(attempts + [added], ip, from, at) <==>
              Holds(attempts, ip, from, at) || (FailedSince(added, ip, from) && added.at == at)
  {
    var after := attempts + [added];
    assert after[|attempts|] == added;
    if k :| 0 <= k < |attempts| && FailedSince(attempts[k], ip, from) && attempts[k].at == at {
      assert after[k] == attempts[k];
    }
  }

  lemma FailedNext(logins: seq<Login>, n: nat, ip: string, from: int, at: int)
    requires n < |logins|
    ensures FailedAt(logins, n + 1, ip, from, at) <==>
              FailedAt(logins, n, ip, from, at) || (Fails(logins, n, ip, from) && logins[n].recordedAt == at)
  {
    hide Fails;
    if j :| j in Failures(logins, n, ip, from) && logins[j].recordedAt == at {
      assert j in Failures(logins, n + 1, ip, from);
    }
    if Fails(logins, n, ip, from) { assert n in Failures(logins, n + 1, ip, from); }
  }

  lemma {:induction false} FailureRecorded(logins: seq<Login>, i: nat, ip: string, from: int, at: int)
    requires i <= |logins|
    ensures Holds(Run([], logins[..i]), ip, from, at) <==> FailedAt(logins, i, ip, from, at)
    decreases i
  {
    if i > 0 {
      var n: nat := i - 1;
      hide Run, Holds, FailedAt, CheckRateLimit;
      FailureRecorded(logins, n, ip, from, at);
      assert logins[..i] == logins[..n] + [logins[n]];
      RunSnoc([], logins[..n], logins[n]);
      var before, login := Run([], logins[..n]), logins[n];
      HoldsAppend(before, Attempt(login.ip, login.recordedAt, login.credentialsValid), ip, from, at);
      FailedNext(logins, n, ip, from, at);
    }
  }

  lemma EarliestIs(logins: seq<Login>, i: nat, ip: string, from: int, j: nat)
    requires i <= |logins| && j in Failures(logins, i, ip, from) && j < |logins|
    requires forall k :: k in Failures(logins, i, ip, from) && k < |logins| ==>
               logins[j].recordedAt <= logins[k].recordedAt
    ensures OldestSince(Run([], logins[..i]), ip, from) == Some(logins[j].recordedAt)
  {
    hide Run, Failures, OldestSince, CountSince;
    var attempts := Run([], logins[..i]);
    OldestIs(attempts, ip, from);
    FailureRecorded(logins, i, ip, from, logins[j].recordedAt);
    var oldest := OldestSince(attempts, ip, from);
    assert oldest.Some?;
    assert Holds(attempts, ip, from, oldest.value);
    FailureRecorded(logins, i, ip, from, oldest.value);
  }

  /** The retry hint in terms of the logins: whole seconds until the earliest failure that still counts is 900
      seconds old, at least zero, and 900 when none counts any more. */
  lemma HintExactly(logins: seq<Login>, i: nat, hint: int)
    requires i < |logins| && Answer(logins, i) == TooManyRequests(hint)
    ensures var login := logins[i];
            var counted := Failures(logins, i, login.ip, login.clock.selecting - 900_000_000);
            && (counted == {} ==> hint == 900)
            && forall j :: j in counted && (forall k :: k in counted ==> logins[j].recordedAt <= logins[k].recordedAt)
                 ==> var left := logins[j].recordedAt + 900_000_000 - login.clock.answering;
                     hint == if left < 0 then 0 else left / 1_000_000
  {
    var login := logins[i];
    var attempts, from := Run([], logins[..i]), login.clock.selecting - 900_000_000;
    var counted := Failures(logins, i, login.ip, from);
    OldestIs(attempts, login.ip, from);
    FailuresCounted(logins, i, login.ip, from);
    var oldest := OldestSince(attempts, login.ip, from);
    assert hint == RetryAfter(oldest, login.clock.answering);
    hide Run, CheckRateLimit, OldestSince, CountSince;
    forall j | j in counted && forall k :: k in counted ==> logins[j].recordedAt <= logins[k].recordedAt
      ensures oldest == Some(logins[j].recordedAt)
    {
      EarliestIs(logins, i, login.ip, from, j);
    }
  }

  // ---------------------------------------------------------------- the table

  class AuthTable {
    var attempts: Attempts
    /** Every login handled so far. */
    ghost var handled: seq<Login>

    ghost predicate Valid()
      reads this
    {
      attempts == Run([], handled)
    }

    constructor ()
      ensures Valid() && handled == [] && attempts == []
    {
      attempts, handled := [], [];
    }

    method RecordAuthAttempt(ip: string, success: bool, now: int)
      modifies this`attempts
      ensures attempts == old(attempts) + [Attempt(ip, now, success)]
    {
      attempts := attempts + [Attempt(ip, now, success)];
    }

    method HandleLogin(login: Login) returns (response: Response)
      requires Valid()
      modifies this
      ensures Valid() && handled == old(handled) + [login]
      ensures (attempts, response) == Respond(old(attempts), login)
      ensures var failures := Failures(handled, |old(handled)|, login.ip, login.clock.counting - 900_000_000);
              && (response.TooManyRequests? <==> |failures| >= 5)
              && (response == Token <==> |failures| < 5 && login.credentialsValid)
              && (response == Unauthorized <==> |failures| < 5 && !login.credentialsValid)
      ensures Limited(old(attempts)) && login.clock.counting <= login.recordedAt ==> Limited(attempts)
    {
      hide Limited, Run, CheckRateLimit, Failures;
      if Limited(attempts) && login.clock.counting <= login.recordedAt { LimitedStep(attempts, login); }
      RunSnoc([], handled, login);
      handled := handled + [login];
      assert handled[..|handled| - 1] == old(handled);
      AnswersExactly(handled, |handled| - 1);
      var limit := CheckRateLimit(attempts, login.ip, login.clock);
      if limit.Some? { return TooManyRequests(limit.value); }
      if !login.credentialsValid {
        RecordAuthAttempt(login.ip, false, login.recordedAt);
        return Unauthorized;
      }
      RecordAuthAttempt(login.ip, true, login.recordedAt);
      return Token;
    }
  }
}
