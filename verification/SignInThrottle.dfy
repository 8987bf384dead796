/** What the per-address throttle achieves: when a failed sign-in locks, and how many failures escape a lock. */
module SignInThrottle {
  import opened Basics
  import opened Sessions

  /** The throttle row after one recorded failure after another. */
  function AfterFailures(t: Option<Throttle>, times: seq<int>): Option<Throttle>
    decreases |times|
  {
    if times == [] then t else AfterFailures(Some(Failed(t, times[0])), times[1..])
  }

  predicate Locks(t: Option<Throttle>, now: int) { Failed(t, now).lockedUntil == now + LOCK_FOR_MS && Failed(t, now).fails == 0 }

  /** None of these failures locks the address. */
  predicate NoneLocks(t: Option<Throttle>, times: seq<int>)
    decreases |times|
  {
    times != [] ==> !Locks(t, times[0]) && NoneLocks(Some(Failed(t, times[0])), times[1..])
  }

  predicate Counting(t: Option<Throttle>) { t.Some? ==> 0 <= t.value.fails < LOCK_AFTER }

  predicate Rising(times: seq<int>) { forall i, j | 0 <= i < j < |times| :: times[i] <= times[j] }

  predicate Within(times: seq<int>, from: int, to: int) { forall i | 0 <= i < |times| :: from <= times[i] <= to }

  /** The failures counted so far that are still in the current window. */
  function InWindow(t: Option<Throttle>, now: int): nat
    requires Counting(t)
  {
    if t.Some? && now - t.value.windowStart <= LOCK_WINDOW_MS then t.value.fails else 0
  }

  /** A failure locks the address exactly when nine are already counted in a window that is not over. */
  lemma LocksExactlyWhen(t: Option<Throttle>, now: int)
    requires Counting(t)
    ensures Counting(Some(Failed(t, now)))
    ensures Locks(t, now) <==> InWindow(t, now) == LOCK_AFTER - 1
    ensures !Locks(t, now) ==>
      && Failed(t, now).fails == InWindow(t, now) + 1
      && now - Failed(t, now).windowStart <= LOCK_WINDOW_MS
  {
  }

  /** How many more failures fit into the window that is running, and into the one after it. */
  function Room(t: Option<Throttle>): int {
    if t.None? then LOCK_AFTER - 1 else 2 * (LOCK_AFTER - 1) - t.value.fails
  }

  /** Within the window that is running, failures are counted one by one. */
  lemma {:induction false} SameWindow(t: Throttle, times: seq<int>)
    requires Counting(Some(t)) && NoneLocks(Some(t), times) && Within(times, t.windowStart, t.windowStart + LOCK_WINDOW_MS)
    ensures t.fails + |times| < LOCK_AFTER
    decreases |times|
  {
    if times != [] {
      LocksExactlyWhen(Some(t), times[0]);
      SameWindow(Failed(Some(t), times[0]), times[1..]);
    }
  }

  /**
   * In any stretch as long as the window, whatever came before, no more than
   * eighteen failures less those already counted can go by without a lock, and
   * no more than nine from a clean record.
   */
  lemma {:induction false} FailuresWithoutLock(t: Option<Throttle>, times: seq<int>, from: int)
    requires Counting(t) && Rising(times) && Within(times, from, from + LOCK_WINDOW_MS) && NoneLocks(t, times)
    ensures |times| <= Room(t)
    decreases |times|
  {
    if times != [] {
      var now := times[0];
      var next := Failed(t, now);
      LocksExactlyWhen(t, now);
      assert Within(times[1..], now, from + LOCK_WINDOW_MS) && Rising(times[1..]);
      if t.Some? && now - t.value.windowStart <= LOCK_WINDOW_MS {
        FailuresWithoutLock(Some(next), times[1..], from);
      } else {
        SameWindow(next, times[1..]);
      }
    }
  }

  /** In any stretch as long as the window of a run that began with a clean record and never locked, at most seventeen. */
  lemma {:induction false} SeventeenAtMost(before: seq<int>, times: seq<int>, from: int)
    requires Rising(before + times) && NoneLocks(None, before + times) && Within(times, from, from + LOCK_WINDOW_MS)
    ensures |times| <= 17
  {
    SplitRun(None, before, times);
    assert Rising(times) by { assert forall i | 0 <= i < |times| :: times[i] == (before + times)[|before| + i]; }
    var t := AfterFailures(None, before);
    FailuresWithoutLock(t, times, from);
    if before != [] { CountedOnce(None, before); }
  }

  lemma {:induction false} SplitRun(t: Option<Throttle>, a: seq<int>, b: seq<int>)
    requires Counting(t) && NoneLocks(t, a + b)
    ensures NoneLocks(t, a) && Counting(AfterFailures(t, a)) && NoneLocks(AfterFailures(t, a), b)
    decreases |a|
  {
    if a == [] {
      assert a + b == b;
    } else {
      LocksExactlyWhen(t, a[0]);
      assert (a + b)[1..] == a[1..] + b;
      SplitRun(Some(Failed(t, a[0])), a[1..], b);
    }
  }

  /** A failure that does not lock leaves at least itself counted. */
  lemma {:induction false} CountedOnce(t: Option<Throttle>, times: seq<int>)
    requires Counting(t) && NoneLocks(t, times) && times != []
    ensures AfterFailures(t, times).Some? && AfterFailures(t, times).value.fails >= 1
    decreases |times|
  {
    LocksExactlyWhen(t, times[0]);
    if |times| > 1 { CountedOnce(Some(Failed(t, times[0])), times[1..]); }
  }

  function Repeated(n: nat, now: int): seq<int> { seq(n, _ => now) }

  lemma {:induction false} RepeatedFailures(t: Throttle, n: nat, now: int)
    requires Counting(Some(t)) && t.windowStart <= now <= t.windowStart + LOCK_WINDOW_MS && t.fails + n < LOCK_AFTER
    ensures NoneLocks(Some(t), Repeated(n, now))
    ensures AfterFailures(Some(t), Repeated(n, now)) == Some(t.(fails := t.fails + n))
    decreases n
  {
    if n > 0 {
      LocksExactlyWhen(Some(t), now);
      assert Repeated(n, now)[1..] == Repeated(n - 1, now);
      RepeatedFailures(Failed(Some(t), now), n - 1, now);
    }
  }

  lemma {:induction false} JoinRuns(t: Option<Throttle>, a: seq<int>, b: seq<int>)
    requires NoneLocks(t, a) && NoneLocks(AfterFailures(t, a), b)
    ensures NoneLocks(t, a + b) && AfterFailures(t, a + b) == AfterFailures(AfterFailures(t, a), b)
    decreases |a|
  {
    if a == [] {
      assert a + b == b;
    } else {
      assert (a + b)[1..] == a[1..] + b;
      JoinRuns(Some(Failed(t, a[0])), a[1..], b);
    }
  }

  // One failure, eight just before its window ends, nine just after.
  const SLIPPING: seq<int> := [0] + Repeated(8, 840_000) + Repeated(9, 900_001)

  lemma NineInTime()
    ensures NoneLocks(None, [0] + Repeated(8, 840_000))
    ensures AfterFailures(None, [0] + Repeated(8, 840_000)) == Some(Throttle(9, 0, 0))
  {
    assert AfterFailures(None, [0]) == Some(Throttle(1, 0, 0)) && NoneLocks(None, [0]);
    RepeatedFailures(Throttle(1, 0, 0), 8, 840_000);
    JoinRuns(None, [0], Repeated(8, 840_000));
  }

  /** Once a window is over nine failures fit into the next. */
  lemma NineTooLate(t: Throttle, now: int)
    requires Counting(Some(t)) && now - t.windowStart > LOCK_WINDOW_MS
    ensures NoneLocks(Some(t), Repeated(9, now))
    ensures AfterFailures(Some(t), Repeated(9, now)) == Some(Throttle(9, now, t.lockedUntil))
  {
    var late := Repeated(9, now);
    LocksExactlyWhen(Some(t), now);
    RepeatedFailures(Throttle(1, now, t.lockedUntil), 8, now);
    assert late[0] == now && late[1..] == Repeated(8, now);
  }

  /** Seventeen is reached: seventeen failures within about a minute, and no lock. */
  lemma SeventeenSlipBy()
    ensures Rising(SLIPPING) && NoneLocks(None, SLIPPING) && |SLIPPING| == 18
    ensures Within(SLIPPING[1..], 840_000, 900_001)
    ensures AfterFailures(None, SLIPPING) == Some(Throttle(9, 900_001, 0))
  {
    NineInTime();
    NineTooLate(Throttle(9, 0, 0), 900_001);
    JoinRuns(None, [0] + Repeated(8, 840_000), Repeated(9, 900_001));
  }

  /** A row that just locked is no clean record: when that lock ends, eighteen failures fit into two milliseconds. */
  lemma EighteenAfterALock(at: int)
    ensures var t, end := Some(Throttle(0, at, at + LOCK_FOR_MS)), at + LOCK_FOR_MS;
            var times := Repeated(9, end) + Repeated(9, end + 1);
            Rising(times) && |times| == 18 && NoneLocks(t, times)
  {
    var t, end := Throttle(0, at, at + LOCK_FOR_MS), at + LOCK_FOR_MS;
    RepeatedFailures(t, 9, end);
    NineTooLate(t.(fails := 9), end + 1);
    JoinRuns(Some(t), Repeated(9, end), Repeated(9, end + 1));
  }

  /** Ten failures from a clean record lock if they fit into a window, and the lock comes with the tenth. */
  lemma TenLock(times: seq<int>)
    requires |times| == LOCK_AFTER && Within(times, times[0], times[0] + LOCK_WINDOW_MS)
    ensures NoneLocks(None, times[..9]) && Locks(AfterFailures(None, times[..9]), times[9])
  {
    FirstNine(times, 9);
    LocksExactlyWhen(AfterFailures(None, times[..9]), times[9]);
  }

  lemma {:induction false} FirstNine(times: seq<int>, n: nat)
    requires 1 <= n <= 9 && n <= |times| && Within(times, times[0], times[0] + LOCK_WINDOW_MS)
    ensures NoneLocks(None, times[..n]) && AfterFailures(None, times[..n]) == Some(Throttle(n, times[0], 0))
  {
    if n == 1 {
      assert times[..1] == [times[0]];
    } else {
      FirstNine(times, n - 1);
      var t := Some(Throttle(n - 1, times[0], 0));
      LocksExactlyWhen(t, times[n - 1]);
      assert NoneLocks(t, [times[n - 1]]);
      JoinRuns(None, times[..n - 1], [times[n - 1]]);
      assert times[..n] == times[..n - 1] + [times[n - 1]];
    }
  }

  /** Whether the address is locked at least until a time. */
  predicate LockedTill(st: State, email: Email, until: int) {
    email in st.throttles && st.throttles[email].lockedUntil >= until
  }

  lemma StepStaysLocked(st: State, r: Request, now: int, email: Email, at: int)
    requires LockedTill(st, email, at + LOCK_FOR_MS) && at <= now < at + LOCK_FOR_MS
    ensures LockedTill(Step(st, r, now), email, at + LOCK_FOR_MS)
  {
  }

  /** A lock holds for its whole time, whatever is requested meanwhile. */
  lemma {:induction false} StaysLocked(st: State, rs: Requests, email: Email, at: int)
    requires LockedTill(st, email, at + LOCK_FOR_MS)
    requires forall i | 0 <= i < |rs| :: at <= rs[i].1 < at + LOCK_FOR_MS
    ensures LockedTill(Run(st, rs), email, at + LOCK_FOR_MS)
    decreases |rs|
  {
    if rs != [] {
      StepStaysLocked(st, rs[0].0, rs[0].1, email, at);
      StaysLocked(Step(st, rs[0].0, rs[0].1), rs[1..], email, at);
    }
  }

  /**
   * After a failure that locks, and whatever else is requested, signing in with
   * the address changes nothing, whatever the password, until the lock is over:
   * it starts no session and counts no failure.
   */
  lemma LockRefusesSignIn(st: State, email: Email, at: int, rs: Requests, now: int, password: Password, sid: Sid)
    requires Counting(At(st.throttles, email)) && Locks(At(st.throttles, email), at)
    requires forall i | 0 <= i < |rs| :: at <= rs[i].1 < at + LOCK_FOR_MS
    requires at <= now < at + LOCK_FOR_MS
    ensures var locked := Run(FailedSignIn(st, email, at), rs);
            Step(locked, SignIn(email, password, sid), now) == locked
  {
    StaysLocked(FailedSignIn(st, email, at), rs, email, at);
  }

  /** The lock ends on time: with nothing in between, a sign-in counts again exactly from then on. */
  lemma LockEndsExactlyWhen(st: State, email: Email, at: int, now: int, password: Password, sid: Sid)
    requires email != "" && Counting(At(st.throttles, email)) && Locks(At(st.throttles, email), at)
    ensures var locked := FailedSignIn(st, email, at);
            Step(locked, SignIn(email, password, sid), now) == locked <==> now < at + LOCK_FOR_MS
  {
  }
}
