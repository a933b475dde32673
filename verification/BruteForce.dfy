/** The username part of the brute-force tracker: failed logins in a window lead to a timed ban.
    Times are nanoseconds. */
module BruteForce {
  import opened Times

  datatype Attempts = Attempts(count: int, firstFailed: int, lastFailed: int, bannedUntil: int)

  datatype Limits = Limits(maxAttempts: int, window: int, ban: int)

  /** Thresholds are positive: the defaults are, and others are not accepted. */
  predicate ValidLimits(l: Limits) {
    l.maxAttempts > 0 && l.window > 0 && l.ban > 0
  }

  const DEFAULT_LIMITS := Limits(5, 10 * MINUTE, 30 * MINUTE)

  type Table = map<string, Attempts>

  /** The record a failure counts on: a new one when there is none or its window has lapsed. */
  function Current(t: Table, l: Limits, username: string, now: int): Attempts {
    if username in t && now - t[username].firstFailed <= l.window then t[username]
    else Attempts(0, now, ZERO_TIME, ZERO_TIME)
  }

  function Failure(t: Table, l: Limits, username: string, now: int): Table {
    if username == "" then t
    else
      var a := Current(t, l, username, now);
      var until := if a.count + 1 >= l.maxAttempts then now + l.ban else a.bannedUntil;
      t[username := Attempts(a.count + 1, a.firstFailed, now, until)]
  }

  predicate Banned(t: Table, username: string, now: int) {
    username != "" && username in t && now < t[username].bannedUntil
  }

  function Success(t: Table, username: string): Table {
    if username == "" then t else t - {username}
  }

  class BruteForceTracker {
    var usernameAttempts: Table
    var limits: Limits

    constructor ()
      ensures usernameAttempts == map[]
      ensures limits == DEFAULT_LIMITS == Limits(5, 600_000_000_000, 1_800_000_000_000) && ValidLimits(limits)
    {
      usernameAttempts, limits := map[], DEFAULT_LIMITS;
    }

    method RecordUsernameFailure(username: string, now: int) returns (banned: bool)
      modifies this`usernameAttempts
      ensures usernameAttempts == Failure(old(usernameAttempts), limits, username, now)
      ensures ValidLimits(limits) && banned ==> Banned(usernameAttempts, username, now)
    {
      if username == "" {
        return false;
      }
      var a := if username in usernameAttempts then usernameAttempts[username] else Attempts(0, now, ZERO_TIME, ZERO_TIME);
      if username !in usernameAttempts || now - a.firstFailed > limits.window {
        a := Attempts(0, now, ZERO_TIME, ZERO_TIME);
      }
      a := a.(count := a.count + 1, lastFailed := now);
      banned := a.count >= limits.maxAttempts;
      if banned {
        a := a.(bannedUntil := now + limits.ban);
      }
      usernameAttempts := usernameAttempts[username := a];
    }

    method IsUsernameBanned(username: string, now: int) returns (banned: bool)
      ensures banned == Banned(usernameAttempts, username, now)
      ensures banned <==> username != "" && username in usernameAttempts && now < usernameAttempts[username].bannedUntil
    {
      if username == "" || username !in usernameAttempts {
        return false;
      }
      return now < usernameAttempts[username].bannedUntil;
    }

    method RecordUsernameSuccess(username: string)
      modifies this`usernameAttempts
      ensures usernameAttempts == Success(old(usernameAttempts), username)
      ensures username != "" ==> usernameAttempts.Keys == old(usernameAttempts).Keys - {username}
      ensures forall k | k in usernameAttempts :: k in old(usernameAttempts) && usernameAttempts[k] == old(usernameAttempts)[k]
    {
      if username != "" {
        usernameAttempts := usernameAttempts - {username};
      }
    }

    method SetThresholds(maxAttempts: int, windowMinutes: int, banMinutes: int)
      requires ValidLimits(limits)
      modifies this`limits
      ensures ValidLimits(limits)
      ensures limits == Limits(if maxAttempts > 0 then maxAttempts else old(limits).maxAttempts,
                               if windowMinutes > 0 then windowMinutes * 60_000_000_000 else old(limits).window,
                               if banMinutes > 0 then banMinutes * 60_000_000_000 else old(limits).ban)
    {
      if maxAttempts > 0 {
        limits := limits.(maxAttempts := maxAttempts);
      }
      if windowMinutes > 0 {
        limits := limits.(window := windowMinutes * MINUTE);
      }
      if banMinutes > 0 {
        limits := limits.(ban := banMinutes * MINUTE);
      }
    }
  }

  // ------------------------------------------------------- what failures lead to

  function Failures(t: Table, l: Limits, username: string, times: seq<int>): Table {
    if times == [] then t
    else Failure(Failures(t, l, username, times[..|times| - 1]), l, username, times[|times| - 1])
  }

  lemma {:induction false} FailuresCount(t: Table, l: Limits, username: string, times: seq<int>)
    requires username != "" && username !in t && times != []
    requires forall i, j | 0 <= i < j < |times| :: times[i] <= times[j]
    requires times[|times| - 1] - times[0] <= l.window && l.window > 0
    ensures var a := Failures(t, l, username, times);
            username in a && a[username].count == |times| && a[username].firstFailed == times[0]
  {
    var init := times[..|times| - 1];
    if init != [] {
      assert init[0] == times[0] && init[|init| - 1] <= times[|times| - 1];
      FailuresCount(t, l, username, init);
    } else {
      assert Failures(t, l, username, init) == t;
    }
  }

  /** Fewer failures than the threshold, within one window, ban nobody. */
  lemma {:induction false} FailuresNoBan(t: Table, l: Limits, username: string, times: seq<int>, now: int)
    requires ValidLimits(l) && username != "" && username !in t && |times| < l.maxAttempts
    requires forall i, j | 0 <= i < j < |times| :: times[i] <= times[j]
    requires times != [] ==> times[|times| - 1] - times[0] <= l.window
    requires now >= ZERO_TIME
    ensures !Banned(Failures(t, l, username, times), username, now)
    ensures times != [] ==> Failures(t, l, username, times)[username].bannedUntil == ZERO_TIME
  {
    if times != [] {
      var init, last := times[..|times| - 1], times[|times| - 1];
      if init != [] {
        assert init[0] == times[0] && init[|init| - 1] <= last;
        FailuresCount(t, l, username, init);
      }
      FailuresCount(t, l, username, times);
      FailuresNoBan(t, l, username, init, now);
    }
  }

  /** Enough failures within one window ban the username. */
  lemma {:induction false} FailuresBan(t: Table, l: Limits, username: string, times: seq<int>)
    requires ValidLimits(l) && username != "" && username !in t && |times| >= l.maxAttempts
    requires forall i, j | 0 <= i < j < |times| :: times[i] <= times[j]
    requires times[|times| - 1] - times[0] <= l.window
    ensures var a := Failures(t, l, username, times);
            username in a && a[username].bannedUntil == times[|times| - 1] + l.ban
    ensures forall now | now < times[|times| - 1] + l.ban :: Banned(Failures(t, l, username, times), username, now)
  {
    var init, last := times[..|times| - 1], times[|times| - 1];
    FailuresCount(t, l, username, times);
    var before := Failures(t, l, username, init);
    if init != [] {
      assert init[0] == times[0] && init[|init| - 1] <= last;
      FailuresCount(t, l, username, init);
    } else {
      assert before == t;
    }
  }

  /** A further failure keeps a ban exactly when its window has not lapsed, or one failure is enough:
      a lapsed window starts a new record without the ban. */
  lemma {:induction false} FailureKeepsBan(t: Table, l: Limits, username: string, now: int)
    requires ValidLimits(l) && Banned(t, username, now) && now >= ZERO_TIME
    ensures Banned(Failure(t, l, username, now), username, now) <==>
              now - t[username].firstFailed <= l.window || l.maxAttempts == 1
  {
  }

  /** A ban can be forgotten: five failures ban for half an hour, and one more a little over ten minutes
      after the first starts a record without the ban. */
  lemma {:induction false} BanForgotten(username: string, now: int)
    requires username != "" && now >= ZERO_TIME
    ensures var t, later := Failures(map[], DEFAULT_LIMITS, username, [now, now, now, now, now]), now + 10 * MINUTE + 1;
            && Banned(t, username, later)
            && !Banned(Failure(t, DEFAULT_LIMITS, username, later), username, later)
  {
    var times := [now, now, now, now, now];
    FailuresBan(map[], DEFAULT_LIMITS, username, times);
    FailuresCount(map[], DEFAULT_LIMITS, username, times);
    FailureKeepsBan(Failures(map[], DEFAULT_LIMITS, username, times), DEFAULT_LIMITS, username, now + 10 * MINUTE + 1);
  }

  /** The record a failure leaves: within the window it counts one more and keeps the first time and the
      ban, otherwise it starts anew without a ban; at the threshold it bans from now. Other usernames,
      and the empty one, are not touched. */
  lemma {:induction false} FailureRecord(t: Table, l: Limits, username: string, now: int)
    ensures var after := Failure(t, l, username, now);
            && (username == "" ==> after == t)
            && (username != "" ==>
                  && username in after
                  && var a, going := after[username], username in t && now - t[username].firstFailed <= l.window;
                  && a.count == (if going then t[username].count + 1 else 1)
                  && a.firstFailed == (if going then t[username].firstFailed else now)
                  && a.lastFailed == now
                  && (a.count >= l.maxAttempts ==> a.bannedUntil == now + l.ban)
                  && (a.count < l.maxAttempts ==>
                        a.bannedUntil == if going then t[username].bannedUntil else ZERO_TIME))
            && forall k | k != username :: (k in after <==> k in t) && (k in t ==> after[k] == t[k])
  {
  }
}
