/** Whole serialised runs of the user store: tokens stay in step with users, revocation lasts, and a
    locked-out username stays locked out. */
module UserRuns {
  import opened Wrappers
  import opened Times
  import opened UserTable
  import BruteForce

  datatype Op =
    | Register(username: string, password: string, role: string, hash: Option<string>)
    | RegisterExternal(username: string, role: string, source: string)
    | Login(username: string, password: string, code: string, token: string, now: int)
    | IssueToken(username: string, source: string, token: string, now: int)
    | ValidateToken(token: string, now: int)
    | PruneExpired(now: int)
    | Logout(token: string)
    | DeleteUser(username: string)
    | SetRole(username: string, role: string)
    | SetDisabled(username: string, disabled: bool)
    | RevokeAll(username: string)
    | RevokeByPrefix(prefix: string, matched: string)
    | UpdateUser(user: User)

  function OrSame(s: Store, r: Result<Store, Error>): Store {
    if r.Ok? then r.value else s
  }

  function Step(s: Store, env: Env, op: Op): Store {
    match op
    case Register(username, password, role, hash) => OrSame(s, UserTable.Register(s, username, password, role, hash))
    case RegisterExternal(username, role, source) => OrSame(s, UserTable.RegisterExternal(s, username, role, source))
    case Login(username, password, code, token, now) => UserTable.Login(s, env, username, password, code, token, now).0
    case IssueToken(username, source, token, now) => OrSame(s, UserTable.IssueToken(s, env, username, source, token, now))
    case ValidateToken(token, now) => UserTable.ValidateToken(s, token, now).0
    case PruneExpired(now) => UserTable.PruneExpired(s, now)
    case Logout(token) => Without(s, token)
    case DeleteUser(username) => OrSame(s, UserTable.DeleteUser(s, username))
    case SetRole(username, role) => OrSame(s, UserTable.SetRole(s, username, role))
    case SetDisabled(username, disabled) => OrSame(s, UserTable.SetDisabled(s, username, disabled))
    case RevokeAll(username) => UserTable.RevokeAll(s, username)
    case RevokeByPrefix(prefix, matched) => if |prefix| >= 6 && Matches(s, prefix, matched) then Without(s, matched) else s
    case UpdateUser(u) => OrSame(s, UserTable.UpdateUser(s, u))
  }

  function Run(s: Store, env: Env, ops: seq<Op>): Store
    decreases |ops|
  {
    if ops == [] then s else Run(Step(s, env, ops[0]), env, ops[1..])
  }

  /** Record updates keep the role and whether the user is disabled. */
  predicate Keeps(s: Store, op: Op) {
    op.UpdateUser? && Exists(s, op.user.username) ==>
      var u := s.users[Find(s.users, op.user.username)];
      op.user.role == u.role && op.user.disabled == u.disabled
  }

  predicate AllKeep(s: Store, env: Env, ops: seq<Op>)
    decreases |ops|
  {
    ops == [] || (Keeps(s, ops[0]) && AllKeep(Step(s, env, ops[0]), env, ops[1..]))
  }

  lemma {:induction false} StepKeepsConsistent(s: Store, env: Env, op: Op)
    requires Consistent(s) && Keeps(s, op)
    ensures Consistent(Step(s, env, op))
  {
    match op
    case Register(username, password, role, hash) =>
      if UserTable.Register(s, username, password, role, hash).Ok? {
        AddKeepsConsistent(s, NewUser(username, hash.value, role, ""));
      }
    case RegisterExternal(username, role, source) =>
      if UserTable.RegisterExternal(s, username, role, source).Ok? {
        AddKeepsConsistent(s, NewUser(username, "", role, source));
      }
    case Login(username, password, code, token, now) =>
      LoginKeepsConsistent(s, env, username, password, code, token, now);
    case IssueToken(username, source, token, now) =>
      if UserTable.IssueToken(s, env, username, source, token, now).Ok? {
        OpenKeepsConsistent(s, env, Find(s.users, username), source, token, now);
      }
    case DeleteUser(username) =>
      if UserTable.DeleteUser(s, username).Ok? { DeleteKeepsConsistent(s, username); }
    case SetRole(username, role) =>
      if UserTable.SetRole(s, username, role).Ok? { SetRoleKeepsConsistent(s, username, role); }
    case SetDisabled(username, disabled) =>
      if UserTable.SetDisabled(s, username, disabled).Ok? { SetDisabledKeepsConsistent(s, username, disabled); }
    case UpdateUser(u) =>
      if UserTable.UpdateUser(s, u).Ok? { AmendKeepsConsistent(s, Find(s.users, u.username), u); }
    case _ =>
      FewerSessionsKeepConsistent(s, Step(s, env, op));
  }

  lemma {:induction false} RunKeepsConsistent(s: Store, env: Env, ops: seq<Op>)
    requires Consistent(s) && AllKeep(s, env, ops)
    ensures Consistent(Run(s, env, ops))
    decreases |ops|
  {
    if ops != [] {
      StepKeepsConsistent(s, env, ops[0]);
      RunKeepsConsistent(Step(s, env, ops[0]), env, ops[1..]);
    }
  }

  /** After any run from a consistent start usernames are unique, and a token is accepted only for a
      user who exists, is not disabled, and has the reported role. */
  lemma {:induction false} AcceptedTokensAreCurrent(s: Store, env: Env, ops: seq<Op>, token: string, now: int)
    requires Consistent(s) && AllKeep(s, env, ops)
    ensures var t := Run(s, env, ops);
            && UniqueNames(t.users)
            && match UserTable.ValidateToken(t, token, now).1
               case None => true
               case Some((username, role)) =>
                 var i := Find(t.users, username);
                 i < |t.users| && !t.users[i].disabled && t.users[i].role == role
  {
    var t := Run(s, env, ops);
    RunKeepsConsistent(s, env, ops);
    match UserTable.ValidateToken(t, token, now).1
    case None =>
    case Some((username, role)) => HoldsAt(t.users, username, role);
  }

  /** A record update that changes the role breaks this: the session keeps the role it was opened with. */
  lemma {:induction false} UpdateLeavesStaleRole(env: Env, username: string, token: string, now: int)
    requires username != "" && env.sessionDuration >= 0
    ensures var ops := [RegisterExternal(username, "admin", "oidc"), IssueToken(username, "oidc", token, now),
                        UpdateUser(NewUser(username, "", "readonly", "oidc"))];
            var s := Run(Store([], map[], None), env, ops);
            && Exists(s, username) && s.users[Find(s.users, username)].role == "readonly"
            && UserTable.ValidateToken(s, token, now).1 == Some((username, "admin"))
  {
    var a := RegisterExternal(username, "admin", "oidc");
    var b := IssueToken(username, "oidc", token, now);
    var c := UpdateUser(NewUser(username, "", "readonly", "oidc"));
    RunThree(Store([], map[], None), env, a, b, c);
  }

  lemma {:induction false} RunThree(s: Store, env: Env, a: Op, b: Op, c: Op)
    ensures Run(s, env, [a, b, c]) == Step(Step(Step(s, env, a), env, b), env, c)
  {
    assert [a, b, c][1..] == [b, c] && [b, c][1..] == [c] && [c][1..] == [];
    var t := Step(s, env, a);
    assert Run(s, env, [a, b, c]) == Run(t, env, [b, c]);
    assert Run(t, env, [b, c]) == Run(Step(t, env, b), env, [c]);
    assert Run(Step(t, env, b), env, [c]) == Run(Step(Step(t, env, b), env, c), env, []);
  }

  // -------------------------------------------------------------- who gets in

  /** The second factor is off, or the code is the TOTP code, or it is an unused backup code. */
  predicate SecondFactor(u: User, env: Env, code: string, now: int) {
    !u.totpEnabled || (code != "" && (env.totp(u.totpSecret, code, now) || exists c | c in u.backupCodes :: env.check(code, c)))
  }

  predicate MayLogIn(s: Store, env: Env, username: string, password: string, code: string, now: int) {
    && Exists(s, username)
    && var u := s.users[Find(s.users, username)];
    && !u.disabled
    && !(s.attempts.Some? && BruteForce.Banned(s.attempts.value, username, now))
    && env.check(password, u.passwordHash)
    && !(IsLocal(u) && env.pwExpired(u, now))
    && SecondFactor(u, env, code, now)
  }

  /** A login is granted exactly to an enabled user who is not locked out, with the right password and
      second factor; the token then works until the session expires and not after. */
  lemma {:induction false} LoginGranted(s: Store, env: Env, username: string, password: string, code: string, token: string, now: int)
    ensures var (t, r) := UserTable.Login(s, env, username, password, code, token, now);
            && (r.Granted? <==> MayLogIn(s, env, username, password, code, now))
            && (r.Granted? ==> r.token == token && r.role == s.users[Find(s.users, username)].role
                               && forall later :: UserTable.ValidateToken(t, token, later).1 ==
                                    if later <= now + env.sessionDuration then Some((username, r.role)) else None)
            && (!r.Granted? ==> t.users == s.users && t.sessions == s.sessions)
  {
    var i := Find(s.users, username);
    if i < |s.users| {
      var codes := s.users[i].backupCodes;
      var k := FindCode(codes, env, code);
      assert k < |codes| ==> codes[k] in codes;
    }
  }

  /** The one backup code that a login uses up, if it uses one. */
  function AfterCode(u: User, env: Env, code: string, now: int): User {
    var k := FindCode(u.backupCodes, env, code);
    if u.totpEnabled && !env.totp(u.totpSecret, code, now) && k < |u.backupCodes| then DropCode(u, k) else u
  }

  /** A granted login uses up one backup code when the code is not the TOTP code, and changes nothing
      else about the users but the time of the last login. */
  lemma {:induction false} BackupCodeUsedOnce(s: Store, env: Env, username: string, password: string, code: string, token: string, now: int)
    requires MayLogIn(s, env, username, password, code, now)
    ensures var i := Find(s.users, username);
            UserTable.Login(s, env, username, password, code, token, now).0.users ==
              s.users[i := AfterCode(s.users[i], env, code, now).(lastLogin := now)]
    ensures var u := s.users[Find(s.users, username)];
            var after := AfterCode(u, env, code, now);
            if u.totpEnabled && !env.totp(u.totpSecret, code, now)
            then exists k | 0 <= k < |u.backupCodes| ::
                   && env.check(code, u.backupCodes[k]) && (forall j | 0 <= j < k :: !env.check(code, u.backupCodes[j]))
                   && after == u.(backupCodes := u.backupCodes[..k] + u.backupCodes[k + 1..])
            else after == u
  {
    var codes := s.users[Find(s.users, username)].backupCodes;
    var k := FindCode(codes, env, code);
    if k == |codes| {
      forall c | c in codes ensures !env.check(code, c) {
        var j :| 0 <= j < |codes| && codes[j] == c;
      }
    }
  }

  /** Operations that leave a session of `username` with this token and expiry alone. */
  predicate Spares(op: Op, token: string, username: string, expires: int) {
    match op
    case Login(_, _, _, other, _) => other != token
    case IssueToken(_, _, other, _) => other != token
    case ValidateToken(other, now) => other != token || now <= expires
    case PruneExpired(now) => now <= expires
    case Logout(other) => other != token
    case DeleteUser(name) => name != username
    case SetRole(name, _) => name != username
    case SetDisabled(name, disabled) => name != username || !disabled
    case RevokeAll(name) => name != username
    case RevokeByPrefix(_, matched) => matched != token
    case _ => true
  }

  lemma {:induction false} StepKeepsSession(s: Store, env: Env, op: Op, token: string)
    requires token in s.sessions && Spares(op, token, s.sessions[token].username, s.sessions[token].expires)
    ensures var t := Step(s, env, op);
            token in t.sessions && t.sessions[token] == s.sessions[token]
  {
    match op
    case Login(name, password, code, other, now) =>
      LoginSessions(s, env, name, password, code, other, now);
    case _ =>
  }

  /** A session ends only by expiry or by an operation that ends it: until then its token is accepted. */
  lemma {:induction false} SessionLasts(s: Store, env: Env, ops: seq<Op>, token: string, now: int)
    requires token in s.sessions && now <= s.sessions[token].expires
    requires forall op | op in ops :: Spares(op, token, s.sessions[token].username, s.sessions[token].expires)
    ensures UserTable.ValidateToken(Run(s, env, ops), token, now).1 ==
            Some((s.sessions[token].username, s.sessions[token].role))
    decreases |ops|
  {
    if ops != [] {
      StepKeepsSession(s, env, ops[0], token);
      SessionLasts(Step(s, env, ops[0]), env, ops[1..], token, now);
    }
  }

  // ----------------------------------------------------------- revocation lasts

  /** No session of the user can be accepted: each has the zero expiry. */
  ghost predicate SignedOut(s: Store, username: string) {
    forall t | t in s.sessions && s.sessions[t].username == username :: s.sessions[t].expires == ZERO_TIME
  }

  predicate Grants(op: Op, username: string) {
    (op.Login? || op.IssueToken?) && op.username == username
  }

  /** Deleting or disabling a user, changing the role, or revoking signs the user out. */
  lemma {:induction false} SigningOut(s: Store, env: Env, username: string, role: string)
    ensures SignedOut(Step(s, env, RevokeAll(username)), username)
    ensures Exists(s, username) ==> SignedOut(Step(s, env, DeleteUser(username)), username)
    ensures Exists(s, username) ==> SignedOut(Step(s, env, SetDisabled(username, true)), username)
    ensures Exists(s, username) && ValidRole(role) ==> SignedOut(Step(s, env, SetRole(username, role)), username)
  {
  }

  lemma {:induction false} StepStaysSignedOut(s: Store, env: Env, op: Op, username: string)
    requires SignedOut(s, username) && !Grants(op, username)
    ensures SignedOut(Step(s, env, op), username)
  {
    match op
    case Login(name, password, code, token, now) =>
      LoginSessions(s, env, name, password, code, token, now);
    case _ =>
  }

  /** A login adds at most one session, of its own user. */
  lemma {:induction false} LoginSessions(s: Store, env: Env, name: string, password: string, code: string, token: string, now: int)
    ensures var t := UserTable.Login(s, env, name, password, code, token, now).0;
            t.sessions == s.sessions || (t.sessions.Keys == s.sessions.Keys + {token}
                                         && t.sessions == s.sessions[token := t.sessions[token]]
                                         && t.sessions[token].username == name)
  {
    var i := Find(s.users, name);
    if i < |s.users| {
      GrantSessions(s, env, i, token, now);
      var k := FindCode(s.users[i].backupCodes, env, code);
      if k < |s.users[i].backupCodes| {
        GrantSessions(SetUser(s, i, DropCode(s.users[i], k)), env, i, token, now);
      }
    }
  }

  lemma {:induction false} GrantSessions(s: Store, env: Env, i: nat, token: string, now: int)
    requires i < |s.users|
    ensures var t := Grant(s, env, i, token, now).0;
            && t.sessions == s.sessions[token := t.sessions[token]]
            && t.sessions.Keys == s.sessions.Keys + {token}
            && t.sessions[token].username == s.users[i].username
  {
  }

  /** A user who was signed out has no accepted token until the next login or issued token. */
  lemma {:induction false} RevocationLasts(s: Store, env: Env, ops: seq<Op>, username: string, token: string, now: int)
    requires SignedOut(s, username) && forall op | op in ops :: !Grants(op, username)
    requires now > ZERO_TIME
    ensures var r := UserTable.ValidateToken(Run(s, env, ops), token, now).1;
            r.Some? ==> r.value.0 != username
    decreases |ops|
  {
    if ops != [] {
      StepStaysSignedOut(s, env, ops[0], username);
      RevocationLasts(Step(s, env, ops[0]), env, ops[1..], username, token, now);
    }
  }

  // ------------------------------------------------------------ lock-out persists

  /** The username has a failure record with this ban. */
  predicate BanRecorded(s: Store, username: string, until: int) {
    && username != "" && s.attempts.Some? && username in s.attempts.value
    && s.attempts.value[username].bannedUntil == until
  }

  /** The login fails; an existing, enabled user is told of the lock. */
  predicate Refused(s: Store, r: LoginResult, username: string) {
    && r.Denied?
    && (Exists(s, username) && !s.users[Find(s.users, username)].disabled ==> r == Denied(AccountLocked))
  }

  lemma {:induction false} BannedLoginFails(s: Store, env: Env, op: Op, username: string, until: int)
    requires BanRecorded(s, username, until) && op.Login? && op.username == username && op.now < until
    ensures Refused(s, UserTable.Login(s, env, username, op.password, op.code, op.token, op.now).1, username)
    ensures Step(s, env, op) == s
  {
  }

  function RecordOf(t: BruteForce.Table, username: string): Option<BruteForce.Attempts> {
    if username in t then Some(t[username]) else None
  }

  predicate IsLoginOf(op: Op, username: string) {
    op.Login? && op.username == username
  }

  /** Nothing but a login of the user touches the failure record. */
  lemma {:induction false} OthersKeepRecord(s: Store, env: Env, op: Op, username: string)
    requires s.attempts.Some? && !IsLoginOf(op, username)
    ensures var t := Step(s, env, op);
            t.attempts.Some? && RecordOf(t.attempts.value, username) == RecordOf(s.attempts.value, username)
  {
    match op
    case Login(name, password, code, token, now) =>
      LoginAttempts(s, env, name, password, code, token, now, username);
    case _ =>
  }

  lemma {:induction false} LoginAttempts(s: Store, env: Env, name: string, password: string, code: string, token: string, now: int,
                      other: string)
    requires s.attempts.Some? && other != name
    ensures var t := UserTable.Login(s, env, name, password, code, token, now).0;
            t.attempts.Some? && RecordOf(t.attempts.value, other) == RecordOf(s.attempts.value, other)
  {
    var i := Find(s.users, name);
    if i < |s.users| {
      var k := FindCode(s.users[i].backupCodes, env, code);
      if k < |s.users[i].backupCodes| {
        assert DropCode(s.users[i], k).username == name;
      }
    }
  }

  /** Once a username is banned, every login for it fails until the ban ends, whatever else happens in
      the run; `ops[k]` is the login looked at. */
  lemma {:induction false} LockOutPersists(s: Store, env: Env, ops: seq<Op>, username: string, until: int, k: nat)
    requires BanRecorded(s, username, until) && k < |ops|
    requires forall i | 0 <= i <= k && ops[i].Login? && ops[i].username == username :: ops[i].now < until
    requires ops[k].Login? && ops[k].username == username
    ensures var t := Run(s, env, ops[..k]);
            && Refused(t, UserTable.Login(t, env, username, ops[k].password, ops[k].code, ops[k].token, ops[k].now).1, username)
            && BanRecorded(t, username, until)
    decreases k
  {
    if k == 0 {
      assert ops[..0] == [];
      BannedLoginFails(s, env, ops[0], username, until);
    } else {
      var t := Step(s, env, ops[0]);
      assert BanRecorded(t, username, until) by {
        if ops[0].Login? && ops[0].username == username {
          BannedLoginFails(s, env, ops[0], username, until);
        } else {
          OthersKeepRecord(s, env, ops[0], username);
        }
      }
      LockOutPersists(t, env, ops[1..], username, until, k - 1);
      assert ops[..k][1..] == ops[1..][..k - 1] && ops[1..][k - 1] == ops[k];
    }
  }

  lemma {:induction false} RunSnoc(s: Store, env: Env, ops: seq<Op>, op: Op)
    ensures Run(s, env, ops + [op]) == Step(Run(s, env, ops), env, op)
    decreases |ops|
  {
    if ops == [] {
      assert ops + [op] == [op] && [op][1..] == [];
    } else {
      assert (ops + [op])[1..] == ops[1..] + [op];
      RunSnoc(Step(s, env, ops[0]), env, ops[1..], op);
    }
  }

  // -------------------------------------------------- guessing ends in a lock-out

  /** The right password, not too old, with a code that is neither the TOTP code nor a backup code. */
  predicate WrongCode(u: User, env: Env, op: Op)
    requires op.Login?
  {
    && env.check(op.password, u.passwordHash) && !env.pwExpired(u, op.now)
    && u.totpEnabled && op.code != "" && !env.totp(u.totpSecret, op.code, op.now)
    && forall c | c in u.backupCodes :: !env.check(op.code, c)
  }

  /** A login of `username` meets a local, enabled user with a wrong password or a wrong second factor. */
  predicate Misses(s: Store, env: Env, op: Op, username: string) {
    IsLoginOf(op, username) ==>
      && Exists(s, username)
      && var u := s.users[Find(s.users, username)];
      && u.source != "oidc" && u.source != "ldap" && !u.disabled
      && (!env.check(op.password, u.passwordHash) || WrongCode(u, env, op))
  }

  ghost predicate AllMiss(s: Store, env: Env, ops: seq<Op>, username: string) {
    forall i | 0 <= i < |ops| :: Misses(Run(s, env, ops[..i]), env, ops[i], username)
  }

  /** When `username` was tried. */
  function GuessTimes(ops: seq<Op>, username: string): seq<int> {
    if ops == [] then []
    else
      var init, last := ops[..|ops| - 1], ops[|ops| - 1];
      if IsLoginOf(last, username) then GuessTimes(init, username) + [last.now] else GuessTimes(init, username)
  }

  /** Times of a clock that does not go back, all within one window. */
  ghost predicate InOneWindow(times: seq<int>, l: BruteForce.Limits) {
    && (forall i, j | 0 <= i < j < |times| :: times[i] <= times[j])
    && (times != [] ==> ZERO_TIME <= times[0] && times[|times| - 1] - times[0] <= l.window)
  }

  lemma {:induction false} InOneWindowPrefix(times: seq<int>, t: int, l: BruteForce.Limits)
    requires InOneWindow(times + [t], l)
    ensures InOneWindow(times, l) && t >= ZERO_TIME
  {
    var all := times + [t];
    assert all[|times|] == t;
    assert forall i | 0 <= i < |times| :: times[i] == all[i];
  }

  /** A wrong password or second factor of a user who is not banned is recorded as a failure. */
  lemma {:induction false} MissIsFailure(s: Store, env: Env, op: Op, username: string)
    requires IsLoginOf(op, username) && Misses(s, env, op, username)
    requires s.attempts.Some? && !BruteForce.Banned(s.attempts.value, username, op.now)
    ensures Step(s, env, op) ==
            s.(attempts := Some(BruteForce.Failure(s.attempts.value, env.limits, username, op.now)))
  {
  }

  lemma {:induction false} FailureIsLocal(a: BruteForce.Table, b: BruteForce.Table, env: Env, username: string, now: int)
    requires RecordOf(a, username) == RecordOf(b, username)
    ensures BruteForce.Banned(a, username, now) == BruteForce.Banned(b, username, now)
    ensures RecordOf(BruteForce.Failure(a, env.limits, username, now), username) ==
            RecordOf(BruteForce.Failure(b, env.limits, username, now), username)
  {
  }

  lemma {:induction false} GuessIsRecorded(s: Store, env: Env, op: Op, username: string, before: seq<int>)
    requires BruteForce.ValidLimits(env.limits) && username != ""
    requires IsLoginOf(op, username) && Misses(s, env, op, username)
    requires s.attempts.Some? && RecordOf(s.attempts.value, username) == GuessRecord(env, username, before)
    requires InOneWindow(before + [op.now], env.limits) && |before| < env.limits.maxAttempts
    ensures var t := Step(s, env, op);
            && t.attempts.Some?
            && RecordOf(t.attempts.value, username) == GuessRecord(env, username, before + [op.now])
  {
    FailureIsLocal(s.attempts.value, BruteForce.Failures(map[], env.limits, username, before), env, username, op.now);
    InOneWindowPrefix(before, op.now, env.limits);
    BruteForce.FailuresNoBan(map[], env.limits, username, before, op.now);
    MissIsFailure(s, env, op, username);
    assert (before + [op.now])[..|before|] == before;
  }

  /** The failure record after failures at these times alone. */
  function GuessRecord(env: Env, username: string, times: seq<int>): Option<BruteForce.Attempts> {
    RecordOf(BruteForce.Failures(map[], env.limits, username, times), username)
  }

  lemma {:induction false} AllMissPrefix(s: Store, env: Env, init: seq<Op>, last: Op, username: string)
    requires AllMiss(s, env, init + [last], username)
    ensures AllMiss(s, env, init, username) && Misses(Run(s, env, init), env, last, username)
  {
    var ops := init + [last];
    assert ops[|init|] == last && ops[..|init|] == init;
    assert forall i | 0 <= i < |init| :: init[..i] == ops[..i] && init[i] == ops[i];
  }

  /** Up to the threshold the failure record of a guessed user is that of the guesses, whatever else
      happens in the run. */
  lemma {:induction false} GuessesAreRecorded(s: Store, env: Env, ops: seq<Op>, username: string)
    requires BruteForce.ValidLimits(env.limits) && username != ""
    requires s.attempts.Some? && username !in s.attempts.value && AllMiss(s, env, ops, username)
    requires InOneWindow(GuessTimes(ops, username), env.limits)
    requires |GuessTimes(ops, username)| <= env.limits.maxAttempts
    ensures var t := Run(s, env, ops);
            && t.attempts.Some?
            && RecordOf(t.attempts.value, username) == GuessRecord(env, username, GuessTimes(ops, username))
  {
    if ops != [] {
      var init, last := ops[..|ops| - 1], ops[|ops| - 1];
      assert ops == init + [last];
      AllMissPrefix(s, env, init, last, username);
      RunSnoc(s, env, init, last);
      if IsLoginOf(last, username) {
        InOneWindowPrefix(GuessTimes(init, username), last.now, env.limits);
        GuessesAreRecorded(s, env, init, username);
        GuessIsRecorded(Run(s, env, init), env, last, username, GuessTimes(init, username));
      } else {
        GuessesAreRecorded(s, env, init, username);
        OthersKeepRecord(Run(s, env, init), env, last, username);
      }
    }
  }

  /** As many wrong logins as the threshold allows, within one window, ban the user. */
  lemma {:induction false} GuessesBan(s: Store, env: Env, ops: seq<Op>, username: string)
    requires BruteForce.ValidLimits(env.limits) && username != ""
    requires s.attempts.Some? && username !in s.attempts.value && AllMiss(s, env, ops, username)
    requires InOneWindow(GuessTimes(ops, username), env.limits)
    requires |GuessTimes(ops, username)| == env.limits.maxAttempts
    ensures var times := GuessTimes(ops, username);
            BanRecorded(Run(s, env, ops), username, times[|times| - 1] + env.limits.ban)
  {
    var times := GuessTimes(ops, username);
    GuessesAreRecorded(s, env, ops, username);
    BruteForce.FailuresBan(map[], env.limits, username, times);
  }

  /** After that many wrong passwords or codes for a username, among any other operations, every login for it
      fails until the ban ends, with the right password too and whatever else happens meanwhile;
      `later[k]` is the login looked at. */
  lemma {:induction false} WrongLoginsLockOut(s: Store, env: Env, ops: seq<Op>, later: seq<Op>, username: string, k: nat)
    requires BruteForce.ValidLimits(env.limits) && username != ""
    requires s.attempts.Some? && username !in s.attempts.value && AllMiss(s, env, ops, username)
    requires InOneWindow(GuessTimes(ops, username), env.limits)
    requires |GuessTimes(ops, username)| == env.limits.maxAttempts
    requires k < |later| && IsLoginOf(later[k], username)
    requires var times := GuessTimes(ops, username);
             forall i | 0 <= i <= k && IsLoginOf(later[i], username) :: later[i].now < times[|times| - 1] + env.limits.ban
    ensures var t, op := Run(s, env, ops + later[..k]), later[k];
            Refused(t, UserTable.Login(t, env, username, op.password, op.code, op.token, op.now).1, username)
  {
    var times := GuessTimes(ops, username);
    GuessesBan(s, env, ops, username);
    LockOutPersists(Run(s, env, ops), env, later, username, times[|times| - 1] + env.limits.ban, k);
    RunConcat(s, env, ops, later[..k]);
  }

  lemma {:induction false} RunConcat(s: Store, env: Env, a: seq<Op>, b: seq<Op>)
    ensures Run(s, env, a + b) == Run(Run(s, env, a), env, b)
    decreases |a|
  {
    if a == [] {
      assert a + b == b;
    } else {
      assert (a + b)[1..] == a[1..] + b;
      RunConcat(Step(s, env, a[0]), env, a[1..], b);
    }
  }

  /** The logins of a guesser of one user, all with wrong passwords. */
  ghost predicate OnlyGuesses(u: User, env: Env, ops: seq<Op>) {
    forall i | 0 <= i < |ops| :: IsLoginOf(ops[i], u.username) && !env.check(ops[i].password, u.passwordHash)
  }

  lemma {:induction false} GuessesChangeNoUser(s: Store, env: Env, u: User, ops: seq<Op>)
    requires OnlyGuesses(u, env, ops) && Exists(s, u.username)
    requires s.users[Find(s.users, u.username)] == u && IsLocal(u) && !u.disabled
    ensures Run(s, env, ops).users == s.users && AllMiss(s, env, ops, u.username)
  {
    if ops != [] {
      var init, last := ops[..|ops| - 1], ops[|ops| - 1];
      GuessesChangeNoUser(s, env, u, init);
      RunSnoc(s, env, init, last);
      assert ops == init + [last];
      assert forall i | 0 <= i < |init| :: init[..i] == ops[..i];
    }
  }

  /** In particular, right after nothing but wrong passwords an enabled user is told of the lock. */
  lemma {:induction false} GuesserLockedOut(s: Store, env: Env, u: User, ops: seq<Op>, op: Op)
    requires BruteForce.ValidLimits(env.limits) && u.username != ""
    requires s.attempts.Some? && u.username !in s.attempts.value
    requires OnlyGuesses(u, env, ops) && Exists(s, u.username)
    requires s.users[Find(s.users, u.username)] == u && IsLocal(u) && !u.disabled
    requires InOneWindow(GuessTimes(ops, u.username), env.limits)
    requires |GuessTimes(ops, u.username)| == env.limits.maxAttempts
    requires IsLoginOf(op, u.username)
    requires op.now < GuessTimes(ops, u.username)[env.limits.maxAttempts - 1] + env.limits.ban
    ensures UserTable.Login(Run(s, env, ops), env, u.username, op.password, op.code, op.token, op.now).1 ==
            Denied(AccountLocked)
  {
    GuessesChangeNoUser(s, env, u, ops);
    WrongLoginsLockOut(s, env, ops, [op], u.username, 0);
    assert ops + [op][..0] == ops;
  }
}
