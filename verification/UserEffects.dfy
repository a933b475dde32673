/** What the operations of the user store come to: every answer of a login, what a user's standing is
    after an operation and how long it lasts, and which tokens an operation leaves alone. */
module UserEffects {
  import opened Wrappers
  import opened Times
  import opened UserTable
  import opened UserRuns
  import BruteForce

  // ------------------------------------------------------------------- logins

  /** Every answer of a login, and what it leaves unchanged. */
  lemma {:induction false} LoginAnswers(s: Store, env: Env, username: string, password: string, code: string, token: string, now: int)
    ensures var (t, r) := UserTable.Login(s, env, username, password, code, token, now);
            var i := Find(s.users, username);
            if i == |s.users| then r == Denied(InvalidCredentials) && t == s
            else
              var u := s.users[i];
              var banned := username != "" && s.attempts.Some? && username in s.attempts.value
                            && now < s.attempts.value[username].bannedUntil;
              var open, right := !u.disabled && !banned, env.check(password, u.passwordHash);
              var expired := u.source != "oidc" && u.source != "ldap" && env.pwExpired(u, now);
              var wrongCode := code != "" && !env.totp(u.totpSecret, code, now)
                               && forall c | c in u.backupCodes :: !env.check(code, c);
              && (r == Denied(AccountDisabled) <==> u.disabled)
              && (r == Denied(AccountLocked) <==> !u.disabled && banned)
              && (r == Denied(PasswordExpired) <==> open && right && expired)
              && (r == NeedsTOTP <==> open && right && !expired && u.totpEnabled && code == "")
              && (r == Denied(InvalidCredentials) <==> open && (!right || (!expired && u.totpEnabled && wrongCode)))
              && (r.Granted? <==> open && right && !expired && (!u.totpEnabled || (code != "" && !wrongCode)))
              && (!r.Granted? && r != Denied(InvalidCredentials) ==> t == s)
  {
    var i := Find(s.users, username);
    if i < |s.users| {
      var codes := s.users[i].backupCodes;
      var k := FindCode(codes, env, code);
      if k < |codes| {
        assert codes[k] in codes;
      }
    }
  }

  /** A refused pair of username and password, or code, is recorded against a local user, and nothing
      else changes. */
  lemma {:induction false} RefusalIsRecorded(s: Store, env: Env, username: string, password: string, code: string, token: string, now: int)
    requires UserTable.Login(s, env, username, password, code, token, now).1 == Denied(InvalidCredentials)
    requires Exists(s, username) && s.attempts.Some?
    ensures var t := UserTable.Login(s, env, username, password, code, token, now).0;
            var source := s.users[Find(s.users, username)].source;
            && t.users == s.users && t.sessions == s.sessions && t.attempts.Some?
            && (source == "oidc" || source == "ldap" ==> t == s)
            && (source != "oidc" && source != "ldap" ==>
                  t.attempts.value == BruteForce.Failure(s.attempts.value, env.limits, username, now))
  {
  }

  /** A granted login opens this session and no other, sets the time of the last login, and leaves a
      local user no failure record. */
  lemma {:induction false} GrantLeaves(s: Store, env: Env, username: string, password: string, code: string, token: string, now: int)
    requires UserTable.Login(s, env, username, password, code, token, now).1.Granted?
    ensures var t := UserTable.Login(s, env, username, password, code, token, now).0;
            var i := Find(s.users, username);
            var u := s.users[i];
            && |t.users| == |s.users| && t.users[i].lastLogin == now
            && (forall j | 0 <= j < |s.users| && j != i :: t.users[j] == s.users[j])
            && t.sessions == s.sessions[token := Session(username, u.role, now + env.sessionDuration, now, "local")]
            && (s.attempts.None? <==> t.attempts.None?)
            && (s.attempts.Some? && username != "" && u.source != "oidc" && u.source != "ldap" ==>
                  username !in t.attempts.value)
            && (s.attempts.Some? ==> forall k | k in s.attempts.value && k != username ::
                  k in t.attempts.value && t.attempts.value[k] == s.attempts.value[k])
  {
    var i := Find(s.users, username);
    var u := AfterCode(s.users[i], env, code, now);
    LoginIsGrant(s, env, username, password, code, token, now);
    GrantEffect(SetUser(s, i, u), env, i, token, now);
  }

  /** A granted login hands out a token, after using up a backup code if it needs one. */
  lemma {:induction false} LoginIsGrant(s: Store, env: Env, username: string, password: string, code: string, token: string, now: int)
    requires UserTable.Login(s, env, username, password, code, token, now).1.Granted?
    ensures var i := Find(s.users, username);
            i < |s.users| &&
            var u := AfterCode(s.users[i], env, code, now);
            && u.username == username && u.role == s.users[i].role && u.source == s.users[i].source
            && UserTable.Login(s, env, username, password, code, token, now) == Grant(SetUser(s, i, u), env, i, token, now)
  {
    var i := Find(s.users, username);
    assert s.users[i := s.users[i]] == s.users;
  }

  lemma {:induction false} GrantEffect(s: Store, env: Env, i: nat, token: string, now: int)
    requires i < |s.users|
    ensures var t, u := Grant(s, env, i, token, now).0, s.users[i];
            && t.users == s.users[i := u.(lastLogin := now)]
            && t.sessions == s.sessions[token := Session(u.username, u.role, now + env.sessionDuration, now, "local")]
            && (s.attempts.None? ==> t.attempts.None?)
            && (s.attempts.Some? ==>
                  t.attempts == Some(if u.source != "oidc" && u.source != "ldap" && u.username != ""
                                     then s.attempts.value - {u.username} else s.attempts.value))
  {
  }

  // ----------------------------------------------------------------- standing

  /** The role of a user, and whether the user is disabled; None for no user. */
  datatype Standing = Standing(role: string, disabled: bool)

  function StandingOf(s: Store, username: string): Option<Standing> {
    var i := Find(s.users, username);
    if i == |s.users| then None else Some(Standing(s.users[i].role, s.users[i].disabled))
  }

  /** A login by standing: nobody, a disabled user, or a user who can only be given the role held. */
  lemma {:induction false} LoginByStanding(s: Store, env: Env, username: string, password: string, code: string, token: string, now: int)
    ensures var (t, r) := UserTable.Login(s, env, username, password, code, token, now);
            match StandingOf(s, username)
            case None => r == Denied(InvalidCredentials) && t == s
            case Some(st) =>
              && (st.disabled ==> r == Denied(AccountDisabled) && t == s)
              && (r.Granted? ==> r == Granted(token, st.role))
  {
  }

  /** Issuing a token by standing; only passwords of local sign-ins age. */
  lemma {:induction false} TokenByStanding(s: Store, env: Env, username: string, source: string, token: string, now: int)
    ensures var r := UserTable.IssueToken(s, env, username, source, token, now);
            match StandingOf(s, username)
            case None => r == Err(UserNotFound)
            case Some(st) =>
              && (r == Err(UserDisabled) <==> st.disabled)
              && (r == Err(PasswordTooOld) <==>
                    !st.disabled && source != "oidc" && source != "ldap" && env.pwExpired(s.users[Find(s.users, username)], now))
              && (r.Err? ==> r.error == UserDisabled || r.error == PasswordTooOld)
              && (r.Ok? ==> r.value.sessions ==
                              s.sessions[token := Session(username, st.role, now + env.sessionDuration, now, source)]
                            && r.value.attempts == s.attempts)
  {
  }

  predicate IsRole(role: string) {
    role in {"admin", "readonly", "user"}
  }

  /** When an account can be registered, the standing it then has, and that it is enabled. */
  lemma {:induction false} RegisterGives(s: Store, username: string, password: string, role: string, hash: Option<string>)
    ensures var r := UserTable.Register(s, username, password, role, hash);
            && (r == Err(MissingField) <==> username == "" || password == "")
            && (r == Err(BadRole) <==> username != "" && password != "" && !IsRole(role))
            && (r == Err(UserExists) <==>
                  username != "" && password != "" && IsRole(role) && StandingOf(s, username).Some?)
            && (r == Err(HashFailed) <==>
                  username != "" && password != "" && IsRole(role) && StandingOf(s, username) == None && hash == None)
            && (r.Err? ==> r.error in {MissingField, BadRole, UserExists, HashFailed})
            && (r.Ok? ==>
                  && StandingOf(r.value, username) == Some(Standing(role, false))
                  && r.value.users[..|s.users|] == s.users && |r.value.users| == |s.users| + 1
                  && r.value.users[|s.users|] ==
                       User(username, hash.value, role, "", false, "", [], ZERO_TIME, false, "")
                  && r.value.sessions == s.sessions && r.value.attempts == s.attempts)
  {
    var r := UserTable.Register(s, username, password, role, hash);
    if r.Ok? {
      FindSnoc(s.users, NewUser(username, hash.value, role, ""));
    }
  }

  lemma {:induction false} RegisterExternalGives(s: Store, username: string, role: string, source: string)
    ensures var r := UserTable.RegisterExternal(s, username, role, source);
            && (r == Err(MissingField) <==> username == "")
            && (r == Err(BadRole) <==> username != "" && !IsRole(role))
            && (r == Err(UserExists) <==> username != "" && IsRole(role) && StandingOf(s, username).Some?)
            && (r.Err? ==> r.error in {MissingField, BadRole, UserExists})
            && (r.Ok? ==>
                  && StandingOf(r.value, username) == Some(Standing(role, false))
                  && r.value.users[..|s.users|] == s.users && |r.value.users| == |s.users| + 1
                  && r.value.users[|s.users|] == User(username, "", role, "", false, source, [], ZERO_TIME, false, "")
                  && r.value.sessions == s.sessions && r.value.attempts == s.attempts)
  {
    var r := UserTable.RegisterExternal(s, username, role, source);
    if r.Ok? {
      FindSnoc(s.users, NewUser(username, "", role, source));
    }
  }

  lemma {:induction false} FindSnoc(users: seq<User>, u: User)
    requires Find(users, u.username) == |users|
    ensures Find(users + [u], u.username) == |users|
  {
    var all := users + [u];
    assert all[|users|] == u;
    assert forall j | 0 <= j < |users| :: all[j] == users[j];
  }

  /** The operations on an existing user: what the standing is afterwards. */
  lemma {:induction false} StandingIsSet(s: Store, env: Env, username: string, role: string, disabled: bool)
    requires StandingOf(s, username).Some?
    ensures var st := StandingOf(s, username).value;
            && StandingOf(Step(s, env, SetDisabled(username, disabled)), username) == Some(Standing(st.role, disabled))
            && StandingOf(Step(s, env, SetRole(username, role)), username) ==
                 Some(Standing(if IsRole(role) then role else st.role, st.disabled))
            && (UniqueNames(s.users) ==> StandingOf(Step(s, env, DeleteUser(username)), username) == None)
  {
    SetDisabledStanding(s, env, username, disabled);
    SetRoleStanding(s, env, username, role);
    if UniqueNames(s.users) {
      DeleteLeavesNone(s, username);
    }
  }

  lemma {:induction false} SetDisabledStanding(s: Store, env: Env, username: string, disabled: bool)
    requires StandingOf(s, username).Some?
    ensures StandingOf(Step(s, env, SetDisabled(username, disabled)), username) ==
            Some(Standing(StandingOf(s, username).value.role, disabled))
  {
    var i := Find(s.users, username);
    PutStanding(s, i, s.users[i].(disabled := disabled));
  }

  lemma {:induction false} SetRoleStanding(s: Store, env: Env, username: string, role: string)
    requires StandingOf(s, username).Some?
    ensures var st := StandingOf(s, username).value;
            StandingOf(Step(s, env, SetRole(username, role)), username) ==
              Some(Standing(if IsRole(role) then role else st.role, st.disabled))
  {
    var i := Find(s.users, username);
    PutStanding(s, i, s.users[i].(role := role));
  }

  lemma {:induction false} PutStanding(s: Store, i: nat, u: User)
    requires i == Find(s.users, u.username) < |s.users|
    ensures StandingOf(SetUser(s, i, u), u.username) == Some(Standing(u.role, u.disabled))
  {
    FindAfterSet(s.users, i, u, u.username);
  }

  lemma {:induction false} DeleteLeavesNone(s: Store, username: string)
    requires UniqueNames(s.users) && UserTable.DeleteUser(s, username).Ok?
    ensures StandingOf(UserTable.DeleteUser(s, username).value, username) == None
  {
    var i := Find(s.users, username);
    var rest := s.users[..i] + s.users[i + 1..];
    assert forall j | 0 <= j < |rest| :: rest[j] == s.users[if j < i then j else j + 1];
  }

  /** A change of role or state changes that field of the one record, a deletion takes out the one record,
      and each says why it does nothing. */
  lemma {:induction false} RecordsAfter(s: Store, username: string, role: string, disabled: bool)
    ensures var i := Find(s.users, username);
            var (a, b, c) := (UserTable.SetRole(s, username, role), UserTable.SetDisabled(s, username, disabled),
                              UserTable.DeleteUser(s, username));
            && a.Ok? == (IsRole(role) && i < |s.users|) && b.Ok? == c.Ok? == (i < |s.users|)
            && (a.Err? ==> a.error == if IsRole(role) then UserNotFound else BadRole)
            && (b.Err? ==> b.error == UserNotFound && c.error == UserNotFound)
            && (a.Ok? ==> a.value.users == s.users[i := s.users[i].(role := role)] && a.value.attempts == s.attempts)
            && (b.Ok? ==> b.value.users == s.users[i := s.users[i].(disabled := disabled)]
                          && c.value.users == s.users[..i] + s.users[i + 1..]
                          && b.value.attempts == s.attempts && c.value.attempts == s.attempts)
  {
  }

  /** The record of a user can be replaced; no other record changes. */
  lemma {:induction false} UpdateReplaces(s: Store, u: User)
    ensures var r := UserTable.UpdateUser(s, u);
            var i := Find(s.users, u.username);
            && (r == Err(UserNotFound) <==> i == |s.users|)
            && (r.Ok? ==> |r.value.users| == |s.users| && r.value.users[i] == u && Find(r.value.users, u.username) == i
                          && (forall j | 0 <= j < |s.users| && j != i :: r.value.users[j] == s.users[j])
                          && r.value.sessions == s.sessions && r.value.attempts == s.attempts)
  {
    var i := Find(s.users, u.username);
    if i < |s.users| {
      FindAfterSet(s.users, i, u, u.username);
    }
  }

  lemma {:induction false} FindAfterSet(users: seq<User>, i: nat, u: User, username: string)
    requires i < |users| && u.username == users[i].username
    ensures Find(users[i := u], username) == Find(users, username)
  {
    var all := users[i := u];
    assert forall j | 0 <= j < |users| :: all[j].username == users[j].username;
  }

  /** The operations that give a username another standing. */
  predicate Changes(op: Op, username: string) {
    match op
    case Register(name, _, _, _) => name == username
    case RegisterExternal(name, _, _) => name == username
    case DeleteUser(name) => name == username
    case SetRole(name, _) => name == username
    case SetDisabled(name, _) => name == username
    case UpdateUser(u) => u.username == username
    case _ => false
  }

  /** Replacing a record by one with the same name, role and state changes no standing. */
  lemma {:induction false} SameStanding(s: Store, i: nat, u: User, username: string)
    requires i < |s.users| && u.username == s.users[i].username
    requires u.username == username ==> u.role == s.users[i].role && u.disabled == s.users[i].disabled
    ensures StandingOf(SetUser(s, i, u), username) == StandingOf(s, username)
  {
    FindAfterSet(s.users, i, u, username);
  }

  /** A login changes no user but the one who logs in, and of that one the codes and the last login. */
  lemma {:induction false} LoginUsers(s: Store, env: Env, name: string, password: string, code: string, token: string, now: int)
    ensures var t, i := UserTable.Login(s, env, name, password, code, token, now).0, Find(s.users, name);
            t.users == s.users
            || (i < |s.users| && t.users == s.users[i := AfterCode(s.users[i], env, code, now).(lastLogin := now)])
  {
    LoginGranted(s, env, name, password, code, token, now);
    if UserTable.Login(s, env, name, password, code, token, now).1.Granted? {
      var i := Find(s.users, name);
      var u := AfterCode(s.users[i], env, code, now);
      LoginIsGrant(s, env, name, password, code, token, now);
      GrantEffect(SetUser(s, i, u), env, i, token, now);
      assert s.users[i := u][i := u.(lastLogin := now)] == s.users[i := u.(lastLogin := now)];
    }
  }

  lemma {:induction false} LoginKeepsStanding(s: Store, env: Env, name: string, password: string, code: string, token: string, now: int,
                           username: string)
    ensures StandingOf(UserTable.Login(s, env, name, password, code, token, now).0, username) == StandingOf(s, username)
  {
    var i := Find(s.users, name);
    LoginUsers(s, env, name, password, code, token, now);
    if i < |s.users| {
      SameStanding(s, i, AfterCode(s.users[i], env, code, now).(lastLogin := now), username);
    }
  }

  lemma {:induction false} AddKeepsStanding(s: Store, u: User, username: string)
    requires AddUser(s, u).Ok? && u.username != username
    ensures StandingOf(AddUser(s, u).value, username) == StandingOf(s, username)
  {
    var all, i := s.users + [u], Find(s.users, username);
    assert forall j | 0 <= j < |s.users| :: all[j] == s.users[j];
    assert all[|s.users|] == u;
    assert Find(all, username) == if i < |s.users| then i else |all|;
  }

  lemma {:induction false} DeleteKeepsStanding(s: Store, name: string, username: string)
    requires UserTable.DeleteUser(s, name).Ok? && name != username
    ensures StandingOf(UserTable.DeleteUser(s, name).value, username) == StandingOf(s, username)
  {
    var d, i := Find(s.users, name), Find(s.users, username);
    var rest := s.users[..d] + s.users[d + 1..];
    assert forall j | 0 <= j < |rest| :: rest[j] == s.users[if j < d then j else j + 1];
    assert Find(rest, username) == if i < d then i else i - 1 by {
      assert i != d;
      assert i < |s.users| ==> rest[if i < d then i else i - 1] == s.users[i];
    }
  }

  lemma {:induction false} StepKeepsStanding(s: Store, env: Env, op: Op, username: string)
    requires !Changes(op, username)
    ensures StandingOf(Step(s, env, op), username) == StandingOf(s, username)
  {
    match op
    case Register(name, password, role, hash) =>
      if UserTable.Register(s, name, password, role, hash).Ok? {
        AddKeepsStanding(s, NewUser(name, hash.value, role, ""), username);
      }
    case RegisterExternal(name, role, source) =>
      if UserTable.RegisterExternal(s, name, role, source).Ok? {
        AddKeepsStanding(s, NewUser(name, "", role, source), username);
      }
    case Login(name, password, code, token, now) =>
      LoginKeepsStanding(s, env, name, password, code, token, now, username);
    case DeleteUser(name) =>
      if UserTable.DeleteUser(s, name).Ok? { DeleteKeepsStanding(s, name, username); }
    case _ =>
      AmendKeepsStanding(s, env, op, username);
  }

  /** The operations that amend one record, or none. */
  lemma {:induction false} AmendKeepsStanding(s: Store, env: Env, op: Op, username: string)
    requires !Changes(op, username)
    requires !op.Register? && !op.RegisterExternal? && !op.Login? && !op.DeleteUser?
    ensures StandingOf(Step(s, env, op), username) == StandingOf(s, username)
  {
    var name := match op
      case IssueToken(name, _, _, _) => name
      case SetRole(name, _) => name
      case SetDisabled(name, _) => name
      case UpdateUser(u) => u.username
      case _ => username;
    var t, i := Step(s, env, op), Find(s.users, name);
    if t.users != s.users {
      assert i < |s.users| && t.users[i].username == name && t.users == s.users[i := t.users[i]];
      SameStanding(s, i, t.users[i], username);
    }
  }

  /** A user's standing lasts through any run without an operation that gives another: so a disabled or
      deleted user cannot log in, and a login gives the role that was set, until then. */
  lemma {:induction false} StandingLasts(s: Store, env: Env, ops: seq<Op>, username: string)
    requires forall op | op in ops :: !Changes(op, username)
    ensures StandingOf(Run(s, env, ops), username) == StandingOf(s, username)
    decreases |ops|
  {
    if ops != [] {
      StepKeepsStanding(s, env, ops[0], username);
      StandingLasts(Step(s, env, ops[0]), env, ops[1..], username);
    }
  }

  /** In particular: after a disabling, a deletion or a change of role, and anything that does not touch
      the user's standing again, a login is refused, or gives the new role. */
  lemma {:induction false} LaterLogin(s: Store, env: Env, ops: seq<Op>, username: string, role: string,
                   password: string, code: string, token: string, now: int)
    requires StandingOf(s, username).Some? && UniqueNames(s.users) && IsRole(role)
    requires forall op | op in ops :: !Changes(op, username)
    ensures var t := Run(Step(s, env, SetDisabled(username, true)), env, ops);
            UserTable.Login(t, env, username, password, code, token, now).1 == Denied(AccountDisabled)
    ensures var t := Run(Step(s, env, DeleteUser(username)), env, ops);
            UserTable.Login(t, env, username, password, code, token, now).1 == Denied(InvalidCredentials)
    ensures var t := Run(Step(s, env, SetRole(username, role)), env, ops);
            var r := UserTable.Login(t, env, username, password, code, token, now).1;
            r.Granted? ==> r.role == role
  {
    StandingIsSet(s, env, username, role, true);
    LoginAfter(Step(s, env, SetDisabled(username, true)), env, ops, username, password, code, token, now);
    LoginAfter(Step(s, env, DeleteUser(username)), env, ops, username, password, code, token, now);
    LoginAfter(Step(s, env, SetRole(username, role)), env, ops, username, password, code, token, now);
  }

  lemma {:induction false} LoginAfter(s: Store, env: Env, ops: seq<Op>, username: string,
                   password: string, code: string, token: string, now: int)
    requires forall op | op in ops :: !Changes(op, username)
    ensures var r := UserTable.Login(Run(s, env, ops), env, username, password, code, token, now).1;
            match StandingOf(s, username)
            case None => r == Denied(InvalidCredentials)
            case Some(st) => (st.disabled ==> r == Denied(AccountDisabled)) && (r.Granted? ==> r.role == st.role)
  {
    StandingLasts(s, env, ops, username);
    LoginByStanding(Run(s, env, ops), env, username, password, code, token, now);
  }

  // ------------------------------------------------------------------- tokens

  /** What a token is good for at a time. */
  function Accepts(s: Store, token: string, now: int): Option<(string, string)> {
    UserTable.ValidateToken(s, token, now).1
  }

  /** A token is accepted up to the expiry of its session. Asking changes nothing but that an expired
      session goes. */
  lemma {:induction false} AcceptedUntilExpiry(s: Store, token: string, now: int)
    ensures Accepts(s, token, now) ==
              if token in s.sessions && now <= s.sessions[token].expires
              then Some((s.sessions[token].username, s.sessions[token].role)) else None
    ensures var t := UserTable.ValidateToken(s, token, now).0;
            && t.users == s.users && t.attempts == s.attempts
            && (token in t.sessions <==> token in s.sessions && now <= s.sessions[token].expires)
            && (forall k | k != token :: k in t.sessions <==> k in s.sessions)
            && (forall k | k in t.sessions :: t.sessions[k] == s.sessions[k])
  {
  }

  /** Ending one session, by logout or by the prefix of its token, ends that token and no other. */
  lemma {:induction false} OneTokenEnds(s: Store, env: Env, prefix: string, token: string, other: string, now: int)
    requires |prefix| >= 6 && prefix <= token && token in s.sessions
    ensures Accepts(Step(s, env, Logout(token)), token, now) == None
    ensures Accepts(Step(s, env, RevokeByPrefix(prefix, token)), token, now) == None
    ensures other != token ==> Accepts(Step(s, env, Logout(token)), other, now) == Accepts(s, other, now)
                               && Accepts(Step(s, env, RevokeByPrefix(prefix, token)), other, now) == Accepts(s, other, now)
    ensures Step(s, env, Logout(token)).users == s.users && Step(s, env, RevokeByPrefix(prefix, token)).users == s.users
  {
  }

  /** Pruning removes the sessions that have expired, so it changes no answer from then on. */
  lemma {:induction false} PruningIsSilent(s: Store, now: int, token: string, later: int)
    requires now <= later
    ensures Accepts(UserTable.PruneExpired(s, now), token, later) == Accepts(s, token, later)
    ensures token in UserTable.PruneExpired(s, now).sessions ==> now <= s.sessions[token].expires
    ensures UserTable.PruneExpired(s, now).users == s.users
  {
  }

  /** Deleting, disabling or enabling a user, changing the role, and revoking leave the tokens of
      everyone else as they were, and enabling leaves the user's own. */
  lemma {:induction false} OthersKeepTokens(s: Store, env: Env, username: string, role: string, disabled: bool, token: string, now: int)
    requires token in s.sessions ==> s.sessions[token].username != username
    ensures Accepts(Step(s, env, DeleteUser(username)), token, now) == Accepts(s, token, now)
    ensures Accepts(Step(s, env, SetDisabled(username, disabled)), token, now) == Accepts(s, token, now)
    ensures Accepts(Step(s, env, SetRole(username, role)), token, now) == Accepts(s, token, now)
    ensures Accepts(Step(s, env, RevokeAll(username)), token, now) == Accepts(s, token, now)
    ensures forall any: string :: Accepts(Step(s, env, SetDisabled(username, false)), any, now) == Accepts(s, any, now)
  {
  }

  /** Deleting, disabling and revoking remove the user's sessions; a change of role gives them the new
      role and the zero expiry. */
  lemma {:induction false} OwnSessionsEnd(s: Store, env: Env, username: string, role: string, token: string)
    requires token in s.sessions && s.sessions[token].username == username
    ensures token !in Step(s, env, RevokeAll(username)).sessions
    ensures StandingOf(s, username).Some? ==>
              && token !in Step(s, env, DeleteUser(username)).sessions
              && token !in Step(s, env, SetDisabled(username, true)).sessions
              && (IsRole(role) ==>
                    var t := Step(s, env, SetRole(username, role));
                    token in t.sessions && t.sessions[token] == Session(username, role, ZERO_TIME, ZERO_TIME, ""))
  {
  }
}
