/** The user store: a list of users and a map of sessions, updated in place. */
module UserStore {
  import opened Wrappers
  import opened UserTable
  import opened Times
  import opened BruteForce

  class UserStore {
    var users: seq<User>
    var sessions: map<string, Session>
    var sessionDuration: int
    var bf: BruteForceTracker?

    ghost function View(): Store
      reads this, bf
    {
      Store(users, sessions, if bf == null then None else Some(bf.usernameAttempts))
    }

    /** The environment's thresholds and session length are those of the store. */
    ghost predicate Fits(env: Env)
      reads this, bf
    {
      env.sessionDuration == sessionDuration && (bf != null ==> env.limits == bf.limits)
    }

    constructor (users: seq<User>, sessions: map<string, Session>, sessionDuration: int)
      ensures View() == Store(users, sessions, None)
      ensures this.sessionDuration == if sessionDuration <= 0 then 86_400_000_000_000 else sessionDuration
    {
      this.users, this.sessions, bf := users, sessions, null;
      this.sessionDuration := if sessionDuration <= 0 then 24 * HOUR else sessionDuration;
    }

    /** The loop over the users that most operations start with. */
    method FindUser(username: string) returns (i: nat)
      ensures i == Find(users, username)
    {
      i := 0;
      while i < |users| && users[i].username != username
        invariant i <= |users|
        invariant forall j | 0 <= j < i :: users[j].username != username
      {
        i := i + 1;
      }
    }

    method Register(username: string, password: string, role: string, hash: Option<string>)
      returns (r: Result<(), UserTable.Error>)
      modifies this`users
      ensures var spec := UserTable.Register(old(View()), username, password, role, hash);
              View() == (if spec.Ok? then spec.value else old(View())) && (r.Ok? <==> spec.Ok?)
              && (r.Err? ==> r.error == spec.error)
    {
      if username == "" || password == "" {
        return Err(MissingField);
      }
      if role != "admin" && role != "readonly" && role != "user" {
        return Err(BadRole);
      }
      var i := FindUser(username);
      if i < |users| {
        return Err(UserExists);
      }
      if hash.None? {
        return Err(HashFailed);
      }
      users := users + [NewUser(username, hash.value, role, "")];
      return Ok(());
    }

    method RegisterExternal(username: string, role: string, source: string) returns (r: Result<(), UserTable.Error>)
      modifies this`users
      ensures var spec := UserTable.RegisterExternal(old(View()), username, role, source);
              View() == (if spec.Ok? then spec.value else old(View())) && (r.Ok? <==> spec.Ok?)
              && (r.Err? ==> r.error == spec.error)
    {
      if username == "" {
        return Err(MissingField);
      }
      if role != "admin" && role != "readonly" && role != "user" {
        return Err(BadRole);
      }
      var i := FindUser(username);
      if i < |users| {
        return Err(UserExists);
      }
      users := users + [NewUser(username, "", role, source)];
      return Ok(());
    }

    method RecordFailure(u: User, env: Env, now: int)
      requires Fits(env)
      modifies bf
      ensures View() == NoteFailure(old(View()), env, u, now)
    {
      if bf != null && u.source != "oidc" && u.source != "ldap" {
        var _ := bf.RecordUsernameFailure(u.username, now);
      }
    }

    method RecordSuccess(u: User)
      modifies bf
      ensures View() == NoteSuccess(old(View()), u)
    {
      if bf != null && u.source != "oidc" && u.source != "ldap" {
        bf.RecordUsernameSuccess(u.username);
      }
    }

    method StartSession(i: nat, source: string, token: string, env: Env, now: int)
      requires i < |users| && Fits(env)
      modifies this`users, this`sessions
      ensures View() == OpenSession(old(View()), env, i, source, token, now)
    {
      users := users[i := users[i].(lastLogin := now)];
      sessions := sessions[token := Session(users[i].username, users[i].role, now + sessionDuration, now, source)];
    }

    /** Removes the user's first backup code that matches. */
    method ConsumeBackupCode(username: string, code: string, env: Env) returns (ok: bool)
      modifies this`users
      ensures var i := Find(old(users), username);
              if i < |old(users)| && FindCode(old(users)[i].backupCodes, env, code) < |old(users)[i].backupCodes|
              then ok && users == old(users)[i := DropCode(old(users)[i], FindCode(old(users)[i].backupCodes, env, code))]
              else !ok && users == old(users)
    {
      var i := FindUser(username);
      if i == |users| || users[i].backupCodes == [] {
        return false;
      }
      var codes := users[i].backupCodes;
      var k := 0;
      while k < |codes| && !env.check(code, codes[k])
        invariant k <= |codes|
        invariant forall j | 0 <= j < k :: !env.check(code, codes[j])
      {
        k := k + 1;
      }
      assert k == FindCode(codes, env, code);
      if k == |codes| {
        return false;
      }
      users := users[i := DropCode(users[i], k)];
      return true;
    }

    method Login(username: string, password: string, totpCode: string, token: string, env: Env, now: int)
      returns (r: LoginResult)
      requires Fits(env)
      modifies this`users, this`sessions, bf
      ensures (View(), r) == UserTable.Login(old(View()), env, username, password, totpCode, token, now)
    {
      var i := FindUser(username);
      if i == |users| {
        return Denied(InvalidCredentials);
      }
      var u := users[i];
      if u.disabled {
        return Denied(AccountDisabled);
      }
      if bf != null {
        var banned := bf.IsUsernameBanned(username, now);
        if banned {
          return Denied(AccountLocked);
        }
      }
      if !env.check(password, u.passwordHash) {
        RecordFailure(u, env, now);
        return Denied(InvalidCredentials);
      }
      if u.source != "oidc" && u.source != "ldap" && env.pwExpired(u, now) {
        return Denied(PasswordExpired);
      }
      if u.totpEnabled {
        if totpCode == "" {
          return NeedsTOTP;
        }
        if !env.totp(u.totpSecret, totpCode, now) {
          var ok := ConsumeBackupCode(username, totpCode, env);
          if !ok {
            RecordFailure(u, env, now);
            return Denied(InvalidCredentials);
          }
        }
      }
      StartSession(i, "local", token, env, now);
      RecordSuccess(users[i]);
      return Granted(token, u.role);
    }

    method IssueToken(username: string, source: string, token: string, env: Env, now: int)
      returns (r: Result<string, UserTable.Error>)
      requires Fits(env)
      modifies this`users, this`sessions
      ensures var spec := UserTable.IssueToken(old(View()), env, username, source, token, now);
              View() == (if spec.Ok? then spec.value else old(View()))
              && r == if spec.Ok? then Ok(token) else Err(spec.error)
    {
      var i := FindUser(username);
      if i == |users| {
        return Err(UserNotFound);
      }
      if users[i].disabled {
        return Err(UserDisabled);
      }
      if source != "oidc" && source != "ldap" && env.pwExpired(users[i], now) {
        return Err(PasswordTooOld);
      }
      StartSession(i, source, token, env, now);
      return Ok(token);
    }

    method ValidateToken(token: string, now: int) returns (r: Option<(string, string)>)
      modifies this`sessions
      ensures (View(), r) == UserTable.ValidateToken(old(View()), token, now)
    {
      if token !in sessions {
        return None;
      }
      var sess := sessions[token];
      if now > sess.expires {
        sessions := sessions - {token};
        return None;
      }
      return Some((sess.username, sess.role));
    }

    method PruneExpiredSessions(now: int)
      modifies this`sessions
      ensures View() == PruneExpired(old(View()), now)
    {
      var todo := sessions.Keys;
      while todo != {}
        invariant todo <= sessions.Keys <= old(sessions).Keys
        invariant forall t | t in sessions :: sessions[t] == old(sessions)[t] && (t in todo || now <= sessions[t].expires)
        invariant forall t | t in old(sessions) && t !in sessions :: now > old(sessions)[t].expires
        decreases todo
      {
        var t :| t in todo;
        todo := todo - {t};
        if now > sessions[t].expires {
          sessions := sessions - {t};
        }
      }
      assert sessions == PruneExpired(old(View()), now).sessions;
    }

    method Logout(token: string)
      modifies this`sessions
      ensures View() == Without(old(View()), token)
    {
      sessions := sessions - {token};
    }

    /** The loop that ends all sessions of a user. */
    method RevokeAllSessionsForUser(username: string) returns (count: nat)
      modifies this`sessions
      ensures View() == RevokeAll(old(View()), username)
      ensures count == |old(sessions)| - |sessions|
    {
      count := 0;
      var todo := sessions.Keys;
      while todo != {}
        invariant todo <= sessions.Keys <= old(sessions).Keys
        invariant forall t | t in sessions :: sessions[t] == old(sessions)[t] && (t in todo || sessions[t].username != username)
        invariant forall t | t in old(sessions) && t !in sessions :: old(sessions)[t].username == username
        invariant count == |old(sessions).Keys| - |sessions.Keys|
        decreases todo
      {
        var t :| t in todo;
        todo := todo - {t};
        if sessions[t].username == username {
          assert (sessions - {t}).Keys == sessions.Keys - {t};
          sessions := sessions - {t};
          count := count + 1;
        }
      }
      assert sessions == OthersOnly(old(sessions), username);
      assert |sessions| == |sessions.Keys| && |old(sessions)| == |old(sessions).Keys|;
    }

    method RevokeSessionByPrefix(tokenPrefix: string) returns (r: Result<(), UserTable.Error>, ghost matched: string)
      modifies this`sessions
      ensures r == if |tokenPrefix| < 6 then Err(PrefixTooShort)
                   else if exists t :: Matches(old(View()), tokenPrefix, t) then Ok(()) else Err(NoSession)
      ensures r.Ok? ==> Matches(old(View()), tokenPrefix, matched) && View() == Without(old(View()), matched)
      ensures r.Err? ==> View() == old(View())
    {
      matched := "";
      if |tokenPrefix| < 6 {
        r := Err(PrefixTooShort);
        return;
      }
      var todo := sessions.Keys;
      while todo != {}
        invariant sessions == old(sessions) && todo <= sessions.Keys
        invariant forall t | t in sessions && t !in todo :: !(tokenPrefix <= t)
        decreases todo
      {
        var t :| t in todo;
        if |t| >= |tokenPrefix| && t[..|tokenPrefix|] == tokenPrefix {
          matched := t;
          assert Matches(old(View()), tokenPrefix, t);
          sessions := sessions - {t};
          return Ok(()), matched;
        }
        todo := todo - {t};
      }
      r := Err(NoSession);
    }

    method DeleteUser(username: string) returns (r: Result<(), UserTable.Error>)
      modifies this`users, this`sessions
      ensures var spec := UserTable.DeleteUser(old(View()), username);
              View() == (if spec.Ok? then spec.value else old(View()))
              && r == if spec.Ok? then Ok(()) else Err(spec.error)
    {
      var i := FindUser(username);
      if i == |users| {
        return Err(UserNotFound);
      }
      users := users[..i] + users[i + 1..];
      var _ := RevokeAllSessionsForUser(username);
      return Ok(());
    }

    method SetRole(username: string, role: string) returns (r: Result<(), UserTable.Error>)
      modifies this`users, this`sessions
      ensures var spec := UserTable.SetRole(old(View()), username, role);
              View() == (if spec.Ok? then spec.value else old(View()))
              && r == if spec.Ok? then Ok(()) else Err(spec.error)
    {
      if role != "admin" && role != "readonly" && role != "user" {
        return Err(BadRole);
      }
      var i := FindUser(username);
      if i == |users| {
        return Err(UserNotFound);
      }
      users := users[i := users[i].(role := role)];
      var todo := sessions.Keys;
      while todo != {}
        invariant todo <= sessions.Keys == old(sessions).Keys
        invariant forall t | t in sessions :: sessions[t] == if t !in todo && old(sessions)[t].username == username
                                                             then Expired(username, role) else old(sessions)[t]
        invariant users == old(users)[i := old(users)[i].(role := role)] && bf == old(bf)
        decreases todo
      {
        var t :| t in todo;
        todo := todo - {t};
        if sessions[t].username == username {
          sessions := sessions[t := Expired(username, role)];
        }
      }
      assert sessions == ExpireUser(old(sessions), username, role);
      return Ok(());
    }

    method SetDisabled(username: string, disabled: bool) returns (r: Result<(), UserTable.Error>)
      modifies this`users, this`sessions
      ensures var spec := UserTable.SetDisabled(old(View()), username, disabled);
              View() == (if spec.Ok? then spec.value else old(View()))
              && r == if spec.Ok? then Ok(()) else Err(spec.error)
    {
      var i := FindUser(username);
      if i == |users| {
        return Err(UserNotFound);
      }
      users := users[i := users[i].(disabled := disabled)];
      if disabled {
        var _ := RevokeAllSessionsForUser(username);
      }
      return Ok(());
    }

    method UpdateUser(u: User) returns (r: Result<(), UserTable.Error>)
      modifies this`users
      ensures var spec := UserTable.UpdateUser(old(View()), u);
              View() == (if spec.Ok? then spec.value else old(View()))
              && r == if spec.Ok? then Ok(()) else Err(spec.error)
    {
      var i := FindUser(u.username);
      if i == |users| {
        return Err(UserNotFound);
      }
      users := users[i := u];
      return Ok(());
    }
  }
}
