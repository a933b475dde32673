/** Users and sessions: what each operation of the user store does, as a function of the state.
    Times are nanoseconds; each operation takes one clock reading. */
module UserTable {
  import opened Wrappers
  import opened Times
  import BruteForce
  import Sequences

  datatype User = User(
    username: string, passwordHash: string, role: string, totpSecret: string, totpEnabled: bool,
    source: string, backupCodes: seq<string>, lastLogin: int, disabled: bool, pwChangedAt: string)

  datatype Session = Session(username: string, role: string, expires: int, createdAt: int, source: string)

  /** The store; `attempts` is the failure table of the tracker, if one is set. */
  datatype Store = Store(users: seq<User>, sessions: map<string, Session>, attempts: Option<BruteForce.Table>)

  /** What the store takes from elsewhere: password and TOTP checks, the password-age policy, the
      thresholds, and how long a session lasts. */
  datatype Env = Env(
    check: (string, string) -> bool, totp: (string, string, int) -> bool, pwExpired: (User, int) -> bool,
    limits: BruteForce.Limits, sessionDuration: int)

  datatype Reason = InvalidCredentials | AccountDisabled | AccountLocked | PasswordExpired

  datatype LoginResult = Granted(token: string, role: string) | NeedsTOTP | Denied(reason: Reason)

  datatype Error = MissingField | BadRole | UserExists | UserNotFound | UserDisabled | PasswordTooOld
                 | HashFailed | PrefixTooShort | NoSession

  predicate ValidRole(role: string) {
    role == "admin" || role == "readonly" || role == "user"
  }

  predicate IsLocal(u: User) {
    u.source != "oidc" && u.source != "ldap"
  }

  /** The position of the user, or the length when there is none. */
  function Find(users: seq<User>, username: string): (i: nat)
    ensures i <= |users|
    ensures i < |users| ==> users[i].username == username
    ensures forall j | 0 <= j < i :: users[j].username != username
  {
    Sequences.IndexWhere(users, (u: User) => u.username == username)
  }

  predicate Exists(s: Store, username: string) {
    Find(s.users, username) < |s.users|
  }

  /** The sessions of everyone but `username`. */
  function OthersOnly(sessions: map<string, Session>, username: string): map<string, Session> {
    map t | t in sessions && sessions[t].username != username :: sessions[t]
  }

  function SetUser(s: Store, i: nat, u: User): Store
    requires i < |s.users|
  {
    s.(users := s.users[i := u])
  }

  // ---------------------------------------------------------------- operations

  function AddUser(s: Store, u: User): Result<Store, Error> {
    if Exists(s, u.username) then Err(UserExists) else Ok(s.(users := s.users + [u]))
  }

  function NewUser(username: string, hash: string, role: string, source: string): User {
    User(username, hash, role, "", false, source, [], ZERO_TIME, false, "")
  }

  /** `hash` is the password hash, None when hashing failed. */
  function Register(s: Store, username: string, password: string, role: string, hash: Option<string>): Result<Store, Error> {
    if username == "" || password == "" then Err(MissingField)
    else if !ValidRole(role) then Err(BadRole)
    else if Exists(s, username) then Err(UserExists)
    else if hash.None? then Err(HashFailed)
    else AddUser(s, NewUser(username, hash.value, role, ""))
  }

  function RegisterExternal(s: Store, username: string, role: string, source: string): Result<Store, Error> {
    if username == "" then Err(MissingField)
    else if !ValidRole(role) then Err(BadRole)
    else AddUser(s, NewUser(username, "", role, source))
  }

  /** Counts a failed login against a local user. */
  function NoteFailure(s: Store, env: Env, u: User, now: int): Store {
    if s.attempts.Some? && IsLocal(u)
    then s.(attempts := Some(BruteForce.Failure(s.attempts.value, env.limits, u.username, now))) else s
  }

  function NoteSuccess(s: Store, u: User): Store {
    if s.attempts.Some? && IsLocal(u) then s.(attempts := Some(BruteForce.Success(s.attempts.value, u.username))) else s
  }

  /** The first backup code that the given one matches. */
  function FindCode(codes: seq<string>, env: Env, code: string): (i: nat)
    ensures i <= |codes|
    ensures i < |codes| ==> env.check(code, codes[i])
    ensures forall j | 0 <= j < i :: !env.check(code, codes[j])
  {
    Sequences.IndexWhere(codes, (c: string) => env.check(code, c))
  }

  function DropCode(u: User, i: nat): User
    requires i < |u.backupCodes|
  {
    u.(backupCodes := u.backupCodes[..i] + u.backupCodes[i + 1..])
  }

  /** A new session for the i-th user. */
  function OpenSession(s: Store, env: Env, i: nat, source: string, token: string, now: int): Store
    requires i < |s.users|
  {
    var u := s.users[i].(lastLogin := now);
    SetUser(s, i, u).(sessions := s.sessions[token := Session(u.username, u.role, now + env.sessionDuration, now, source)])
  }

  function Grant(s: Store, env: Env, i: nat, token: string, now: int): (Store, LoginResult)
    requires i < |s.users|
  {
    (NoteSuccess(OpenSession(s, env, i, "local", token, now), s.users[i]), Granted(token, s.users[i].role))
  }

  /** `token` is the token to be handed out, should the login succeed. */
  function Login(s: Store, env: Env, username: string, password: string, code: string, token: string, now: int)
    : (Store, LoginResult)
  {
    var i := Find(s.users, username);
    if i == |s.users| then (s, Denied(InvalidCredentials))
    else
      var u := s.users[i];
      if u.disabled then (s, Denied(AccountDisabled))
      else if s.attempts.Some? && BruteForce.Banned(s.attempts.value, username, now) then (s, Denied(AccountLocked))
      else if !env.check(password, u.passwordHash) then (NoteFailure(s, env, u, now), Denied(InvalidCredentials))
      else if IsLocal(u) && env.pwExpired(u, now) then (s, Denied(PasswordExpired))
      else if !u.totpEnabled then Grant(s, env, i, token, now)
      else if code == "" then (s, NeedsTOTP)
      else if env.totp(u.totpSecret, code, now) then Grant(s, env, i, token, now)
      else
        var k := FindCode(u.backupCodes, env, code);
        if k == |u.backupCodes| then (NoteFailure(s, env, u, now), Denied(InvalidCredentials))
        else Grant(SetUser(s, i, DropCode(u, k)), env, i, token, now)
  }

  function IssueToken(s: Store, env: Env, username: string, source: string, token: string, now: int): Result<Store, Error> {
    var i := Find(s.users, username);
    if i == |s.users| then Err(UserNotFound)
    else if s.users[i].disabled then Err(UserDisabled)
    else if source != "oidc" && source != "ldap" && env.pwExpired(s.users[i], now) then Err(PasswordTooOld)
    else Ok(OpenSession(s, env, i, source, token, now))
  }

  function Without(s: Store, token: string): Store {
    s.(sessions := s.sessions - {token})
  }

  /** The user name and role of a token, None when it is not accepted; an expired session goes. */
  function ValidateToken(s: Store, token: string, now: int): (Store, Option<(string, string)>) {
    if token !in s.sessions then (s, None)
    else if now > s.sessions[token].expires then (Without(s, token), None)
    else (s, Some((s.sessions[token].username, s.sessions[token].role)))
  }

  function PruneExpired(s: Store, now: int): Store {
    s.(sessions := map t | t in s.sessions && now <= s.sessions[t].expires :: s.sessions[t])
  }

  function DeleteUser(s: Store, username: string): Result<Store, Error> {
    var i := Find(s.users, username);
    if i == |s.users| then Err(UserNotFound)
    else Ok(s.(users := s.users[..i] + s.users[i + 1..], sessions := OthersOnly(s.sessions, username)))
  }

  /** The session that replaces a user's sessions when the role changes: it has the zero expiry. */
  function Expired(username: string, role: string): Session {
    Session(username, role, ZERO_TIME, ZERO_TIME, "")
  }

  function ExpireUser(sessions: map<string, Session>, username: string, role: string): map<string, Session> {
    map t | t in sessions :: if sessions[t].username == username then Expired(username, role) else sessions[t]
  }

  function SetRole(s: Store, username: string, role: string): Result<Store, Error> {
    var i := Find(s.users, username);
    if !ValidRole(role) then Err(BadRole)
    else if i == |s.users| then Err(UserNotFound)
    else Ok(SetUser(s, i, s.users[i].(role := role)).(sessions := ExpireUser(s.sessions, username, role)))
  }

  function SetDisabled(s: Store, username: string, disabled: bool): Result<Store, Error> {
    var i := Find(s.users, username);
    if i == |s.users| then Err(UserNotFound)
    else
      var t := SetUser(s, i, s.users[i].(disabled := disabled));
      Ok(if disabled then t.(sessions := OthersOnly(s.sessions, username)) else t)
  }

  function RevokeAll(s: Store, username: string): Store {
    s.(sessions := OthersOnly(s.sessions, username))
  }

  predicate Matches(s: Store, prefix: string, token: string) {
    token in s.sessions && prefix <= token
  }

  /** Replaces the record of an existing user. */
  function UpdateUser(s: Store, u: User): Result<Store, Error> {
    var i := Find(s.users, u.username);
    if i == |s.users| then Err(UserNotFound) else Ok(SetUser(s, i, u))
  }

  // ---------------------------------------------------------------- consistency

  ghost predicate UniqueNames(users: seq<User>) {
    forall i, j | 0 <= i < j < |users| :: users[i].username != users[j].username
  }

  /** The user exists, is not disabled, and has this role. */
  ghost predicate Holds(users: seq<User>, username: string, role: string) {
    exists i | 0 <= i < |users| :: users[i].username == username && !users[i].disabled && users[i].role == role
  }

  /** Usernames are unique, and every session is of an enabled user and carries that user's role. */
  ghost predicate Consistent(s: Store) {
    && UniqueNames(s.users)
    && forall t | t in s.sessions :: Holds(s.users, s.sessions[t].username, s.sessions[t].role)
  }

  lemma {:induction false} HoldsAt(users: seq<User>, username: string, role: string)
    requires Holds(users, username, role) && UniqueNames(users)
    ensures var i := Find(users, username);
            i < |users| && !users[i].disabled && users[i].role == role
  {
    var k :| 0 <= k < |users| && users[k].username == username && !users[k].disabled && users[k].role == role;
    var i := Find(users, username);
    assert i == k;
  }

  lemma {:induction false} SetUserKeepsNames(users: seq<User>, i: nat, u: User)
    requires i < |users| && UniqueNames(users) && u.username == users[i].username
    ensures UniqueNames(users[i := u])
  {
  }

  /** Replacing a record keeps what holds of the others. */
  lemma {:induction false} HoldsElsewhere(users: seq<User>, i: nat, u: User, username: string, role: string)
    requires i < |users| && u.username == users[i].username
    requires Holds(users, username, role)
    requires username != u.username || (!u.disabled && u.role == role)
    ensures Holds(users[i := u], username, role)
  {
    var k :| 0 <= k < |users| && users[k].username == username && !users[k].disabled && users[k].role == role;
    assert users[i := u][k] == if k == i then u else users[k];
  }

  lemma {:induction false} AddKeepsConsistent(s: Store, u: User)
    requires Consistent(s) && AddUser(s, u).Ok?
    ensures Consistent(AddUser(s, u).value)
  {
    var users := s.users + [u];
    forall t | t in s.sessions
      ensures Holds(users, s.sessions[t].username, s.sessions[t].role)
    {
      HoldsAt(s.users, s.sessions[t].username, s.sessions[t].role);
      var i := Find(s.users, s.sessions[t].username);
      assert users[i] == s.users[i];
    }
  }

  /** A record that keeps name, role and the enabled state keeps the store consistent. */
  lemma {:induction false} AmendKeepsConsistent(s: Store, i: nat, u: User)
    requires Consistent(s) && i < |s.users|
    requires u.username == s.users[i].username && u.role == s.users[i].role && u.disabled == s.users[i].disabled
    ensures Consistent(SetUser(s, i, u))
  {
    SetUserKeepsNames(s.users, i, u);
    forall t | t in s.sessions
      ensures Holds(s.users[i := u], s.sessions[t].username, s.sessions[t].role)
    {
      var name, role := s.sessions[t].username, s.sessions[t].role;
      HoldsAt(s.users, name, role);
      if name == u.username {
        OnlyAt(s.users, i);
      }
      HoldsElsewhere(s.users, i, u, name, role);
    }
  }

  lemma {:induction false} OnlyAt(users: seq<User>, i: nat)
    requires i < |users| && UniqueNames(users)
    ensures Find(users, users[i].username) == i
  {
  }

  lemma {:induction false} OpenKeepsConsistent(s: Store, env: Env, i: nat, source: string, token: string, now: int)
    requires Consistent(s) && i < |s.users| && !s.users[i].disabled
    ensures Consistent(OpenSession(s, env, i, source, token, now))
  {
    var u := s.users[i].(lastLogin := now);
    AmendKeepsConsistent(s, i, u);
    var after := OpenSession(s, env, i, source, token, now);
    assert after.users[i] == u;
    assert Holds(after.users, u.username, u.role);
  }

  lemma {:induction false} LoginKeepsConsistent(s: Store, env: Env, username: string, password: string, code: string, token: string, now: int)
    requires Consistent(s)
    ensures Consistent(Login(s, env, username, password, code, token, now).0)
  {
    var i := Find(s.users, username);
    if i < |s.users| && !s.users[i].disabled {
      var u := s.users[i];
      OpenKeepsConsistent(s, env, i, "local", token, now);
      var k := FindCode(u.backupCodes, env, code);
      if k < |u.backupCodes| {
        AmendKeepsConsistent(s, i, DropCode(u, k));
        OpenKeepsConsistent(SetUser(s, i, DropCode(u, k)), env, i, "local", token, now);
      }
    }
  }

  lemma {:induction false} FewerSessionsKeepConsistent(s: Store, t: Store)
    requires Consistent(s) && t.users == s.users
    requires forall k | k in t.sessions :: k in s.sessions && t.sessions[k] == s.sessions[k]
    ensures Consistent(t)
  {
  }

  lemma {:induction false} DeleteKeepsConsistent(s: Store, username: string)
    requires Consistent(s) && DeleteUser(s, username).Ok?
    ensures Consistent(DeleteUser(s, username).value)
  {
    var t, i := DeleteUser(s, username).value, Find(s.users, username);
    forall k | k in t.sessions
      ensures Holds(t.users, t.sessions[k].username, t.sessions[k].role)
    {
      HoldsAt(s.users, s.sessions[k].username, s.sessions[k].role);
      var j := Find(s.users, s.sessions[k].username);
      assert t.users[if j < i then j else j - 1] == s.users[j];
    }
    forall a, b | 0 <= a < b < |t.users|
      ensures t.users[a].username != t.users[b].username
    {
      assert t.users[a] == s.users[if a < i then a else a + 1];
      assert t.users[b] == s.users[if b < i then b else b + 1];
    }
  }

  lemma {:induction false} SetRoleKeepsConsistent(s: Store, username: string, role: string)
    requires Consistent(s) && SetRole(s, username, role).Ok?
    ensures Consistent(SetRole(s, username, role).value)
  {
    var t, i := SetRole(s, username, role).value, Find(s.users, username);
    var u := s.users[i].(role := role);
    SetUserKeepsNames(s.users, i, u);
    forall k | k in t.sessions
      ensures Holds(t.users, t.sessions[k].username, t.sessions[k].role)
    {
      HoldsAt(s.users, s.sessions[k].username, s.sessions[k].role);
      if s.sessions[k].username == username {
        assert t.users[i] == u;
      } else {
        HoldsElsewhere(s.users, i, u, s.sessions[k].username, s.sessions[k].role);
      }
    }
  }

  lemma {:induction false} SetDisabledKeepsConsistent(s: Store, username: string, disabled: bool)
    requires Consistent(s) && SetDisabled(s, username, disabled).Ok?
    ensures Consistent(SetDisabled(s, username, disabled).value)
  {
    var t, i := SetDisabled(s, username, disabled).value, Find(s.users, username);
    var u := s.users[i].(disabled := disabled);
    SetUserKeepsNames(s.users, i, u);
    forall k | k in t.sessions
      ensures Holds(t.users, t.sessions[k].username, t.sessions[k].role)
    {
      HoldsAt(s.users, s.sessions[k].username, s.sessions[k].role);
      HoldsElsewhere(s.users, i, u, s.sessions[k].username, s.sessions[k].role);
    }
  }

  /** Replacing a record keeps the store consistent exactly when the user has no session, or stays
      enabled and keeps the role. */
  lemma {:induction false} UpdateKeepsConsistent(s: Store, u: User)
    requires Consistent(s) && UpdateUser(s, u).Ok?
    ensures Consistent(UpdateUser(s, u).value) <==>
              || (forall t | t in s.sessions :: s.sessions[t].username != u.username)
              || (!u.disabled && u.role == s.users[Find(s.users, u.username)].role)
  {
    var t, i := UpdateUser(s, u).value, Find(s.users, u.username);
    SetUserKeepsNames(s.users, i, u);
    forall k | k in s.sessions
      ensures s.sessions[k].username == u.username ==>
                s.sessions[k].role == s.users[i].role
                && (Holds(t.users, u.username, s.sessions[k].role) <==> !u.disabled && u.role == s.users[i].role)
      ensures s.sessions[k].username != u.username ==> Holds(t.users, s.sessions[k].username, s.sessions[k].role)
    {
      HoldsAt(s.users, s.sessions[k].username, s.sessions[k].role);
      if s.sessions[k].username == u.username {
        assert t.users[i] == u;
        OnlyAt(t.users, i);
        if Holds(t.users, u.username, s.sessions[k].role) {
          HoldsAt(t.users, u.username, s.sessions[k].role);
        }
      } else {
        HoldsElsewhere(s.users, i, u, s.sessions[k].username, s.sessions[k].role);
      }
    }
  }
}
