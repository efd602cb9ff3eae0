/**
 * The authentication service (internal/service/auth_service.go): Login checks
 * a login/password pair and replaces the user's sessions with one fresh
 * session; ValidateToken accepts a token whose session is at most 24 hours old.
 *
 * `LoginEffect` and `Validate` say what the two operations do to, and read
 * from, the session table; the methods of `AuthService` are proved to do
 * exactly that, and the lemmas below prove the single-session policy and the
 * expiry rule from them. The clock is the `now` argument; the random source
 * is the `random` argument (the bytes it delivers before failing).
 */
module Service {
  import opened Models
  import opened Sql
  import opened Utils
  import opened Repository

  /** How long a session is accepted after it is created. */
  const SessionTTL: Duration := 24 * Hour

  /** Login asks for a token of this many random bytes. */
  const TokenBytes: nat := 16

  datatype AuthError =
    | InvalidCredentials            // "invalid login/password"
    | InvalidToken                  // "invalid token"
    | SessionExpired                // "session expired"
    | StoreFailure(dbError: DbError)  // a session-store error, passed through unchanged
    | TokenFailure(ioError: IoError)  // the random source could not fill the token

  /** The credential check: the user with this login, provided the password hashes to the stored hash. */
  function Authenticate(users: Table<User>, sum: string -> Digest, login: string, password: string): (r: Result<User, AuthError>)
    ensures r.Success? ==> r.value in users.rows && r.value.login == login
    ensures r.Success? ==> r.value.passwordHash == Md5Hash(sum, password)
    ensures r.Failure? ==> r.error == InvalidCredentials
  {
    match QueryRow(users, LoginIs(login))
    case Failure(_) => Failure(InvalidCredentials)
    case Success(user) =>
      if user.passwordHash != Md5Hash(sum, password) then Failure(InvalidCredentials) else Success(user)
  }

  /** What Login returns and the session table it leaves behind. */
  datatype LoginOutcome = LoginOutcome(result: Result<string, AuthError>, sessions: seq<Session>)

  /**
   * Login's effect: credentials first (nothing touched on failure), then
   * DELETE the user's sessions, then draw a token, then INSERT the new session.
   * `sessions.online` is whether the DELETE reaches the store and
   * `insertOnline` whether the INSERT does: the connection may be lost in
   * between. A failure after the DELETE keeps the DELETE.
   */
  function LoginEffect(users: Table<User>, sessions: Table<Session>, sum: string -> Digest,
                       login: string, password: string, ip: string, now: Timestamp,
                       random: seq<byte>, insertOnline: bool): (o: LoginOutcome)
    ensures Authenticate(users, sum, login, password).Failure? ==> o == LoginOutcome(Failure(InvalidCredentials), sessions.rows)
    ensures o.result.Failure? ==> forall s :: s in o.sessions ==> s in sessions.rows
    ensures o.result.Failure? ==>
              || o.sessions == sessions.rows
              || (Authenticate(users, sum, login, password).Success?
                  && o.sessions == DeleteWhere(sessions.rows, UidIs(Authenticate(users, sum, login, password).value.id)))
    ensures o.result.Success? ==>
              && Authenticate(users, sum, login, password).Success?
              && sessions.online && insertOnline && |random| >= TokenBytes
              && |o.result.value| == 2 * TokenBytes && IsLowerHex(o.result.value)
              && |o.sessions| > 0
              && o.sessions[|o.sessions| - 1]
                 == Session(o.result.value, Authenticate(users, sum, login, password).value.id, ip, now)
  {
    match Authenticate(users, sum, login, password)
    case Failure(e) => LoginOutcome(Failure(e), sessions.rows)
    case Success(user) =>
      if !sessions.online then LoginOutcome(Failure(StoreFailure(ConnectionFailure)), sessions.rows)
      else
        var remaining := DeleteWhere(sessions.rows, UidIs(user.id));
        match TokenFrom(TokenBytes, random)
        case Failure(e) => LoginOutcome(Failure(TokenFailure(e)), remaining)
        case Success(token) =>
          if !insertOnline then LoginOutcome(Failure(StoreFailure(ConnectionFailure)), remaining)
          else if HasSessionId(remaining, token) then LoginOutcome(Failure(StoreFailure(UniqueViolation)), remaining)
          else LoginOutcome(Success(token), remaining + [Session(token, user.id, ip, now)])
  }

  /** ValidateToken's answer: the session holding the token, unless it is missing or older than `ttl`. */
  function Validate(sessions: Table<Session>, ttl: Duration, token: string, now: Timestamp): (r: Result<Session, AuthError>)
    ensures r.Success? ==> r.value in sessions.rows && r.value.id == token && now - r.value.createdAt <= ttl
    ensures r.Failure? ==> r.error == InvalidToken || r.error == SessionExpired
    ensures r == Failure(InvalidToken) <==> !sessions.online || !HasSessionId(sessions.rows, token)
  {
    match QueryRow(sessions, IdIs(token))
    case Failure(_) => Failure(InvalidToken)
    case Success(s) => if now - s.createdAt > ttl then Failure(SessionExpired) else Success(s)
  }

  /** At most one session per user: the invariant the delete-then-insert in Login keeps. */
  predicate OneSessionPerUser(rows: seq<Session>)
  {
    Distinct(rows, SessionUid)
  }

  class AuthService {
    const userRepo: UserRepository
    const sessionRepo: SessionRepository
    const sessionTTL: Duration
    /** The MD5 digest, injected. */
    const sum: string -> Digest

    constructor (userRepo: UserRepository, sessionRepo: SessionRepository, sum: string -> Digest)
      ensures this.userRepo == userRepo && this.sessionRepo == sessionRepo && this.sum == sum
      ensures sessionTTL == SessionTTL
    {
      this.userRepo := userRepo;
      this.sessionRepo := sessionRepo;
      this.sum := sum;
      sessionTTL := SessionTTL;
    }

    /** Login: on success the token of the user's only session; on failure "" and the error. */
    method Login(login: string, password: string, ip: string, now: Timestamp, random: seq<byte>)
      returns (token: string, err: Option<AuthError>)
      requires sessionRepo.Valid()
      modifies sessionRepo
      ensures sessionRepo.Valid() && sessionRepo.online == old(sessionRepo.online)
      ensures var o := LoginEffect(userRepo.View(), old(sessionRepo.View()), sum, login, password, ip, now, random,
                                  old(sessionRepo.online));
              && sessionRepo.rows == o.sessions
              && (err.None? ==> o.result == Success(token))
              && (err.Some? ==> o.result == Failure(err.value) && token == "")
    {
      var found := userRepo.FindByLogin(login);
      if found.Failure? {
        return "", Some(InvalidCredentials);
      }
      var user := found.value;
      var hashed := Md5Hash(sum, password);
      if user.passwordHash != hashed {
        return "", Some(InvalidCredentials);
      }
      var e := sessionRepo.DeleteByUID(user.id);
      if e.Some? {
        return "", Some(StoreFailure(e.value));
      }
      var sessionID, ioErr := GenerateToken(TokenBytes, random);
      if ioErr.Some? {
        return "", Some(TokenFailure(ioErr.value));
      }
      e := sessionRepo.Create(Session(sessionID, user.id, ip, now));
      if e.Some? {
        return "", Some(StoreFailure(e.value));
      }
      return sessionID, None;
    }

    /** ValidateToken: reads the session table and changes nothing. */
    method ValidateToken(token: string, now: Timestamp) returns (r: Result<Session, AuthError>)
      ensures r == Validate(sessionRepo.View(), sessionTTL, token, now)
    {
      var found := sessionRepo.FindByID(token);
      if found.Failure? {
        return Failure(InvalidToken);
      }
      var sess := found.value;
      if now - sess.createdAt > sessionTTL {
        return Failure(SessionExpired);
      }
      return Success(sess);
    }
  }

  /** With logins unique and the users table reachable, the credential check succeeds exactly for a matching user. */
  lemma AuthenticateExact(users: Table<User>, sum: string -> Digest, login: string, password: string)
    requires users.online && Distinct(users.rows, UserLogin)
    ensures Authenticate(users, sum, login, password).Success?
        <==> exists u :: u in users.rows && u.login == login && u.passwordHash == Md5Hash(sum, password)
  {
    if u :| u in users.rows && u.login == login {
      FindByLoginUnique(users.rows, u);
    }
  }

  /**
   * An unknown login and a known login with a wrong password fail identically
   * (same error, session table untouched), so a caller cannot tell them apart.
   */
  lemma UnknownLoginLikeWrongPassword(users: Table<User>, sessions: Table<Session>, sum: string -> Digest,
                                      unknown: string, known: string, password1: string, password2: string,
                                      ip1: string, ip2: string, now1: Timestamp, now2: Timestamp,
                                      random1: seq<byte>, random2: seq<byte>,
                                      insertOnline1: bool, insertOnline2: bool)
    requires Distinct(users.rows, UserLogin) && !HasLogin(users.rows, unknown)
    requires exists u :: u in users.rows && u.login == known && u.passwordHash != Md5Hash(sum, password2)
    ensures LoginEffect(users, sessions, sum, unknown, password1, ip1, now1, random1, insertOnline1)
         == LoginEffect(users, sessions, sum, known, password2, ip2, now2, random2, insertOnline2)
         == LoginOutcome(Failure(InvalidCredentials), sessions.rows)
  {
    var u :| u in users.rows && u.login == known && u.passwordHash != Md5Hash(sum, password2);
    if users.online {
      FindByLoginUnique(users.rows, u);
    }
  }

  /**
   * Login succeeds for a stored user with the right password, reachable
   * stores, enough random bytes and a token not already in use: the user's
   * old sessions are replaced by one holding the new token.
   */
  lemma LoginSucceeds(users: Table<User>, sessions: Table<Session>, sum: string -> Digest,
                      user: User, password: string, ip: string, now: Timestamp, random: seq<byte>)
    requires users.online && sessions.online
    requires Distinct(users.rows, UserLogin) && user in users.rows && user.passwordHash == Md5Hash(sum, password)
    requires |random| >= TokenBytes && !HasSessionId(sessions.rows, TokenFrom(TokenBytes, random).value)
    ensures var token := TokenFrom(TokenBytes, random).value;
            LoginEffect(users, sessions, sum, user.login, password, ip, now, random, true)
              == LoginOutcome(Success(token), DeleteWhere(sessions.rows, UidIs(user.id)) + [Session(token, user.id, ip, now)])
  {
    FindByLoginUnique(users.rows, user);
    assert Authenticate(users, sum, user.login, password) == Success(user);
  }

  /**
   * After a successful Login the user holds exactly one session, the new one
   * (returned token, caller's ip, created now); every other user's sessions
   * are exactly as before.
   */
  lemma {:induction false} LoginLeavesOneSession(users: Table<User>, sessions: Table<Session>, sum: string -> Digest,
                                                 login: string, password: string, ip: string, now: Timestamp,
                                                 random: seq<byte>, insertOnline: bool)
    requires LoginEffect(users, sessions, sum, login, password, ip, now, random, insertOnline).result.Success?
    ensures Authenticate(users, sum, login, password).Success?
    ensures var user := Authenticate(users, sum, login, password).value;
            var o := LoginEffect(users, sessions, sum, login, password, ip, now, random, insertOnline);
            && Where(o.sessions, UidIs(user.id)) == [Session(o.result.value, user.id, ip, now)]
            && forall v :: v != user.id ==> Where(o.sessions, UidIs(v)) == Where(sessions.rows, UidIs(v))
  {
    var user := Authenticate(users, sum, login, password).value;
    var o := LoginEffect(users, sessions, sum, login, password, ip, now, random, insertOnline);
    var remaining := DeleteWhere(sessions.rows, UidIs(user.id));
    var newSession := Session(o.result.value, user.id, ip, now);
    assert o.sessions == remaining + [newSession];
    WhereAppend(remaining, [newSession], UidIs(user.id));
    DeleteByUidScope(sessions.rows, user.id, user.id);
    assert Where([newSession], UidIs(user.id)) == [newSession];
    forall v | v != user.id
      ensures Where(o.sessions, UidIs(v)) == Where(sessions.rows, UidIs(v))
    {
      WhereAppend(remaining, [newSession], UidIs(v));
      DeleteByUidScope(sessions.rows, user.id, v);
      assert Where([newSession], UidIs(v)) == [];
    }
  }

  /** Login, successful or not, keeps token ids unique and keeps at most one session per user. */
  lemma LoginKeepsInvariants(users: Table<User>, sessions: Table<Session>, sum: string -> Digest,
                             login: string, password: string, ip: string, now: Timestamp, random: seq<byte>,
                             insertOnline: bool)
    requires Distinct(sessions.rows, SessionId) && OneSessionPerUser(sessions.rows)
    ensures var o := LoginEffect(users, sessions, sum, login, password, ip, now, random, insertOnline);
            Distinct(o.sessions, SessionId) && OneSessionPerUser(o.sessions)
  {
    var o := LoginEffect(users, sessions, sum, login, password, ip, now, random, insertOnline);
    var auth := Authenticate(users, sum, login, password);
    if auth.Success? && sessions.online {
      var user := auth.value;
      var remaining := DeleteWhere(sessions.rows, UidIs(user.id));
      WhereDistinct(sessions.rows, Not(UidIs(user.id)), SessionId);
      WhereDistinct(sessions.rows, Not(UidIs(user.id)), SessionUid);
      if o.result.Success? {
        var newSession := Session(o.result.value, user.id, ip, now);
        AppendDistinct(remaining, newSession, SessionId);
        AppendDistinct(remaining, newSession, SessionUid);
      }
    }
  }

  /**
   * Store and token failures. If the DELETE fails the table is untouched; if
   * anything fails after the DELETE, the user is left with no session at all,
   * and the error says which step failed: the random source running short,
   * the INSERT losing the connection, or the INSERT meeting a taken token.
   */
  lemma LoginFailureAfterCredentials(users: Table<User>, sessions: Table<Session>, sum: string -> Digest,
                                     login: string, password: string, ip: string, now: Timestamp,
                                     random: seq<byte>, insertOnline: bool)
    requires Authenticate(users, sum, login, password).Success?
    ensures var o := LoginEffect(users, sessions, sum, login, password, ip, now, random, insertOnline);
            !sessions.online ==> o == LoginOutcome(Failure(StoreFailure(ConnectionFailure)), sessions.rows)
    ensures var user := Authenticate(users, sum, login, password).value;
            var o := LoginEffect(users, sessions, sum, login, password, ip, now, random, insertOnline);
            sessions.online && o.result.Failure? ==>
              && Where(o.sessions, UidIs(user.id)) == []
              && (o.result.error.TokenFailure? <==> |random| < TokenBytes)
              && (o.result.error == StoreFailure(ConnectionFailure) <==> |random| >= TokenBytes && !insertOnline)
              && (o.result.error == StoreFailure(UniqueViolation) <==> |random| >= TokenBytes && insertOnline)
              && forall v :: v != user.id ==> Where(o.sessions, UidIs(v)) == Where(sessions.rows, UidIs(v))
  {
    var user := Authenticate(users, sum, login, password).value;
    DeleteByUidScope(sessions.rows, user.id, user.id);
    forall v | v != user.id
      ensures Where(DeleteWhere(sessions.rows, UidIs(user.id)), UidIs(v)) == Where(sessions.rows, UidIs(v))
    {
      DeleteByUidScope(sessions.rows, user.id, v);
    }
  }

  /** The token a successful Login returns is accepted for the session's whole lifetime and no longer. */
  lemma LoginTokenAccepted(users: Table<User>, sessions: Table<Session>, sum: string -> Digest, ttl: Duration,
                           login: string, password: string, ip: string, now: Timestamp, random: seq<byte>,
                           insertOnline: bool, later: Timestamp)
    requires LoginEffect(users, sessions, sum, login, password, ip, now, random, insertOnline).result.Success?
    ensures Authenticate(users, sum, login, password).Success?
    ensures var user := Authenticate(users, sum, login, password).value;
            var o := LoginEffect(users, sessions, sum, login, password, ip, now, random, insertOnline);
            Validate(Table(o.sessions, sessions.online), ttl, o.result.value, later)
              == if later - now > ttl then Failure(SessionExpired) else Success(Session(o.result.value, user.id, ip, now))
  {
    var user := Authenticate(users, sum, login, password).value;
    var o := LoginEffect(users, sessions, sum, login, password, ip, now, random, insertOnline);
    var remaining := DeleteWhere(sessions.rows, UidIs(user.id));
    var newSession := Session(o.result.value, user.id, ip, now);
    assert o.sessions == remaining + [newSession];
    WhereAppend(remaining, [newSession], IdIs(newSession.id));
    assert Where([newSession], IdIs(newSession.id)) == [newSession];
  }

  /**
   * A second successful Login by the same user revokes the first token at
   * once: it is then refused as "invalid token", not "session expired".
   */
  lemma SecondLoginRevokesFirst(users: Table<User>, sessions: Table<Session>, sum: string -> Digest, ttl: Duration,
                                login: string, password1: string, password2: string, ip1: string, ip2: string,
                                now1: Timestamp, now2: Timestamp, now: Timestamp,
                                random1: seq<byte>, random2: seq<byte>,
                                insertOnline1: bool, insertOnline2: bool)
    requires var o1 := LoginEffect(users, sessions, sum, login, password1, ip1, now1, random1, insertOnline1);
             var o2 := LoginEffect(users, Table(o1.sessions, sessions.online), sum, login, password2, ip2, now2, random2, insertOnline2);
             o1.result.Success? && o2.result.Success? && o1.result.value != o2.result.value
    ensures var o1 := LoginEffect(users, sessions, sum, login, password1, ip1, now1, random1, insertOnline1);
            var o2 := LoginEffect(users, Table(o1.sessions, sessions.online), sum, login, password2, ip2, now2, random2, insertOnline2);
            Validate(Table(o2.sessions, sessions.online), ttl, o1.result.value, now) == Failure(InvalidToken)
  {
    var o1 := LoginEffect(users, sessions, sum, login, password1, ip1, now1, random1, insertOnline1);
    var o2 := LoginEffect(users, Table(o1.sessions, sessions.online), sum, login, password2, ip2, now2, random2, insertOnline2);
    var t1, t2 := o1.result.value, o2.result.value;
    var user := Authenticate(users, sum, login, password1).value;
    assert Authenticate(users, sum, login, password2).value == user;
    var remaining1 := DeleteWhere(sessions.rows, UidIs(user.id));
    var remaining2 := DeleteWhere(o1.sessions, UidIs(user.id));
    var s1, s2 := Session(t1, user.id, ip1, now1), Session(t2, user.id, ip2, now2);
    assert o1.sessions == remaining1 + [s1];
    assert o2.sessions == remaining2 + [s2];
    forall x | x in o2.sessions ensures x.id != t1 {
      if x in remaining2 {
        assert x in o1.sessions && x.uid != user.id;
        assert x !in remaining1 ==> x == s1;
      }
    }
  }

  /** Validate of a stored session: accepted up to and including `ttl` after creation, "session expired" beyond. */
  lemma ValidateExpiry(sessions: Table<Session>, ttl: Duration, s: Session, now: Timestamp)
    requires sessions.online && Distinct(sessions.rows, SessionId) && s in sessions.rows
    ensures Validate(sessions, ttl, s.id, now) == if now - s.createdAt > ttl then Failure(SessionExpired) else Success(s)
  {
    FindByIdUnique(sessions.rows, s);
  }

  /** The 24-hour boundary: a session exactly 24 hours old is accepted, one nanosecond later it is expired. */
  lemma ExpiryBoundary(sessions: Table<Session>, s: Session)
    requires sessions.online && Distinct(sessions.rows, SessionId) && s in sessions.rows
    ensures Validate(sessions, SessionTTL, s.id, s.createdAt + 24 * Hour) == Success(s)
    ensures Validate(sessions, SessionTTL, s.id, s.createdAt + 24 * Hour + 1) == Failure(SessionExpired)
  {
    ValidateExpiry(sessions, SessionTTL, s, s.createdAt + 24 * Hour);
    ValidateExpiry(sessions, SessionTTL, s, s.createdAt + 24 * Hour + 1);
  }

  /**
   * DeleteExpired(now - ttl) removes exactly the sessions Validate already
   * calls expired at `now`: a live session stays live, an expired one
   * becomes unknown, and an unknown token stays unknown.
   */
  lemma SweepRemovesOnlyExpired(sessions: Table<Session>, ttl: Duration, token: string, now: Timestamp)
    requires sessions.online && Distinct(sessions.rows, SessionId)
    ensures var swept := Table(DeleteWhere(sessions.rows, CreatedBefore(now - ttl)), true);
            var before := Validate(sessions, ttl, token, now);
            Validate(swept, ttl, token, now) == if before == Failure(SessionExpired) then Failure(InvalidToken) else before
  {
    var kept := DeleteWhere(sessions.rows, CreatedBefore(now - ttl));
    WhereDistinct(sessions.rows, Not(CreatedBefore(now - ttl)), SessionId);
    if s :| s in sessions.rows && s.id == token {
      ValidateExpiry(sessions, ttl, s, now);
      if s in kept {
        ValidateExpiry(Table(kept, true), ttl, s, now);
      } else {
        forall x | x in kept ensures x.id != token {
          if x.id == token {
            FindByIdUnique(sessions.rows, x);
            FindByIdUnique(sessions.rows, s);
          }
        }
      }
    }
  }
}
