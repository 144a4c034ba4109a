/**
 The authentication service as an object over its tables and the session store. Every method
 writes row by row, in the order of the service, and is proved to take the step the model gives.
 */
module AuthService {
  import opened Options
  import opened SessionStore
  import opened Auth
  import Sessions = SessionStoreService

  class AuthService {
    const cfg: Config
    const sessions: Sessions.SessionStoreService
    var credentials: map<UserId, Credential>
    var tokens: map<Token, RefreshToken>
    var history: seq<LoginHistory>
    var blocks: seq<BlockedUser>
    ghost var used: set<Jti>

    ghost function Abs(): State
      reads this, sessions
    {
      State(cfg, sessions.State(), credentials, tokens, history, blocks, used)
    }

    constructor (cfg: Config, now: int)
      ensures fresh(sessions) && Initial(Abs()) && Abs().cfg == cfg && Abs().store.now == now
    {
      this.cfg := cfg;
      this.sessions := new Sessions.SessionStoreService(now);
      this.credentials, this.tokens, this.history, this.blocks, this.used := map[], map[], [], [], {};
    }

    method FindCredential(username: string) returns (r: Option<UserId>)
      requires Inv(Abs())
      ensures r == FindByUsername(credentials, username)
    {
      r := None;
      var todo := credentials.Keys;
      while todo != {}
        invariant todo <= credentials.Keys
        invariant r.Some? ==> Holds(credentials, username, r.value)
        invariant r.None? ==> forall u :: Holds(credentials, username, u) ==> u in todo
      {
        var u :| u in todo;
        if credentials[u].username == username && !credentials[u].isDeleted {
          assert Holds(Abs().credentials, username, u);
          return Some(u);
        }
        todo := todo - {u};
      }
    }

    method IsTaken(userId: UserId, username: string) returns (taken: bool)
      requires Inv(Abs())
      ensures taken == Taken(Abs(), userId, username)
    {
      if userId in credentials && credentials[userId].isDeleted {
        return false;
      }
      var holder := FindCredential(username);
      return holder.Some? && holder.value != userId;
    }

    method RecordLoginAttempt(userId: Option<UserId>, username: string, isSuccess: bool)
      modifies this`history
      ensures Abs() == Record(old(Abs()), userId, username, isSuccess)
    {
      history := history + [LoginHistory(userId, username, isSuccess, sessions.now)];
    }

    method LockAfterTooManyFailures(userId: UserId)
      modifies this`blocks
      ensures Abs() == Auth.LockAfterTooManyFailures(old(Abs()), userId)
    {
      var since := sessions.now - FAILED_ATTEMPTS_WINDOW;
      var recentFailures := Failures(history, userId);
      if recentFailures < MAX_FAILED_ATTEMPTS {
        return;
      }
      var recentFailuresInWindow := FailuresSince(history, userId, since);
      if recentFailuresInWindow < MAX_FAILED_ATTEMPTS {
        return;
      }
      blocks := blocks + [BlockedUser(userId, Some(sessions.now + AUTO_LOCK))];
    }

    method IssueTokens(userId: UserId, iam: IamUser, mustChange: bool, draw: Draw)
      modifies this`tokens, this`used, sessions
      ensures Abs() == Issue(old(Abs()), userId, iam, mustChange, draw)
    {
      tokens := tokens[draw.token := RefreshToken(userId, sessions.now + cfg.refreshTtl, None)];
      sessions.Create(draw.jti, Session(userId, iam.profile, iam.grants, iam.expiredAt, mustChange), cfg.accessTtl);
      used := used + {draw.jti};
    }

    method Login(username: string, password: string, iam: IamUser, today: int, draw: Draw) returns (outcome: Outcome)
      requires Inv(Abs())
      modifies this, sessions
      ensures Reply(Abs(), outcome) == OnLogin(old(Abs()), username, password, iam, today, draw)
    {
      var found := FindCredential(username);
      if found.None? {
        RecordLoginAttempt(None, username, false);
        return UnknownUsername;
      }
      var userId := found.value;
      var credential := credentials[userId];
      if IsBlocked(blocks, userId, sessions.now) {
        return Blocked(userId);
      }
      if !credential.isActive {
        RecordLoginAttempt(Some(userId), username, false);
        return Disabled(userId);
      }
      if credential.password != password {
        RecordLoginAttempt(Some(userId), username, false);
        LockAfterTooManyFailures(userId);
        return WrongPassword(userId);
      }
      if !iam.active {
        RecordLoginAttempt(Some(userId), username, false);
        return NotActive(userId);
      }
      if IsExpired(iam.expiredAt, today) {
        RecordLoginAttempt(Some(userId), username, false);
        return Expired(userId);
      }
      IssueTokens(userId, iam, credential.mustChangePassword, draw);
      RecordLoginAttempt(Some(userId), username, true);
      return Issued(userId, draw.jti, draw.token);
    }

    method Refresh(token: Token, iam: IamUser, today: int, draw: Draw) returns (outcome: Outcome)
      modifies this, sessions
      ensures Reply(Abs(), outcome) == OnRefresh(old(Abs()), token, iam, today, draw)
    {
      if token !in tokens || tokens[token].revokedAt.Some? || tokens[token].expiresAt <= sessions.now {
        return InvalidToken;
      }
      var row := tokens[token];
      tokens := tokens[token := row.(revokedAt := Some(sessions.now))];
      if row.userId !in credentials || !credentials[row.userId].isActive {
        return InvalidToken;
      }
      if IsBlocked(blocks, row.userId, sessions.now) {
        return Blocked(row.userId);
      }
      if !iam.active {
        return NotActive(row.userId);
      }
      if IsExpired(iam.expiredAt, today) {
        return Expired(row.userId);
      }
      IssueTokens(row.userId, iam, credentials[row.userId].mustChangePassword, draw);
      return Issued(row.userId, draw.jti, draw.token);
    }

    method Logout(jti: Option<Jti>, refreshToken: Option<Token>) returns (outcome: Outcome)
      modifies this`tokens, sessions
      ensures Reply(Abs(), outcome) == OnLogout(old(Abs()), jti, refreshToken)
    {
      if jti.Some? {
        sessions.Revoke(jti.value);
      }
      if refreshToken.Some? {
        var t := refreshToken.value;
        if t in tokens && tokens[t].revokedAt.None? {
          tokens := tokens[t := tokens[t].(revokedAt := Some(sessions.now))];
        } else if t in tokens {
          assert tokens[t := tokens[t]] == tokens;
        }
      }
      return Done;
    }

    method SetCredential(userId: UserId, username: string, password: string) returns (outcome: Outcome)
      requires Inv(Abs())
      modifies this`credentials
      ensures Reply(Abs(), outcome) == OnSetCredential(old(Abs()), userId, username, password)
    {
      var credential;
      if userId in credentials {
        credential := credentials[userId].(username := username, password := password, isActive := true);
      } else {
        credential := Credential(username, password, true, false, false);
      }
      var taken := IsTaken(userId, username);
      if taken {
        return UsernameTaken;
      }
      credentials := credentials[userId := credential];
      return Done;
    }

    /** The very first credential of a user: there is no row for them yet. */
    method CreateInitialCredential(userId: UserId, username: string, password: string) returns (outcome: Outcome)
      requires Inv(Abs()) && userId !in credentials
      modifies this`credentials
      ensures Reply(Abs(), outcome) == OnCreateInitialCredential(old(Abs()), userId, username, password)
    {
      var taken := IsTaken(userId, username);
      if taken {
        return UsernameTaken;
      }
      credentials := credentials[userId := Credential(username, password, true, true, false)];
      return Done;
    }

    method ResetPassword(userId: UserId, username: string, password: string) returns (outcome: Outcome)
      requires Inv(Abs())
      modifies this`credentials, sessions
      ensures Reply(Abs(), outcome) == OnResetPassword(old(Abs()), userId, username, password)
    {
      var credential;
      if userId in credentials {
        credential := credentials[userId].(
          username := username, password := password, isActive := true, mustChangePassword := true);
      } else {
        credential := Credential(username, password, true, true, false);
      }
      var taken := IsTaken(userId, username);
      if taken {
        return UsernameTaken;
      }
      credentials := credentials[userId := credential];
      var _ := sessions.SetMustChangePasswordForUser(userId, true);
      return Done;
    }

    method ChangePassword(userId: UserId, current: string, new_: string, confirm: string) returns (outcome: Outcome)
      modifies this`credentials, sessions
      ensures Reply(Abs(), outcome) == OnChangePassword(old(Abs()), userId, current, new_, confirm)
    {
      if new_ != confirm {
        return ConfirmationMismatch;
      }
      if userId !in credentials || credentials[userId].isDeleted {
        return NotFound;
      }
      var credential := credentials[userId];
      if credential.password != current {
        return WrongPassword(userId);
      }
      credentials := credentials[userId := credential.(password := new_, mustChangePassword := false)];
      var _ := sessions.SetMustChangePasswordForUser(userId, false);
      return Done;
    }

    /** The admin action of the sessions service, which shares these tables. */
    method AdminRevoke(jti: Jti) returns (outcome: Outcome)
      modifies this`tokens, sessions
      ensures Reply(Abs(), outcome) == OnAdminRevoke(old(Abs()), jti)
    {
      var session := sessions.Get(jti);
      if session.None? {
        return NotFound;
      }
      sessions.Revoke(jti);
      tokens := map t | t in tokens ::
        if tokens[t].userId == session.value.userId && tokens[t].revokedAt.None?
        then tokens[t].(revokedAt := Some(sessions.now)) else tokens[t];
      return Done;
    }
  }
}
