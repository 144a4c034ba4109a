/**
 The authentication tables and the session store as one state, and each service call as one
 atomic step on it. Randomness, hashing and the IAM service are inputs: a step carries the jti
 and the refresh token it would draw and the answer IAM would give.
 */
module Auth {
  import opened Options
  import opened SessionStore

  const MAX_FAILED_ATTEMPTS := 5
  const FAILED_ATTEMPTS_WINDOW := 15 * 60
  const AUTO_LOCK := 30 * 60

  type Token = string

  datatype Credential = Credential(
    username: string, password: string, isActive: bool, mustChangePassword: bool, isDeleted: bool)
  datatype RefreshToken = RefreshToken(userId: UserId, expiresAt: int, revokedAt: Option<int>)
  datatype LoginHistory = LoginHistory(userId: Option<UserId>, username: string, isSuccess: bool, loggedInAt: int)
  datatype BlockedUser = BlockedUser(userId: UserId, until: Option<int>)

  datatype Config = Config(accessTtl: nat, refreshTtl: nat)

  /** `used` records the jtis already drawn; it only serves to say that a drawn jti is new. */
  datatype State = State(
    cfg: Config,
    store: Store,
    credentials: map<UserId, Credential>,
    tokens: map<Token, RefreshToken>,
    history: seq<LoginHistory>,
    blocks: seq<BlockedUser>,
    used: set<Jti>)

  /** IAM's answer for one user: whether the account exists and is active, and what it grants. */
  datatype IamUser = IamUser(active: bool, expiredAt: Option<int>, profile: Profile, grants: Grants)

  datatype Outcome =
    | Done
    | Issued(userId: UserId, jti: Jti, token: Token)
    | UnknownUsername
    | Blocked(userId: UserId)
    | Disabled(userId: UserId)
    | WrongPassword(userId: UserId)
    | NotActive(userId: UserId)
    | Expired(userId: UserId)
    | InvalidToken
    | NotFound
    | ConfirmationMismatch
    | UsernameTaken

  datatype Reply = Reply(state: State, outcome: Outcome)

  datatype Draw = Draw(jti: Jti, token: Token)

  datatype Action =
    | Login(username: string, password: string, iam: IamUser, today: int, draw: Draw)
    | Refresh(token: Token, iam: IamUser, today: int, draw: Draw)
    | Logout(session: Option<Jti>, refreshToken: Option<Token>)
    | SetCredential(userId: UserId, username: string, password: string)
    | CreateInitialCredential(userId: UserId, username: string, password: string)
    | ResetPassword(userId: UserId, username: string, password: string)
    | ChangePassword(userId: UserId, current: string, new_: string, confirm: string)
    | AdminRevoke(jti: Jti)
    | RefreshPermissions(userId: UserId, grants: Grants)
    | InvalidateAll(userId: UserId)
    | ListSessions(userId: UserId)
    | OperatorEdit(userId: UserId, isActive: bool, deleteIt: bool)
    | OperatorBlock(userId: UserId, until: Option<int>)
    | Wait(seconds: nat)

  // ---------------------------------------------------------------- reads

  predicate Holds(credentials: map<UserId, Credential>, username: string, u: UserId) {
    u in credentials && credentials[u].username == username && !credentials[u].isDeleted
  }

  /** The live credential with this username; the partial unique index allows at most one. */
  ghost function FindByUsername(credentials: map<UserId, Credential>, username: string): (r: Option<UserId>)
    ensures r.Some? ==> Holds(credentials, username, r.value)
    ensures r.None? ==> forall u :: !Holds(credentials, username, u)
  {
    if exists u :: Holds(credentials, username, u) then
      var u :| Holds(credentials, username, u);
      Some(u)
    else None
  }

  predicate BlocksAt(b: BlockedUser, u: UserId, now: int) {
    b.userId == u && (b.until.None? || b.until.value > now)
  }

  predicate IsBlocked(blocks: seq<BlockedUser>, u: UserId, now: int) {
    exists i :: 0 <= i < |blocks| && BlocksAt(blocks[i], u, now)
  }

  /** `YYYY-MM-DD` is inclusive: the account stays usable through that whole day. */
  predicate IsExpired(expiredAt: Option<int>, today: int) {
    expiredAt.Some? && today > expiredAt.value
  }

  predicate FailureOf(row: LoginHistory, u: UserId) {
    row.userId == Some(u) && !row.isSuccess
  }

  function Failures(history: seq<LoginHistory>, u: UserId): nat {
    if history == [] then 0
    else Failures(history[..|history| - 1], u) + if FailureOf(history[|history| - 1], u) then 1 else 0
  }

  function FailuresSince(history: seq<LoginHistory>, u: UserId, since: int): nat {
    if history == [] then 0
    else
      var row := history[|history| - 1];
      FailuresSince(history[..|history| - 1], u, since) + if FailureOf(row, u) && row.loggedInAt > since then 1 else 0
  }

  // ---------------------------------------------------------------- writes

  function Record(s: State, u: Option<UserId>, username: string, success: bool): State {
    s.(history := s.history + [LoginHistory(u, username, success, s.store.now)])
  }

  function LockAfterTooManyFailures(s: State, u: UserId): State {
    if Failures(s.history, u) < MAX_FAILED_ATTEMPTS then s
    else if FailuresSince(s.history, u, s.store.now - FAILED_ATTEMPTS_WINDOW) < MAX_FAILED_ATTEMPTS then s
    else s.(blocks := s.blocks + [BlockedUser(u, Some(s.store.now + AUTO_LOCK))])
  }

  function Revoked(row: RefreshToken, now: int): RefreshToken {
    if row.revokedAt.None? then row.(revokedAt := Some(now)) else row
  }

  function RevokeToken(s: State, t: Token): State {
    if t in s.tokens then s.(tokens := s.tokens[t := Revoked(s.tokens[t], s.store.now)]) else s
  }

  function RevokeTokensOf(s: State, u: UserId): State {
    s.(tokens := map t | t in s.tokens ::
      if s.tokens[t].userId == u then Revoked(s.tokens[t], s.store.now) else s.tokens[t])
  }

  function Issue(s: State, u: UserId, iam: IamUser, mustChange: bool, draw: Draw): State {
    s.(tokens := s.tokens[draw.token := RefreshToken(u, s.store.now + s.cfg.refreshTtl, None)],
       store := s.store.Create(draw.jti, Session(u, iam.profile, iam.grants, iam.expiredAt, mustChange),
         s.cfg.accessTtl),
       used := s.used + {draw.jti})
  }

  /** Saving a live credential under a username another live credential holds violates the index. */
  ghost predicate Taken(s: State, u: UserId, username: string) {
    !(u in s.credentials && s.credentials[u].isDeleted) && exists v :: v != u && Holds(s.credentials, username, v)
  }

  ghost function OnLogin(s: State, username: string, password: string, iam: IamUser, today: int, draw: Draw): Reply {
    match FindByUsername(s.credentials, username)
    case None => Reply(Record(s, None, username, false), UnknownUsername)
    case Some(u) =>
      var credential := s.credentials[u];
      var failed := Record(s, Some(u), username, false);
      if IsBlocked(s.blocks, u, s.store.now) then Reply(s, Blocked(u))
      else if !credential.isActive then Reply(failed, Disabled(u))
      else if credential.password != password then Reply(LockAfterTooManyFailures(failed, u), WrongPassword(u))
      else if !iam.active then Reply(failed, NotActive(u))
      else if IsExpired(iam.expiredAt, today) then Reply(failed, Expired(u))
      else Reply(Record(Issue(s, u, iam, credential.mustChangePassword, draw), Some(u), username, true),
                 Issued(u, draw.jti, draw.token))
  }

  predicate Redeemable(s: State, t: Token) {
    t in s.tokens && s.tokens[t].revokedAt.None? && s.tokens[t].expiresAt > s.store.now
  }

  function OnRefresh(s: State, t: Token, iam: IamUser, today: int, draw: Draw): Reply {
    if !Redeemable(s, t) then Reply(s, InvalidToken)
    else
      var u := s.tokens[t].userId;
      var spent := RevokeToken(s, t);
      if u !in s.credentials || !s.credentials[u].isActive then Reply(spent, InvalidToken)
      else if IsBlocked(s.blocks, u, s.store.now) then Reply(spent, Blocked(u))
      else if !iam.active then Reply(spent, NotActive(u))
      else if IsExpired(iam.expiredAt, today) then Reply(spent, Expired(u))
      else Reply(Issue(spent, u, iam, s.credentials[u].mustChangePassword, draw), Issued(u, draw.jti, draw.token))
  }

  function OnLogout(s: State, jti: Option<Jti>, t: Option<Token>): Reply {
    var ended := if jti.Some? then s.(store := s.store.Revoke(jti.value)) else s;
    Reply(if t.Some? then RevokeToken(ended, t.value) else ended, Done)
  }

  ghost function OnSetCredential(s: State, u: UserId, username: string, password: string): Reply {
    if Taken(s, u, username) then Reply(s, UsernameTaken)
    else
      var credential :=
        if u in s.credentials then s.credentials[u].(username := username, password := password, isActive := true)
        else Credential(username, password, true, false, false);
      Reply(s.(credentials := s.credentials[u := credential]), Done)
  }

  ghost function OnCreateInitialCredential(s: State, u: UserId, username: string, password: string): Reply {
    if Taken(s, u, username) then Reply(s, UsernameTaken)
    else Reply(s.(credentials := s.credentials[u := Credential(username, password, true, true, false)]), Done)
  }

  ghost function OnResetPassword(s: State, u: UserId, username: string, password: string): Reply {
    if Taken(s, u, username) then Reply(s, UsernameTaken)
    else
      var deleted := u in s.credentials && s.credentials[u].isDeleted;
      Reply(s.(credentials := s.credentials[u := Credential(username, password, true, true, deleted)],
               store := s.store.Rewrite(u, MustChange(true))), Done)
  }

  function OnChangePassword(s: State, u: UserId, current: string, new_: string, confirm: string): Reply {
    if new_ != confirm then Reply(s, ConfirmationMismatch)
    else if u !in s.credentials || s.credentials[u].isDeleted then Reply(s, NotFound)
    else if s.credentials[u].password != current then Reply(s, WrongPassword(u))
    else
      var credential := s.credentials[u].(password := new_, mustChangePassword := false);
      Reply(s.(credentials := s.credentials[u := credential],
               store := s.store.Rewrite(u, MustChange(false))), Done)
  }

  function OnAdminRevoke(s: State, jti: Jti): Reply {
    var session := s.store.Get(jti);
    if session.None? then Reply(s, NotFound)
    else Reply(RevokeTokensOf(s.(store := s.store.Revoke(jti)), session.value.userId), Done)
  }

  function OnOperatorEdit(s: State, u: UserId, isActive: bool, deleteIt: bool): Reply {
    if u !in s.credentials then Reply(s, NotFound)
    else
      var c := s.credentials[u];
      Reply(s.(credentials := s.credentials[u := c.(isActive := isActive, isDeleted := c.isDeleted || deleteIt)]), Done)
  }

  ghost function Step(s: State, a: Action): Reply {
    match a
    case Login(name, password, iam, today, draw) => OnLogin(s, name, password, iam, today, draw)
    case Refresh(t, iam, today, draw) => OnRefresh(s, t, iam, today, draw)
    case Logout(j, t) => OnLogout(s, j, t)
    case SetCredential(u, name, password) => OnSetCredential(s, u, name, password)
    case CreateInitialCredential(u, name, password) => OnCreateInitialCredential(s, u, name, password)
    case ResetPassword(u, name, password) => OnResetPassword(s, u, name, password)
    case ChangePassword(u, current, new_, confirm) => OnChangePassword(s, u, current, new_, confirm)
    case AdminRevoke(j) => OnAdminRevoke(s, j)
    case RefreshPermissions(u, g) => Reply(s.(store := s.store.Rewrite(u, NewGrants(g))), Done)
    case InvalidateAll(u) => Reply(s.(store := s.store.InvalidateAll(u)), Done)
    case ListSessions(u) => Reply(s.(store := s.store.Prune(u)), Done)
    case OperatorEdit(u, isActive, deleteIt) => OnOperatorEdit(s, u, isActive, deleteIt)
    case OperatorBlock(u, until) => Reply(s.(blocks := s.blocks + [BlockedUser(u, until)]), Done)
    case Wait(n) => Reply(s.(store := s.store.Wait(n)), Done)
  }

  /** Draws never repeat, and the first credential of a user is created once. */
  ghost predicate Enabled(s: State, a: Action) {
    match a
    case Login(_, _, _, _, draw) => draw.jti !in s.used && draw.token !in s.tokens
    case Refresh(_, _, _, draw) => draw.jti !in s.used && draw.token !in s.tokens
    case CreateInitialCredential(u, _, _) => u !in s.credentials
    case _ => true
  }

  ghost predicate Initial(s: State) {
    && s.store.keys == map[] && s.store.index == map[] && s.credentials == map[]
    && s.tokens == map[] && s.history == [] && s.blocks == [] && s.used == {}
  }

  /** A run: the states before and after each action, and what each action answered. */
  datatype Trace = Trace(states: seq<State>, actions: seq<Action>, outcomes: seq<Outcome>)

  ghost predicate Edge(t: Trace, i: nat)
    requires |t.states| == |t.actions| + 1 == |t.outcomes| + 1 && i < |t.actions|
  {
    Enabled(t.states[i], t.actions[i]) && Step(t.states[i], t.actions[i]) == Reply(t.states[i + 1], t.outcomes[i])
  }

  ghost predicate Run(t: Trace) {
    && |t.states| == |t.actions| + 1 == |t.outcomes| + 1
    && Initial(t.states[0])
    && forall i :: 0 <= i < |t.actions| ==> Edge(t, i)
  }

  /** A reachable state together with the facts every call preserves. */
  ghost predicate Inv(s: State) {
    && Coherent(s.store, s.used)
    && (forall j :: s.store.Live(j) ==> s.store.keys[j].session.userId in s.credentials)
    && (forall j :: s.store.Live(j) ==> FlagAgrees(s, j))
    && (forall name, u, v :: Holds(s.credentials, name, u) && Holds(s.credentials, name, v) ==> u == v)
  }

  /** A session carries the flag of its owner's credential. */
  ghost predicate FlagAgrees(s: State, j: Jti)
    requires j in s.store.keys
  {
    var session := s.store.keys[j].session;
    session.userId in s.credentials && session.mustChangePassword == s.credentials[session.userId].mustChangePassword
  }
}
