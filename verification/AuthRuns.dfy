/** What every run of the authentication service keeps. */
module AuthRuns {
  import opened Options
  import opened SessionStore
  import opened Auth
  import opened AuthGuard

  // ---------------------------------------------------------------- the invariant

  /** History, blocks and token rows are irrelevant to the invariant. */
  lemma {:induction false} InvIgnores(s: State, t: State)
    requires Inv(s) && t.store == s.store && t.credentials == s.credentials && t.used == s.used
    ensures Inv(t)
  {
    assert forall j :: s.store.Live(j) ==> (FlagAgrees(t, j) <==> FlagAgrees(s, j));
  }

  /** A store that only loses sessions keeps the invariant. */
  lemma {:induction false} InvShrinks(s: State, store: Store)
    requires Inv(s) && Coherent(store, s.used)
    requires forall j :: store.Live(j) ==>
               && s.store.Live(j)
               && store.keys[j].session.userId == s.store.keys[j].session.userId
               && store.keys[j].session.mustChangePassword == s.store.keys[j].session.mustChangePassword
    ensures Inv(s.(store := store))
  {
    var t := s.(store := store);
    forall j | t.store.Live(j) ensures FlagAgrees(t, j) {
      assert FlagAgrees(s, j);
    }
  }

  lemma {:induction false} IssueInv(s: State, u: UserId, iam: IamUser, draw: Draw)
    requires Inv(s) && u in s.credentials && draw.jti !in s.used
    ensures Inv(Issue(s, u, iam, s.credentials[u].mustChangePassword, draw))
  {
    var must := s.credentials[u].mustChangePassword;
    var t := Issue(s, u, iam, must, draw);
    CreateCoherent(s.store, s.used, draw.jti, Session(u, iam.profile, iam.grants, iam.expiredAt, must),
      s.cfg.accessTtl);
    forall j | t.store.Live(j) ensures FlagAgrees(t, j) {
      if j != draw.jti {
        assert FlagAgrees(s, j);
      }
    }
  }

  /** Saving a credential and then rewriting the flag of its sessions keeps them in agreement. */
  lemma {:induction false} SaveInv(s: State, u: UserId, c: Credential, store: Store)
    requires Inv(s)
    requires c.isDeleted || forall v :: v != u ==> !Holds(s.credentials, c.username, v)
    requires store == s.store.Rewrite(u, MustChange(c.mustChangePassword)) ||
             (store == s.store && (u in s.credentials ==> s.credentials[u].mustChangePassword == c.mustChangePassword))
    ensures Inv(s.(credentials := s.credentials[u := c], store := store))
  {
    var t := s.(credentials := s.credentials[u := c], store := store);
    ListedIsOwned(s.store, s.used, u);
    if store != s.store {
      RewriteCoherent(s.store, s.used, u, MustChange(c.mustChangePassword));
    }
    forall j | t.store.Live(j) ensures FlagAgrees(t, j) {
      assert s.store.Live(j) && FlagAgrees(s, j);
    }
    forall name, x, y | Holds(t.credentials, name, x) && Holds(t.credentials, name, y) ensures x == y {
      assert x != u ==> Holds(s.credentials, name, x);
      assert y != u ==> Holds(s.credentials, name, y);
    }
  }

  lemma {:induction false} CredentialStepInv(s: State, a: Action)
    requires Inv(s) && Enabled(s, a)
    requires a.SetCredential? || a.CreateInitialCredential? || a.ResetPassword? || a.ChangePassword? || a.OperatorEdit?
    ensures Inv(Step(s, a).state)
  {
    var t := Step(s, a).state;
    if t != s {
      assert a.userId in s.credentials && !s.credentials[a.userId].isDeleted ==>
               Holds(s.credentials, s.credentials[a.userId].username, a.userId);
      SaveInv(s, a.userId, t.credentials[a.userId], t.store);
      assert t == s.(credentials := s.credentials[a.userId := t.credentials[a.userId]], store := t.store);
    }
  }

  lemma {:induction false} RevokeStepInv(s: State, a: Action)
    requires Inv(s) && Enabled(s, a) && (a.Logout? || a.AdminRevoke?)
    ensures Inv(Step(s, a).state)
  {
    var t := Step(s, a).state;
    match a {
      case Logout(j, _) => if j.Some? { RevokeCoherent(s.store, s.used, j.value); }
      case AdminRevoke(j) => RevokeCoherent(s.store, s.used, j);
    }
    InvShrinks(s, t.store);
    InvIgnores(s.(store := t.store), t);
  }

  lemma {:induction false} StoreStepInv(s: State, a: Action)
    requires Inv(s) && Enabled(s, a)
    requires a.RefreshPermissions? || a.InvalidateAll? || a.ListSessions? || a.Wait?
    ensures Inv(Step(s, a).state)
  {
    var t := Step(s, a).state;
    match a {
      case RefreshPermissions(u, g) => RewriteCoherent(s.store, s.used, u, NewGrants(g));
      case InvalidateAll(u) => InvalidateCoherent(s.store, s.used, u);
      case ListSessions(u) => PruneCoherent(s.store, s.used, u);
      case Wait(n) => ShrinkCoherent(s.store, s.store.Wait(n), s.used);
    }
    InvShrinks(s, t.store);
    InvIgnores(s.(store := t.store), t);
  }

  lemma {:induction false} LoginInv(s: State, a: Action)
    requires Inv(s) && Enabled(s, a) && a.Login?
    ensures Inv(Step(s, a).state)
  {
    var r := Step(s, a);
    if r.outcome.Issued? {
      var u := r.outcome.userId;
      IssueInv(s, u, a.iam, a.draw);
      InvIgnores(Issue(s, u, a.iam, s.credentials[u].mustChangePassword, a.draw), r.state);
    } else {
      InvIgnores(s, r.state);
    }
  }

  lemma {:induction false} RefreshInv(s: State, a: Action)
    requires Inv(s) && Enabled(s, a) && a.Refresh?
    ensures Inv(Step(s, a).state)
  {
    var r := Step(s, a);
    var spent := RevokeToken(s, a.token);
    InvIgnores(s, spent);
    if r.outcome.Issued? {
      IssueInv(spent, r.outcome.userId, a.iam, a.draw);
    }
  }

  lemma {:induction false} StepInv(s: State, a: Action)
    requires Inv(s) && Enabled(s, a)
    ensures Inv(Step(s, a).state)
  {
    if a.Login? {
      LoginInv(s, a);
    } else if a.Refresh? {
      RefreshInv(s, a);
    } else if a.OperatorBlock? {
      InvIgnores(s, Step(s, a).state);
    } else if a.Logout? || a.AdminRevoke? {
      RevokeStepInv(s, a);
    } else if a.RefreshPermissions? || a.InvalidateAll? || a.ListSessions? || a.Wait? {
      StoreStepInv(s, a);
    } else {
      CredentialStepInv(s, a);
    }
  }

  lemma {:induction false} RunInv(t: Trace, i: nat)
    requires Run(t) && i < |t.states|
    ensures Inv(t.states[i])
  {
    if i > 0 {
      RunInv(t, i - 1);
      assert Edge(t, i - 1);
      StepInv(t.states[i - 1], t.actions[i - 1]);
    }
  }

  lemma {:induction false} StepGrows(s: State, a: Action)
    ensures var r := Step(s, a).state; s.store.now <= r.store.now && s.blocks <= r.blocks
  {
  }

  lemma {:induction false} Grows(t: Trace, i: nat, k: nat)
    requires Run(t) && i <= k < |t.states|
    ensures t.states[i].store.now <= t.states[k].store.now
    ensures t.states[i].blocks <= t.states[k].blocks
    decreases k
  {
    if i < k {
      Grows(t, i, k - 1);
      assert Edge(t, k - 1);
      StepGrows(t.states[k - 1], t.actions[k - 1]);
    }
  }

  // ---------------------------------------------------------------- forced password change

  ghost predicate Flagged(s: State, u: UserId) {
    u in s.credentials && s.credentials[u].mustChangePassword
  }

  ghost predicate ChangedPassword(a: Action, outcome: Outcome, u: UserId) {
    a.ChangePassword? && a.userId == u && outcome == Done
  }

  lemma {:induction false} FlagStep(s: State, a: Action, u: UserId)
    requires Enabled(s, a) && Flagged(s, u) && !ChangedPassword(a, Step(s, a).outcome, u)
    ensures Flagged(Step(s, a).state, u)
  {
  }

  /** Only the user's own successful change clears the flag. */
  lemma {:induction false} FlagPersists(t: Trace, u: UserId, i: nat, k: nat)
    requires Run(t) && i <= k < |t.states| && Flagged(t.states[i], u)
    requires forall m :: i <= m < k ==> !ChangedPassword(t.actions[m], t.outcomes[m], u)
    ensures Flagged(t.states[k], u)
    decreases k
  {
    if i < k {
      FlagPersists(t, u, i, k - 1);
      assert Edge(t, k - 1);
      FlagStep(t.states[k - 1], t.actions[k - 1], u);
    }
  }

  /** From a reset until that user's next successful change, no session of theirs is admitted. */
  lemma {:induction false} ResetShutsOut(
    t: Trace, i: nat, k: nat, u: UserId, route: Route, sub: UserId, jti: Jti, today: int)
    requires Run(t) && i < k < |t.states|
    requires t.actions[i].ResetPassword? && t.actions[i].userId == u && t.outcomes[i] == Done
    requires forall m :: i < m < k ==> !ChangedPassword(t.actions[m], t.outcomes[m], u)
    requires Guarded(route)
    requires t.states[k].store.Live(jti) ==> t.states[k].store.keys[jti].session.userId == u
    ensures CanActivate(route, Verified(sub, jti), t.states[k].store, today).Refused?
  {
    assert Edge(t, i);
    FlagPersists(t, u, i + 1, k);
    RunInv(t, k);
    assert t.states[k].store.Live(jti) ==> FlagAgrees(t.states[k], jti);
  }

  /** In every reachable state the guard asks for a change exactly when the credential does. */
  lemma {:induction false} GuardFollowsCredential(t: Trace, k: nat, route: Route, sub: UserId, jti: Jti, today: int)
    requires Run(t) && k < |t.states| && Guarded(route) && t.states[k].store.Live(jti)
    ensures var s := t.states[k];
            var session := s.store.keys[jti].session;
            && session.userId in s.credentials
            && (CanActivate(route, Verified(sub, jti), s.store, today).Admitted? <==>
                !s.credentials[session.userId].mustChangePassword && !IsExpired(session.expiredAt, today))
  {
    RunInv(t, k);
    assert FlagAgrees(t.states[k], jti);
  }

  // ---------------------------------------------------------------- who gets a session

  /** What a login or a refresh for `u` has to bring. */
  ghost predicate Entitled(s: State, a: Action, u: UserId)
    requires a.Login? || a.Refresh?
  {
    && u in s.credentials && s.credentials[u].isActive && !IsBlocked(s.blocks, u, s.store.now)
    && a.iam.active && (a.iam.expiredAt.Some? ==> a.today <= a.iam.expiredAt.value)
    && (a.Login? ==> Holds(s.credentials, a.username, u) && s.credentials[u].password == a.password)
    && (a.Refresh? ==> Redeemable(s, a.token) && s.tokens[a.token].userId == u)
  }

  /** In every reachable state, exactly the entitled get a session, with a lifetime and their flag. */
  lemma {:induction false} IssuedIffEntitled(t: Trace, k: nat, u: UserId)
    requires Run(t) && k < |t.actions| && (t.actions[k].Login? || t.actions[k].Refresh?)
    ensures IssuedTo(t.outcomes[k], u) <==> Entitled(t.states[k], t.actions[k], u)
    ensures IssuedTo(t.outcomes[k], u) ==>
              var s, r, jti := t.states[k], t.states[k + 1], t.actions[k].draw.jti;
              && jti in r.store.keys && r.store.keys[jti].expiresAt == s.store.now + s.cfg.accessTtl
              && r.store.keys[jti].session ==
                   var iam := t.actions[k].iam;
                   Session(u, iam.profile, iam.grants, iam.expiredAt, s.credentials[u].mustChangePassword)
  {
    RunInv(t, k);
    assert Edge(t, k);
  }

  /** A soft-deleted credential shuts its owner out of logins, but not out of refreshes. */
  lemma {:induction false} DeletedOnlyRefreshes(t: Trace, k: nat, u: UserId)
    requires Run(t) && k < |t.actions| && (t.actions[k].Login? || t.actions[k].Refresh?)
    requires u in t.states[k].credentials && t.states[k].credentials[u].isDeleted
    ensures t.actions[k].Login? ==> !IssuedTo(t.outcomes[k], u)
    ensures t.actions[k].Refresh? ==>
              var s, a := t.states[k], t.actions[k];
              IssuedTo(t.outcomes[k], u) <==>
                && Redeemable(s, a.token) && s.tokens[a.token].userId == u && s.credentials[u].isActive
                && !IsBlocked(s.blocks, u, s.store.now)
                && a.iam.active && (a.iam.expiredAt.Some? ==> a.today <= a.iam.expiredAt.value)
  {
    IssuedIffEntitled(t, k, u);
  }

  // ---------------------------------------------------------------- the session index

  /** Reading through the index sees exactly what a scan of every key would, in every reachable state. */
  lemma {:induction false} IndexAgreesWithScan(t: Trace, k: nat, u: UserId)
    requires Run(t) && k < |t.states|
    ensures t.states[k].store.Listed(u) == t.states[k].store.Owned(u)
  {
    RunInv(t, k);
    ListedIsOwned(t.states[k].store, t.states[k].used, u);
  }

  /** Ending a user's sessions ends all of them and nobody else's, in every reachable state. */
  lemma {:induction false} InvalidateAllEndsExactly(t: Trace, k: nat, j: Jti)
    requires Run(t) && k < |t.actions| && t.actions[k].InvalidateAll?
    ensures t.states[k + 1].store.Live(j) <==>
            t.states[k].store.Live(j) && t.states[k].store.keys[j].session.userId != t.actions[k].userId
  {
    RunInv(t, k);
    assert Edge(t, k);
    InvalidateEndsExactly(t.states[k].store, t.states[k].used, t.actions[k].userId, j);
  }

  ghost predicate NoYounger(s: Store, t: Store, j: Jti) {
    t.Live(j) ==>
      s.Live(j) && t.keys[j].session.userId == s.keys[j].session.userId && t.keys[j].expiresAt == s.keys[j].expiresAt
  }

  /** The session store moves by at most one store call per step. */
  ghost predicate StoreMoves(s: State, t: State, c: Option<Call>) {
    if c.None? then t.store == s.store && t.used == s.used
    else Fresh(c.value, s.used) && t.store == Do(s.store, c.value) && t.used == Used(c.value, s.used)
  }

  /** The store call a step makes. */
  ghost function CallOf(s: State, a: Action): Option<Call> {
    var r := Step(s, a);
    match a
    case Login(_, _, iam, _, draw) => IssueCall(s, r.outcome, iam, draw)
    case Refresh(_, iam, _, draw) => IssueCall(s, r.outcome, iam, draw)
    case Logout(j, _) => if j.Some? then Some(Revoke(j.value)) else None
    case ResetPassword(u, _, _) => if r.outcome.Done? then Some(Rewrite(u, MustChange(true))) else None
    case ChangePassword(u, _, _, _) => if r.outcome.Done? then Some(Rewrite(u, MustChange(false))) else None
    case AdminRevoke(j) => if r.outcome.Done? then Some(Revoke(j)) else None
    case RefreshPermissions(u, g) => Some(Rewrite(u, NewGrants(g)))
    case InvalidateAll(u) => Some(Call.InvalidateAll(u))
    case ListSessions(u) => Some(List(u))
    case Wait(n) => Some(Call.Wait(n))
    case _ => None
  }

  ghost function IssueCall(s: State, outcome: Outcome, iam: IamUser, draw: Draw): Option<Call> {
    if outcome.Issued? && outcome.userId in s.credentials then
      var must := s.credentials[outcome.userId].mustChangePassword;
      Some(Create(draw.jti, Session(outcome.userId, iam.profile, iam.grants, iam.expiredAt, must), s.cfg.accessTtl))
    else None
  }

  lemma {:induction false} IssueMoves(s: State, a: Action)
    requires Enabled(s, a) && (a.Login? || a.Refresh?)
    ensures StoreMoves(s, Step(s, a).state, CallOf(s, a))
  {
  }

  lemma {:induction false} OtherMoves(s: State, a: Action)
    requires Enabled(s, a) && !a.Login? && !a.Refresh?
    ensures StoreMoves(s, Step(s, a).state, CallOf(s, a))
  {
  }

  lemma {:induction false} StepMoves(s: State, a: Action)
    requires Enabled(s, a)
    ensures StoreMoves(s, Step(s, a).state, CallOf(s, a))
  {
    if a.Login? || a.Refresh? { IssueMoves(s, a); } else { OtherMoves(s, a); }
  }

  lemma {:induction false} StepKeepsDead(s: State, a: Action, j: Jti)
    requires Inv(s) && Enabled(s, a) && j in s.used
    ensures j in Step(s, a).state.used
    ensures NoYounger(s.store, Step(s, a).state.store, j)
  {
    StepMoves(s, a);
    var c := CallOf(s, a);
    if c.Some? {
      DeadStaysDead(s.store, s.used, c.value, j);
    }
  }

  /** A jti that was drawn and is no longer live never becomes live again; while it lives, its
      owner and its expiry never change. */
  lemma {:induction false} DeadForever(t: Trace, i: nat, k: nat, j: Jti)
    requires Run(t) && i <= k < |t.states| && j in t.states[i].used
    ensures j in t.states[k].used && NoYounger(t.states[i].store, t.states[k].store, j)
    decreases k
  {
    if i < k {
      DeadForever(t, i, k - 1, j);
      RunInv(t, k - 1);
      assert Edge(t, k - 1);
      StepKeepsDead(t.states[k - 1], t.actions[k - 1], j);
    }
  }

  // ---------------------------------------------------------------- failed logins

  ghost predicate WrongLoginAt(t: Trace, u: UserId, i: nat)
    requires Run(t) && i < |t.actions|
  {
    t.actions[i].Login? && t.outcomes[i] == WrongPassword(u)
  }

  /** The wrong-password comparisons by login for `u` among the first `n` steps, later than `lo`, at most `hi`. */
  ghost function WrongLogins(t: Trace, u: UserId, n: nat, lo: int, hi: int): set<nat>
    requires Run(t) && n <= |t.actions|
  {
    set i: nat | i < n && WrongLoginAt(t, u, i) && lo < t.states[i].store.now <= hi
  }

  lemma {:induction false} WindowedIsFewer(history: seq<LoginHistory>, u: UserId, since: int)
    ensures FailuresSince(history, u, since) <= Failures(history, u)
  {
    if history != [] {
      WindowedIsFewer(history[..|history| - 1], u, since);
    }
  }

  /** The cheap total count never suppresses a lock that the windowed count asks for. */
  lemma {:induction false} LockIff(s: State, u: UserId)
    ensures LockAfterTooManyFailures(s, u) ==
            if FailuresSince(s.history, u, s.store.now - FAILED_ATTEMPTS_WINDOW) >= MAX_FAILED_ATTEMPTS
            then s.(blocks := s.blocks + [BlockedUser(u, Some(s.store.now + AUTO_LOCK))]) else s
  {
    WindowedIsFewer(s.history, u, s.store.now - FAILED_ATTEMPTS_WINDOW);
  }

  lemma {:induction false} FailuresSinceGrows(history: seq<LoginHistory>, row: LoginHistory, u: UserId, since: int)
    ensures FailuresSince(history + [row], u, since) ==
            FailuresSince(history, u, since) + if FailureOf(row, u) && row.loggedInAt > since then 1 else 0
  {
    assert (history + [row])[..|history|] == history;
  }

  lemma {:induction false} OnlyLoginRecords(s: State, a: Action)
    requires !a.Login?
    ensures Step(s, a).state.history == s.history
  {
  }

  /** What a login appends to the history. */
  lemma {:induction false} LoginRecords(s: State, a: Action)
    requires a.Login?
    ensures var r := Step(s, a);
            var row := LoginHistory(FindByUsername(s.credentials, a.username), a.username, r.outcome.Issued?,
              s.store.now);
            r.state.history == if r.outcome.Blocked? then s.history else s.history + [row]
    ensures Step(s, a).outcome.WrongPassword? ==>
              FindByUsername(s.credentials, a.username) == Some(Step(s, a).outcome.userId)
  {
  }

  /** No step loses a failure, and a wrong password adds one dated now. */
  lemma {:induction false} FailureStep(s: State, a: Action, u: UserId, since: int)
    ensures FailuresSince(Step(s, a).state.history, u, since) >= FailuresSince(s.history, u, since) +
              if a.Login? && Step(s, a).outcome == WrongPassword(u) && s.store.now > since then 1 else 0
  {
    if a.Login? {
      LoginRecords(s, a);
      var row := LoginHistory(
        FindByUsername(s.credentials, a.username), a.username, Step(s, a).outcome.Issued?, s.store.now);
      FailuresSinceGrows(s.history, row, u, since);
    } else {
      OnlyLoginRecords(s, a);
    }
  }

  /** Every wrong password at a login left a failure row, so the windowed count covers them. */
  lemma {:induction false} HistoryCovers(t: Trace, u: UserId, n: nat, since: int, hi: int)
    requires Run(t) && n <= |t.actions|
    ensures |WrongLogins(t, u, n, since, hi)| <= FailuresSince(t.states[n].history, u, since)
    decreases n
  {
    if n == 0 {
      assert WrongLogins(t, u, 0, since, hi) == {};
    } else {
      HistoryCovers(t, u, n - 1, since, hi);
      assert Edge(t, n - 1);
      FailureStep(t.states[n - 1], t.actions[n - 1], u, since);
      WrongLoginsNext(t, u, n - 1, since, hi);
    }
  }

  lemma {:induction false} WrongLoginsNext(t: Trace, u: UserId, n: nat, lo: int, hi: int)
    requires Run(t) && n < |t.actions|
    ensures var hit := WrongLoginAt(t, u, n) && lo < t.states[n].store.now <= hi;
            && WrongLogins(t, u, n + 1, lo, hi) == WrongLogins(t, u, n, lo, hi) + (if hit then {n} else {})
            && |WrongLogins(t, u, n + 1, lo, hi)| == |WrongLogins(t, u, n, lo, hi)| + if hit then 1 else 0
  {
    var hit := WrongLoginAt(t, u, n) && lo < t.states[n].store.now <= hi;
    assert WrongLogins(t, u, n + 1, lo, hi) == WrongLogins(t, u, n, lo, hi) + (if hit then {n} else {});
  }

  ghost predicate FifthInWindow(t: Trace, u: UserId, i: nat)
    requires Run(t) && i < |t.actions|
  {
    && WrongLoginAt(t, u, i)
    && FailuresSince(t.states[i + 1].history, u, t.states[i].store.now - 15 * 60) >= 5
  }

  /** The fifth failure in the window leaves a block of thirty minutes. */
  lemma {:induction false} FifthBlocks(t: Trace, u: UserId, i: nat)
    requires Run(t) && i < |t.actions| && FifthInWindow(t, u, i)
    ensures t.states[i + 1].blocks == t.states[i].blocks + [BlockedUser(u, Some(t.states[i].store.now + AUTO_LOCK))]
  {
    assert Edge(t, i);
    LockIff(Record(t.states[i], Some(u), t.actions[i].username, false), u);
  }

  ghost predicate IssuedTo(outcome: Outcome, u: UserId) {
    outcome.Issued? && outcome.userId == u
  }

  lemma {:induction false} BlockedGetsNothing(s: State, a: Action, u: UserId, i: nat)
    requires i < |s.blocks| && BlocksAt(s.blocks[i], u, s.store.now)
    ensures a.Login? ==> Step(s, a).outcome != WrongPassword(u)
    ensures !IssuedTo(Step(s, a).outcome, u)
  {
    assert IsBlocked(s.blocks, u, s.store.now);
  }

  /** A failure that makes five in the window is followed by thirty minutes without a comparison
      by login, and without a session or a token issued by a login or a refresh. */
  lemma {:induction false} LockedHalfHour(t: Trace, u: UserId, i: nat, k: nat)
    requires Run(t) && i < k < |t.actions| && FifthInWindow(t, u, i)
    requires t.states[k].store.now < t.states[i].store.now + 30 * 60
    ensures !WrongLoginAt(t, u, k) && !IssuedTo(t.outcomes[k], u)
  {
    FifthBlocks(t, u, i);
    Grows(t, i + 1, k);
    assert Edge(t, k);
    BlockedGetsNothing(t.states[k], t.actions[k], u, |t.states[i].blocks|);
  }

  lemma {:induction false} MaxOf(xs: set<nat>) returns (m: nat)
    requires xs != {}
    ensures m in xs && forall x :: x in xs ==> x <= m
    decreases |xs|
  {
    var y :| y in xs;
    if xs == {y} {
      m := y;
    } else {
      var rest := xs - {y};
      m := MaxOf(rest);
      if m < y { m := y; }
      assert xs == rest + {y};
    }
  }

  /** At most five wrong-password comparisons by login for one user in any half-open 15-minute window. */
  lemma {:induction false} AtMostFive(t: Trace, u: UserId, n: nat, lo: int)
    requires Run(t) && n <= |t.actions|
    ensures |WrongLogins(t, u, n, lo, lo + 15 * 60)| <= 5
    decreases n
  {
    var hi := lo + FAILED_ATTEMPTS_WINDOW;
    if n == 0 {
      assert WrongLogins(t, u, 0, lo, hi) == {};
    } else {
      var before := WrongLogins(t, u, n - 1, lo, hi);
      AtMostFive(t, u, n - 1, lo);
      WrongLoginsNext(t, u, n - 1, lo, hi);
      if |before| == MAX_FAILED_ATTEMPTS {
        var m := MaxOf(before);
        FifthLocks(t, u, n - 1, lo, before, m);
        if t.states[n - 1].store.now <= hi {
          LockedHalfHour(t, u, m, n - 1);
        }
      }
    }
  }

  /** The last of five comparisons in one window sees all five in its own window. */
  lemma {:induction false} FifthLocks(t: Trace, u: UserId, n: nat, lo: int, five: set<nat>, m: nat)
    requires Run(t) && n <= |t.actions|
    requires five == WrongLogins(t, u, n, lo, lo + FAILED_ATTEMPTS_WINDOW) && |five| == MAX_FAILED_ATTEMPTS
    requires m in five && forall x :: x in five ==> x <= m
    ensures FifthInWindow(t, u, m)
  {
    var hi := t.states[m].store.now;
    var since := hi - FAILED_ATTEMPTS_WINDOW;
    var seen := WrongLogins(t, u, m + 1, since, hi);
    forall x | x in five ensures x in seen {
      Grows(t, x, m);
    }
    SubsetCount(five, seen);
    HistoryCovers(t, u, m + 1, since, hi);
  }

  lemma {:induction false} SubsetCount<T>(a: set<T>, b: set<T>)
    requires a <= b
    ensures |a| <= |b|
  {
    assert b == a + (b - a);
  }

  /** Hence at most 5k over k consecutive windows. */
  lemma {:induction false} AtMostFivePerWindow(t: Trace, u: UserId, n: nat, lo: int, k: nat)
    requires Run(t) && n <= |t.actions|
    ensures |WrongLogins(t, u, n, lo, lo + k * (15 * 60))| <= k * 5
    decreases k
  {
    if k == 0 {
      assert WrongLogins(t, u, n, lo, lo) == {};
    } else {
      var mid := lo + (k - 1) * FAILED_ATTEMPTS_WINDOW;
      AtMostFivePerWindow(t, u, n, lo, k - 1);
      AtMostFive(t, u, n, mid);
      SplitWindow(t, u, n, lo, mid, mid + FAILED_ATTEMPTS_WINDOW);
    }
  }

  lemma {:induction false} SplitWindow(t: Trace, u: UserId, n: nat, lo: int, mid: int, hi: int)
    requires Run(t) && n <= |t.actions|
    ensures |WrongLogins(t, u, n, lo, hi)| <= |WrongLogins(t, u, n, lo, mid)| + |WrongLogins(t, u, n, mid, hi)|
  {
    var first, last := WrongLogins(t, u, n, lo, mid), WrongLogins(t, u, n, mid, hi);
    SubsetCount(WrongLogins(t, u, n, lo, hi), first + last);
    assert first + last == first + (last - first);
    SubsetCount(last - first, last);
  }

  // ---------------------------------------------------------------- guesses through a password change

  /** A wrong password was compared for `u`, by a login or by a password change. */
  ghost predicate ComparedAt(t: Trace, u: UserId, i: nat)
    requires Run(t) && i < |t.actions|
  {
    t.outcomes[i] == WrongPassword(u)
  }

  ghost function Compared(t: Trace, u: UserId, n: nat, lo: int, hi: int): set<nat>
    requires Run(t) && n <= |t.actions|
  {
    set i: nat | i < n && ComparedAt(t, u, i) && lo < t.states[i].store.now <= hi
  }

  /** The failed password changes of `u` among them. */
  ghost function FailedChanges(t: Trace, u: UserId, n: nat, lo: int, hi: int): set<nat>
    requires Run(t) && n <= |t.actions|
  {
    set i: nat | i < n && t.actions[i].ChangePassword? && ComparedAt(t, u, i) && lo < t.states[i].store.now <= hi
  }

  /** Only these two calls compare passwords, and only an undeleted credential can be compared with. */
  lemma {:induction false} ComparisonSource(s: State, a: Action, u: UserId)
    requires Step(s, a).outcome == WrongPassword(u)
    ensures a.Login? || a.ChangePassword?
    ensures Comparable(s, u)
  {
  }

  ghost predicate Comparable(s: State, u: UserId) {
    u in s.credentials && !s.credentials[u].isDeleted
  }

  lemma {:induction false} ComparedSplits(t: Trace, u: UserId, n: nat, lo: int, hi: int)
    requires Run(t) && n <= |t.actions|
    ensures Compared(t, u, n, lo, hi) == WrongLogins(t, u, n, lo, hi) + FailedChanges(t, u, n, lo, hi)
    ensures WrongLogins(t, u, n, lo, hi) !! FailedChanges(t, u, n, lo, hi)
  {
    forall i: nat | i < n && ComparedAt(t, u, i) ensures t.actions[i].Login? || t.actions[i].ChangePassword? {
      assert Edge(t, i);
      ComparisonSource(t.states[i], t.actions[i], u);
    }
  }

  /** All comparisons together: five by login in a window, and every failed change on top. */
  lemma {:induction false} AtMostFiveAndChanges(t: Trace, u: UserId, n: nat, lo: int)
    requires Run(t) && n <= |t.actions|
    ensures var hi := lo + 15 * 60;
            |Compared(t, u, n, lo, hi)| <= 5 + |FailedChanges(t, u, n, lo, hi)|
  {
    AtMostFive(t, u, n, lo);
    ComparedSplits(t, u, n, lo, lo + FAILED_ATTEMPTS_WINDOW);
  }

  /** A password change compares without asking for blocks, and leaves no trace of a failure. */
  lemma {:induction false} ChangeComparesFreely(s: State, u: UserId, guess: string, new_: string)
    requires Comparable(s, u) && guess != s.credentials[u].password
    ensures Enabled(s, ChangePassword(u, guess, new_, new_))
    ensures Step(s, ChangePassword(u, guess, new_, new_)) == Reply(s, WrongPassword(u))
  {
  }

  function Repeat<T>(x: T, n: nat): seq<T> {
    seq(n, _ => x)
  }

  /** `t` continued by `n` wrong-password comparisons for `u`, all in the second `t` ends in. */
  ghost predicate GuessesOn(t: Trace, u: UserId, n: nat, more: Trace)
    requires Run(t)
  {
    && Run(more) && |more.actions| == |t.actions| + n && t.actions <= more.actions && t.states <= more.states
    && forall i :: |t.actions| <= i < |more.actions| ==>
         ComparedAt(more, u, i) && more.states[i].store.now == t.states[|t.actions|].store.now
  }

  ghost predicate CanGuess(t: Trace, u: UserId, n: nat)
    requires Run(t)
  {
    exists more :: GuessesOn(t, u, n, more)
  }

  lemma {:induction false} GuessOnAndOn(t: Trace, u: UserId, n: nat) returns (more: Trace)
    requires Run(t) && Comparable(t.states[|t.actions|], u)
    ensures GuessesOn(t, u, n, more)
  {
    var s := t.states[|t.actions|];
    var guess := s.credentials[u].password + "x";
    var a := ChangePassword(u, guess, "", "");
    ChangeComparesFreely(s, u, guess, "");
    more := Trace(t.states + Repeat(s, n), t.actions + Repeat(a, n), t.outcomes + Repeat(WrongPassword(u), n));
    forall i | 0 <= i < |more.actions| ensures Edge(more, i) {
      if i < |t.actions| {
        assert Edge(t, i);
      } else {
        assert more.states[i] == s && more.states[i + 1] == s && more.actions[i] == a;
      }
    }
  }

  /** After any run, blocked or not: the comparisons in the current second are unbounded exactly when the user
      has an undeleted credential. */
  lemma {:induction false} GuessingIsUnboundedIff(t: Trace, u: UserId)
    requires Run(t)
    ensures (forall n: nat :: CanGuess(t, u, n)) <==> Comparable(t.states[|t.actions|], u)
  {
    var last := |t.actions|;
    if Comparable(t.states[last], u) {
      forall n: nat ensures CanGuess(t, u, n) {
        var more := GuessOnAndOn(t, u, n);
      }
    } else if forall n: nat :: CanGuess(t, u, n) {
      assert CanGuess(t, u, 1);
      var more :| GuessesOn(t, u, 1, more);
      assert more.states[last] == t.states[last] && ComparedAt(more, u, last);
      assert Edge(more, last);
      ComparisonSource(more.states[last], more.actions[last], u);
    }
  }

  // ---------------------------------------------------------------- refresh tokens

  ghost predicate RevokedIn(s: State, t: Token) {
    t in s.tokens && s.tokens[t].revokedAt.Some?
  }

  /** What a step leaves of a token row: its owner, and its revocation once made. */
  ghost predicate Aged(row: RefreshToken, row': RefreshToken) {
    row'.userId == row.userId && (row.revokedAt.Some? ==> row' == row)
  }

  lemma {:induction false} IssueAges(s: State, a: Action, t: Token)
    requires Enabled(s, a) && (a.Login? || a.Refresh?) && t in s.tokens
    ensures var r := Step(s, a).state;
            && t in r.tokens && Aged(s.tokens[t], r.tokens[t])
            && (a.Refresh? && a.token == t && Redeemable(s, t) ==> RevokedIn(r, t))
  {
  }

  lemma {:induction false} OtherAges(s: State, a: Action, t: Token)
    requires Enabled(s, a) && !a.Login? && !a.Refresh? && t in s.tokens
    ensures t in Step(s, a).state.tokens && Aged(s.tokens[t], Step(s, a).state.tokens[t])
  {
  }

  lemma {:induction false} TokenStep(s: State, a: Action, t: Token)
    requires Enabled(s, a) && t in s.tokens
    ensures var r := Step(s, a).state;
            && t in r.tokens && Aged(s.tokens[t], r.tokens[t])
            && (a.Refresh? && a.token == t && Redeemable(s, t) ==> RevokedIn(r, t))
  {
    if a.Login? || a.Refresh? { IssueAges(s, a, t); } else { OtherAges(s, a, t); }
  }

  /** A row keeps its owner for good, and a revoked row stays as it is. */
  lemma {:induction false} RevokedForever(tr: Trace, i: nat, k: nat, t: Token)
    requires Run(tr) && i <= k < |tr.states| && t in tr.states[i].tokens
    ensures t in tr.states[k].tokens && tr.states[k].tokens[t].userId == tr.states[i].tokens[t].userId
    ensures RevokedIn(tr.states[i], t) ==> tr.states[k].tokens[t] == tr.states[i].tokens[t]
    decreases k
  {
    if i < k {
      RevokedForever(tr, i, k - 1, t);
      assert Edge(tr, k - 1);
      TokenStep(tr.states[k - 1], tr.actions[k - 1], t);
    }
  }

  /** A token is redeemed at most once, whatever the checks after its redemption say. */
  lemma {:induction false} RedeemedOnce(tr: Trace, i: nat, k: nat, t: Token)
    requires Run(tr) && i < k < |tr.states|
    requires tr.actions[i].Refresh? && tr.actions[i].token == t && Redeemable(tr.states[i], t)
    ensures !Redeemable(tr.states[k], t)
  {
    assert Edge(tr, i);
    TokenStep(tr.states[i], tr.actions[i], t);
    RevokedForever(tr, i + 1, k, t);
  }

  /** After an admin revoke, only tokens issued later can be redeemed for that user. */
  lemma {:induction false} AdminRevokeIsFinal(tr: Trace, i: nat, k: nat, t: Token)
    requires Run(tr) && i < k < |tr.states|
    requires tr.actions[i].AdminRevoke? && tr.states[i].store.Live(tr.actions[i].jti)
    requires Redeemable(tr.states[k], t)
    requires tr.states[k].tokens[t].userId == tr.states[i].store.keys[tr.actions[i].jti].session.userId
    ensures t !in tr.states[i + 1].tokens
  {
    assert Edge(tr, i);
    if t in tr.states[i + 1].tokens {
      RevokedForever(tr, i + 1, k, t);
      assert RevokedIn(tr.states[i + 1], t);
    }
  }

  ghost function Unrevoked(s: State, u: UserId): set<Token> {
    set t | t in s.tokens && s.tokens[t].userId == u && s.tokens[t].revokedAt.None?
  }

  ghost predicate LoggedIn(a: Action, outcome: Outcome, u: UserId) {
    a.Login? && outcome.Issued? && outcome.userId == u
  }

  ghost function Logins(tr: Trace, u: UserId, n: nat): nat
    requires Run(tr) && n <= |tr.actions|
  {
    if n == 0 then 0
    else Logins(tr, u, n - 1) + if LoggedIn(tr.actions[n - 1], tr.outcomes[n - 1], u) then 1 else 0
  }

  /** What a step may add to the unrevoked tokens of a user, and what a refresh takes away first. */
  lemma {:induction false} UnrevokedStep(s: State, a: Action, u: UserId)
    requires Enabled(s, a)
    ensures var r := Step(s, a);
            var before, after := Unrevoked(s, u), Unrevoked(r.state, u);
            if LoggedIn(a, r.outcome, u) then after <= before + {a.draw.token}
            else if a.Refresh? && r.outcome.Issued? then
              after <= if r.outcome.userId == u then before - {a.token} + {a.draw.token} else before
            else after <= before
    ensures a.Refresh? && Step(s, a).outcome.Issued? && Step(s, a).outcome.userId == u ==> a.token in Unrevoked(s, u)
  {
  }

  lemma {:induction false} UnrevokedCount(s: State, a: Action, u: UserId)
    requires Enabled(s, a)
    ensures |Unrevoked(Step(s, a).state, u)| <= |Unrevoked(s, u)| + if LoggedIn(a, Step(s, a).outcome, u) then 1 else 0
  {
    var r := Step(s, a);
    var before, after := Unrevoked(s, u), Unrevoked(r.state, u);
    UnrevokedStep(s, a, u);
    if LoggedIn(a, r.outcome, u) {
      SubsetCount(after, before + {a.draw.token});
    } else if a.Refresh? && r.outcome.Issued? && r.outcome.userId == u {
      SubsetCount(after, before - {a.token} + {a.draw.token});
    } else {
      SubsetCount(after, before);
    }
  }

  /** Refresh conserves tokens: the unrevoked ones never outnumber the successful logins. */
  lemma {:induction false} TokensConserved(tr: Trace, u: UserId, n: nat)
    requires Run(tr) && n <= |tr.actions|
    ensures |Unrevoked(tr.states[n], u)| <= Logins(tr, u, n)
    decreases n
  {
    if n == 0 {
      assert Unrevoked(tr.states[0], u) == {};
    } else {
      TokensConserved(tr, u, n - 1);
      assert Edge(tr, n - 1);
      UnrevokedCount(tr.states[n - 1], tr.actions[n - 1], u);
    }
  }
}
