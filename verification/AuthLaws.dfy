/**
 What a run makes of what it was given: how long a refresh token can be redeemed, which password a
 login compares with, which grants a session carries, which sessions a logout ends, and when a
 user is blocked. Each law reads the events of the run, not the state they left.
 */
module AuthLaws {
  import opened Options
  import opened SessionStore
  import opened Auth
  import opened AuthRuns

  // ---------------------------------------------------------------- how long a token lives

  /** The step ends the token: it is redeemed, logged out with, or its owner's session is revoked. */
  ghost predicate EndsNow(s: State, a: Action, t: Token)
    requires t in s.tokens
  {
    || (a.Refresh? && a.token == t && Redeemable(s, t))
    || (a.Logout? && a.refreshToken == Some(t))
    || (a.AdminRevoke? && s.store.Live(a.jti) && s.store.keys[a.jti].session.userId == s.tokens[t].userId)
  }

  ghost predicate FateAfter(s: State, a: Action, t: Token)
    requires t in s.tokens
  {
    var r := Step(s, a).state;
    && t in r.tokens
    && r.tokens[t].userId == s.tokens[t].userId && r.tokens[t].expiresAt == s.tokens[t].expiresAt
    && (r.tokens[t].revokedAt.None? <==> s.tokens[t].revokedAt.None? && !EndsNow(s, a, t))
  }

  lemma {:induction false} IssueFate(s: State, a: Action, t: Token)
    requires Enabled(s, a) && t in s.tokens && (a.Login? || a.Refresh?)
    ensures FateAfter(s, a, t)
  {
  }

  lemma {:induction false} RevokeFate(s: State, a: Action, t: Token)
    requires Enabled(s, a) && t in s.tokens && (a.Logout? || a.AdminRevoke?)
    ensures FateAfter(s, a, t)
  {
  }

  lemma {:induction false} OtherFate(s: State, a: Action, t: Token)
    requires Enabled(s, a) && t in s.tokens && !a.Login? && !a.Refresh? && !a.Logout? && !a.AdminRevoke?
    ensures FateAfter(s, a, t)
  {
  }

  lemma {:induction false} TokenFate(s: State, a: Action, t: Token)
    requires Enabled(s, a) && t in s.tokens
    ensures FateAfter(s, a, t)
  {
    if a.Login? || a.Refresh? {
      IssueFate(s, a, t);
    } else if a.Logout? || a.AdminRevoke? {
      RevokeFate(s, a, t);
    } else {
      OtherFate(s, a, t);
    }
  }

  ghost predicate EndsAt(tr: Trace, m: nat, t: Token)
    requires Run(tr) && m < |tr.actions|
  {
    t in tr.states[m].tokens && EndsNow(tr.states[m], tr.actions[m], t)
  }

  /** A row keeps owner and expiry, and stays unrevoked exactly as long as no step ends it. */
  lemma {:induction false} TokenKept(tr: Trace, i: nat, k: nat, t: Token)
    requires Run(tr) && i <= k < |tr.states| && t in tr.states[i].tokens
    ensures t in tr.states[k].tokens
    ensures tr.states[k].tokens[t].userId == tr.states[i].tokens[t].userId
    ensures tr.states[k].tokens[t].expiresAt == tr.states[i].tokens[t].expiresAt
    ensures tr.states[k].tokens[t].revokedAt.None? <==>
            tr.states[i].tokens[t].revokedAt.None? && forall m: nat :: i <= m < k ==> !EndsAt(tr, m, t)
    decreases k
  {
    if i < k {
      TokenKept(tr, i, k - 1, t);
      assert Edge(tr, k - 1);
      TokenFate(tr.states[k - 1], tr.actions[k - 1], t);
      assert EndsAt(tr, k - 1, t) <==> EndsNow(tr.states[k - 1], tr.actions[k - 1], t);
    }
  }

  /** The step uses the token up, by name or through its owner `u`. */
  ghost predicate UsesUp(tr: Trace, m: nat, t: Token, u: UserId)
    requires Run(tr) && m < |tr.actions|
  {
    var s, a := tr.states[m], tr.actions[m];
    || (a.Refresh? && a.token == t)
    || (a.Logout? && a.refreshToken == Some(t))
    || (a.AdminRevoke? && s.store.Live(a.jti) && s.store.keys[a.jti].session.userId == u)
  }

  lemma {:induction false} IssuedRow(s: State, a: Action, u: UserId)
    requires Enabled(s, a) && IssuedTo(Step(s, a).outcome, u)
    ensures (a.Login? || a.Refresh?) && Step(s, a).outcome == Issued(u, a.draw.jti, a.draw.token)
    ensures var r := Step(s, a).state;
            && a.draw.token in r.tokens
            && r.tokens[a.draw.token] == RefreshToken(u, s.store.now + s.cfg.refreshTtl, None)
  {
  }

  /** An issued token can be redeemed exactly until it expires, as long as no step in between redeemed
      it, logged out with it, or was an admin revoke of a live session of its owner. */
  lemma {:induction false} IssuedIsRedeemableIff(tr: Trace, i: nat, k: nat, u: UserId)
    requires Run(tr) && i < k < |tr.states| && IssuedTo(tr.outcomes[i], u)
    ensures var t := tr.outcomes[i].token;
            && t in tr.states[k].tokens && tr.states[k].tokens[t].userId == u
            && (Redeemable(tr.states[k], t) <==>
                && tr.states[k].store.now < tr.states[i].store.now + tr.states[i].cfg.refreshTtl
                && forall m: nat :: i < m < k ==> !UsesUp(tr, m, t, u))
  {
    assert Edge(tr, i);
    IssuedRow(tr.states[i], tr.actions[i], u);
    var t := tr.outcomes[i].token;
    TokenKept(tr, i + 1, k, t);
    if tr.states[k].store.now < tr.states[i].store.now + tr.states[i].cfg.refreshTtl {
      forall m: nat | i < m < k ensures EndsAt(tr, m, t) ==> UsesUp(tr, m, t, u) {
        TokenKept(tr, i + 1, m, t);
      }
      if forall m: nat :: i + 1 <= m < k ==> !EndsAt(tr, m, t) {
        forall m: nat | i < m < k ensures !UsesUp(tr, m, t, u) {
          TokenKept(tr, i + 1, m, t);
          Grows(tr, m, k);
          assert Redeemable(tr.states[m], t) && !EndsAt(tr, m, t);
        }
      }
    }
  }

  // ---------------------------------------------------------------- which password counts

  /** The step gives `u` the password `p`. */
  ghost predicate SetsPassword(a: Action, outcome: Outcome, u: UserId, p: string) {
    && outcome == Done
    && match a
       case SetCredential(v, _, password) => v == u && password == p
       case CreateInitialCredential(v, _, password) => v == u && password == p
       case ResetPassword(v, _, password) => v == u && password == p
       case ChangePassword(v, _, new_, _) => v == u && new_ == p
       case _ => false
  }

  lemma {:induction false} PasswordStep(s: State, a: Action, u: UserId)
    requires Enabled(s, a)
    ensures var r := Step(s, a);
            && (u in s.credentials ==> u in r.state.credentials)
            && (forall p :: SetsPassword(a, r.outcome, u, p) ==>
                  u in r.state.credentials && r.state.credentials[u].password == p)
            && ((forall p :: !SetsPassword(a, r.outcome, u, p)) && u in s.credentials ==>
                  r.state.credentials[u].password == s.credentials[u].password)
  {
    var r := Step(s, a);
    if !(a.Login? || a.Refresh?) && u in s.credentials && u in r.state.credentials
       && r.state.credentials[u].password != s.credentials[u].password {
      assert SetsPassword(a, r.outcome, u, r.state.credentials[u].password);
    }
  }

  ghost predicate LeavesPassword(tr: Trace, m: nat, u: UserId)
    requires Run(tr) && m < |tr.actions|
  {
    forall p :: !SetsPassword(tr.actions[m], tr.outcomes[m], u, p)
  }

  /** The last password given to a user is the one of their credential. */
  lemma {:induction false} LastPassword(tr: Trace, i: nat, k: nat, u: UserId, p: string)
    requires Run(tr) && i < k < |tr.states| && SetsPassword(tr.actions[i], tr.outcomes[i], u, p)
    requires forall m: nat :: i < m < k ==> LeavesPassword(tr, m, u)
    ensures u in tr.states[k].credentials && tr.states[k].credentials[u].password == p
    decreases k
  {
    assert Edge(tr, k - 1);
    PasswordStep(tr.states[k - 1], tr.actions[k - 1], u);
    if k > i + 1 {
      LastPassword(tr, i, k - 1, u, p);
      assert LeavesPassword(tr, k - 1, u);
    }
  }

  /** What a login of a live credential answers, check by check. */
  lemma {:induction false} LoginAnswers(tr: Trace, k: nat, u: UserId)
    requires Run(tr) && k < |tr.actions| && tr.actions[k].Login?
    requires Holds(tr.states[k].credentials, tr.actions[k].username, u)
    ensures var s, a := tr.states[k], tr.actions[k];
            var c, answer := s.credentials[u], tr.outcomes[k];
            var free := !IsBlocked(s.blocks, u, s.store.now);
            var compared := free && c.isActive;
            var past := a.iam.expiredAt.Some? && a.iam.expiredAt.value < a.today;
            && (answer == Blocked(u) <==> !free)
            && (answer == Disabled(u) <==> free && !c.isActive)
            && (answer == WrongPassword(u) <==> compared && a.password != c.password)
            && (answer == NotActive(u) <==> compared && a.password == c.password && !a.iam.active)
            && (answer == Expired(u) <==> compared && a.password == c.password && a.iam.active && past)
            && (IssuedTo(answer, u) <==> compared && a.password == c.password && a.iam.active && !past)
  {
    RunInv(tr, k);
    assert Edge(tr, k);
  }

  /** A login compares with exactly the last password given to the user. */
  lemma {:induction false} LoginComparesLast(tr: Trace, i: nat, k: nat, u: UserId, p: string)
    requires Run(tr) && i < k < |tr.actions| && SetsPassword(tr.actions[i], tr.outcomes[i], u, p)
    requires forall m: nat :: i < m < k ==> LeavesPassword(tr, m, u)
    requires tr.actions[k].Login? && Holds(tr.states[k].credentials, tr.actions[k].username, u)
    ensures var s, a := tr.states[k], tr.actions[k];
            && (tr.outcomes[k] == WrongPassword(u) <==>
                !IsBlocked(s.blocks, u, s.store.now) && s.credentials[u].isActive && a.password != p)
            && (IssuedTo(tr.outcomes[k], u) ==> a.password == p)
  {
    LastPassword(tr, i, k, u, p);
    LoginAnswers(tr, k, u);
  }

  ghost function CredentialOf(s: State, v: UserId): Option<Credential> {
    if v in s.credentials then Some(s.credentials[v]) else None
  }

  /** Saving a credential succeeds exactly when its row is deleted or nobody else holds the username;
      then the row is as asked and nobody else's changes. */
  lemma {:induction false} SavesIff(s: State, a: Action)
    requires a.SetCredential? || a.CreateInitialCredential? || a.ResetPassword?
    requires Enabled(s, a)
    ensures var r, u := Step(s, a), a.userId;
            && (r.outcome == Done <==>
                || (u in s.credentials && s.credentials[u].isDeleted)
                || forall v :: v != u ==> !Holds(s.credentials, a.username, v))
            && (r.outcome != Done ==> r == Reply(s, UsernameTaken))
            && (r.outcome == Done ==> u in r.state.credentials && SavedAs(s, a, r.state.credentials[u]))
            && forall v :: v != u ==> CredentialOf(r.state, v) == CredentialOf(s, v)
  {
  }

  /** The row is active under the name and password given; a set keeps the flag, the others raise it. */
  ghost predicate SavedAs(s: State, a: Action, c: Credential)
    requires a.SetCredential? || a.CreateInitialCredential? || a.ResetPassword?
  {
    var known := a.userId in s.credentials;
    && c.username == a.username && c.password == a.password && c.isActive
    && (a.SetCredential? ==> c.mustChangePassword == (known && s.credentials[a.userId].mustChangePassword))
    && (!a.SetCredential? ==> c.mustChangePassword)
    && (c.isDeleted <==> known && s.credentials[a.userId].isDeleted)
  }

  /** A password change succeeds exactly with a confirmed new password and the current one of an
      undeleted credential; then exactly password and flag of that row change. */
  lemma {:induction false} ChangesIff(s: State, a: Action)
    requires a.ChangePassword?
    ensures var r, u := Step(s, a), a.userId;
            && (r.outcome == Done <==>
                && a.new_ == a.confirm && u in s.credentials && !s.credentials[u].isDeleted
                && s.credentials[u].password == a.current)
            && (r.outcome != Done ==> r.state == s)
            && (r.outcome == Done ==>
                  var c := s.credentials[u].(password := a.new_, mustChangePassword := false);
                  r.state.credentials == s.credentials[u := c])
  {
  }

  // ---------------------------------------------------------------- which grants a session carries

  /** A permission refresh rewrites the grants of every surviving session of its user; no other step
      changes grants, and none profile or last day. */
  lemma {:induction false} BlobStep(s: State, a: Action, j: Jti)
    requires Inv(s) && Enabled(s, a) && j in s.used && Step(s, a).state.store.Live(j)
    ensures s.store.Live(j)
    ensures var old_, new_ := s.store.keys[j].session, Step(s, a).state.store.keys[j].session;
            && new_.userId == old_.userId && new_.profile == old_.profile && new_.expiredAt == old_.expiredAt
            && new_.grants == if a.RefreshPermissions? && a.userId == old_.userId then a.grants else old_.grants
  {
    StepMoves(s, a);
    var c := CallOf(s, a);
    if c.Some? {
      BlobAfter(s.store, s.used, c.value, j);
    }
  }

  ghost predicate Regrants(tr: Trace, m: nat, u: UserId)
    requires Run(tr) && m < |tr.actions|
  {
    tr.actions[m].RefreshPermissions? && tr.actions[m].userId == u
  }

  lemma {:induction false} GrantsStay(tr: Trace, i: nat, k: nat, j: Jti, u: UserId)
    requires Run(tr) && i <= k < |tr.states| && j in tr.states[i].used && tr.states[k].store.Live(j)
    requires tr.states[k].store.keys[j].session.userId == u
    requires forall m: nat :: i <= m < k ==> !Regrants(tr, m, u)
    ensures tr.states[i].store.Live(j)
    ensures tr.states[k].store.keys[j].session.grants == tr.states[i].store.keys[j].session.grants
    decreases k
  {
    if i < k {
      RunInv(tr, k - 1);
      assert Edge(tr, k - 1);
      DeadForever(tr, i, k - 1, j);
      BlobStep(tr.states[k - 1], tr.actions[k - 1], j);
      assert !Regrants(tr, k - 1, u);
      GrantsStay(tr, i, k - 1, j, u);
    }
  }

  /** The step gives session `j` of user `u` the grants `g`: it issues it, or refreshes the user. */
  ghost predicate GivesGrants(tr: Trace, i: nat, j: Jti, u: UserId, g: Grants)
    requires Run(tr) && i < |tr.actions|
  {
    var a := tr.actions[i];
    || (IssuedTo(tr.outcomes[i], u) && tr.outcomes[i].jti == j && (a.Login? || a.Refresh?) && a.iam.grants == g)
    || (a == RefreshPermissions(u, g) && j in tr.states[i].used)
  }

  /** A live session carries exactly the grants last given to it. */
  lemma {:induction false} GrantsAreLast(tr: Trace, i: nat, k: nat, j: Jti, u: UserId, g: Grants)
    requires Run(tr) && i < k < |tr.states| && GivesGrants(tr, i, j, u, g)
    requires forall m: nat :: i < m < k ==> !Regrants(tr, m, u)
    requires tr.states[k].store.Live(j) && tr.states[k].store.keys[j].session.userId == u
    ensures tr.states[k].store.keys[j].session.grants == g
  {
    assert Edge(tr, i);
    RunInv(tr, i);
    var a := tr.actions[i];
    if a.RefreshPermissions? {
      StepKeepsDead(tr.states[i], a, j);
      GrantsStay(tr, i + 1, k, j, u);
      DeadForever(tr, i + 1, k, j);
      BlobStep(tr.states[i], a, j);
    } else {
      IssuedIffEntitled(tr, i, u);
      IssuedRow(tr.states[i], a, u);
      StepMoves(tr.states[i], a);
      GrantsStay(tr, i + 1, k, j, u);
    }
  }

  // ---------------------------------------------------------------- how long a session lives

  /** The step ends session `j` of user `u`. */
  ghost predicate EndsSession(a: Action, j: Jti, u: UserId) {
    || (a.Logout? && a.session == Some(j))
    || (a.AdminRevoke? && a.jti == j)
    || (a.InvalidateAll? && a.userId == u)
  }

  lemma {:induction false} SessionStep(s: State, a: Action, j: Jti)
    requires Inv(s) && Enabled(s, a) && s.store.Live(j)
    ensures var r, entry := Step(s, a).state.store, s.store.keys[j];
            r.Live(j) <==> r.now < entry.expiresAt && !EndsSession(a, j, entry.session.userId)
  {
    StepMoves(s, a);
    var c := CallOf(s, a);
    if c.Some? {
      SurvivesIff(s.store, s.used, c.value, j);
      assert c == Some(Call.Revoke(j)) <==> (a.Logout? && a.session == Some(j)) || (a.AdminRevoke? && a.jti == j);
    }
  }

  lemma {:induction false} SessionKept(tr: Trace, i: nat, k: nat, j: Jti, u: UserId, expiry: int)
    requires Run(tr) && i <= k < |tr.states| && tr.states[i].store.Live(j)
    requires tr.states[i].store.keys[j].session.userId == u && tr.states[i].store.keys[j].expiresAt == expiry
    ensures tr.states[k].store.Live(j) <==>
            tr.states[k].store.now < expiry && forall m: nat :: i <= m < k ==> !EndsSession(tr.actions[m], j, u)
    decreases k
  {
    RunInv(tr, i);
    assert j in tr.states[i].used;
    if i < k {
      SessionKept(tr, i, k - 1, j, u, expiry);
      DeadForever(tr, i, k - 1, j);
      RunInv(tr, k - 1);
      assert Edge(tr, k - 1);
      Grows(tr, k - 1, k);
      if tr.states[k - 1].store.Live(j) {
        SessionStep(tr.states[k - 1], tr.actions[k - 1], j);
      } else {
        DeadForever(tr, k - 1, k, j);
      }
    }
  }

  /** An issued session lives exactly until it expires, as long as no step in between logged it out,
      revoked it, or ended all sessions of its owner: nobody else's login, logout or change ends it. */
  lemma {:induction false} IssuedIsLiveIff(tr: Trace, i: nat, k: nat, u: UserId)
    requires Run(tr) && i < k < |tr.states| && IssuedTo(tr.outcomes[i], u)
    ensures var j := tr.outcomes[i].jti;
            tr.states[k].store.Live(j) <==>
            && tr.states[k].store.now < tr.states[i].store.now + tr.states[i].cfg.accessTtl
            && forall m: nat :: i < m < k ==> !EndsSession(tr.actions[m], j, u)
  {
    assert Edge(tr, i);
    RunInv(tr, i);
    var s, a := tr.states[i], tr.actions[i];
    IssuedRow(s, a, u);
    IssuedIffEntitled(tr, i, u);
    StepMoves(s, a);
    Grows(tr, i + 1, k);
    var j := tr.outcomes[i].jti;
    if tr.states[i + 1].store.Live(j) {
      SessionKept(tr, i + 1, k, j, u, s.store.now + s.cfg.accessTtl);
    } else {
      DeadForever(tr, i + 1, k, j);
    }
  }

  // ---------------------------------------------------------------- which sessions end

  /** A logout ends exactly the session it names; every other one keeps its key as it is. */
  lemma {:induction false} LogoutEndsExactly(tr: Trace, k: nat, j: Jti)
    requires Run(tr) && k < |tr.actions| && tr.actions[k].Logout?
    ensures tr.states[k + 1].store.Live(j) <==> tr.states[k].store.Live(j) && tr.actions[k].session != Some(j)
    ensures tr.states[k + 1].store.Live(j) ==> tr.states[k + 1].store.keys[j] == tr.states[k].store.keys[j]
  {
    assert Edge(tr, k);
    if tr.actions[k].session.Some? {
      RevokeEndsExactly(tr.states[k].store, tr.actions[k].session.value, j);
    }
  }

  /** An admin revoke succeeds exactly on a live session, ends exactly that one, and otherwise changes
      nothing. */
  lemma {:induction false} AdminRevokeEndsExactly(tr: Trace, k: nat, j: Jti)
    requires Run(tr) && k < |tr.actions| && tr.actions[k].AdminRevoke?
    ensures tr.outcomes[k] == Done <==> tr.states[k].store.Live(tr.actions[k].jti)
    ensures tr.outcomes[k] != Done ==> tr.outcomes[k] == NotFound && tr.states[k + 1] == tr.states[k]
    ensures tr.states[k + 1].store.Live(j) <==> tr.states[k].store.Live(j) && j != tr.actions[k].jti
    ensures tr.states[k + 1].store.Live(j) ==> tr.states[k + 1].store.keys[j] == tr.states[k].store.keys[j]
  {
    assert Edge(tr, k);
    RevokeEndsExactly(tr.states[k].store, tr.actions[k].jti, j);
  }

  // ---------------------------------------------------------------- when a user is blocked

  /** A login of `u` that failed for whatever reason but a block. */
  ghost predicate FailedLoginAt(t: Trace, u: UserId, i: nat)
    requires Run(t) && i < |t.actions|
  {
    && t.actions[i].Login?
    && (|| t.outcomes[i] == Disabled(u) || t.outcomes[i] == WrongPassword(u)
        || t.outcomes[i] == NotActive(u) || t.outcomes[i] == Expired(u))
  }

  ghost function FailedLogins(t: Trace, u: UserId, n: nat, since: int): set<nat>
    requires Run(t) && n <= |t.actions|
  {
    set i: nat | i < n && FailedLoginAt(t, u, i) && since < t.states[i].store.now
  }

  lemma {:induction false} FailedLoginsNext(t: Trace, u: UserId, n: nat, since: int)
    requires Run(t) && n < |t.actions|
    ensures var hit := FailedLoginAt(t, u, n) && since < t.states[n].store.now;
            |FailedLogins(t, u, n + 1, since)| == |FailedLogins(t, u, n, since)| + if hit then 1 else 0
  {
    var hit := FailedLoginAt(t, u, n) && since < t.states[n].store.now;
    assert FailedLogins(t, u, n + 1, since) == FailedLogins(t, u, n, since) + if hit then {n} else {};
  }

  lemma {:induction false} FailureRow(t: Trace, n: nat, u: UserId, since: int)
    requires Run(t) && n < |t.actions|
    ensures FailuresSince(t.states[n + 1].history, u, since) ==
            FailuresSince(t.states[n].history, u, since) +
            if FailedLoginAt(t, u, n) && since < t.states[n].store.now then 1 else 0
  {
    assert Edge(t, n);
    var s, a := t.states[n], t.actions[n];
    if a.Login? {
      LoginRecords(s, a);
      LoginNames(s, a);
      var row := LoginHistory(
        FindByUsername(s.credentials, a.username), a.username, Step(s, a).outcome.Issued?, s.store.now);
      FailuresSinceGrows(s.history, row, u, since);
    } else {
      OnlyLoginRecords(s, a);
    }
  }

  /** A login answers about the holder of the username. */
  lemma {:induction false} LoginNames(s: State, a: Action)
    requires a.Login?
    ensures var answer := Step(s, a).outcome;
            match FindByUsername(s.credentials, a.username)
            case None => answer == UnknownUsername
            case Some(u) =>
              || answer == Blocked(u) || answer == Disabled(u) || answer == WrongPassword(u)
              || answer == NotActive(u) || answer == Expired(u) || IssuedTo(answer, u)
  {
  }

  /** The windowed count is exactly the number of failed logins in the window. */
  lemma {:induction false} HistoryIsExact(t: Trace, u: UserId, n: nat, since: int)
    requires Run(t) && n <= |t.actions|
    ensures FailuresSince(t.states[n].history, u, since) == |FailedLogins(t, u, n, since)|
    decreases n
  {
    if n == 0 {
      assert FailedLogins(t, u, 0, since) == {};
    } else {
      HistoryIsExact(t, u, n - 1, since);
      FailureRow(t, n - 1, u, since);
      FailedLoginsNext(t, u, n - 1, since);
    }
  }

  /** The step locks `u`: a wrong password that makes at least five failed logins in fifteen minutes. */
  ghost predicate Locks(t: Trace, u: UserId, i: nat)
    requires Run(t) && i < |t.actions|
  {
    && WrongLoginAt(t, u, i)
    && |FailedLogins(t, u, i + 1, t.states[i].store.now - 15 * 60)| >= 5
  }

  /** What a step adds to the blocks of `u`: an operator's block, or a lock of thirty minutes. */
  ghost function AddedBlocks(t: Trace, i: nat): seq<BlockedUser>
    requires Run(t) && i < |t.actions|
  {
    var a, outcome := t.actions[i], t.outcomes[i];
    if a.OperatorBlock? then [BlockedUser(a.userId, a.until)]
    else if outcome.WrongPassword? && Locks(t, outcome.userId, i)
    then [BlockedUser(outcome.userId, Some(t.states[i].store.now + 30 * 60))]
    else []
  }

  lemma {:induction false} BlocksGrowBy(t: Trace, i: nat)
    requires Run(t) && i < |t.actions|
    ensures t.states[i + 1].blocks == t.states[i].blocks + AddedBlocks(t, i)
  {
    assert Edge(t, i);
    var s, a := t.states[i], t.actions[i];
    if a.Login? && t.outcomes[i].WrongPassword? {
      var u := t.outcomes[i].userId;
      var failed := Record(s, Some(u), a.username, false);
      HistoryIsExact(t, u, i + 1, s.store.now - FAILED_ATTEMPTS_WINDOW);
      LockIff(failed, u);
    } else if !a.OperatorBlock? {
      OtherStepsAddNoBlock(s, a);
    }
  }

  lemma {:induction false} OtherStepsAddNoBlock(s: State, a: Action)
    requires !a.OperatorBlock? && !(a.Login? && Step(s, a).outcome.WrongPassword?)
    ensures Step(s, a).state.blocks == s.blocks
  {
  }

  /** The block added at step `i` is still on for `u` at time `now`. */
  ghost predicate BlockOn(t: Trace, i: nat, u: UserId, now: int)
    requires Run(t) && i < |t.actions|
  {
    var a := t.actions[i];
    || (a.OperatorBlock? && a.userId == u && (a.until.None? || now < a.until.value))
    || (Locks(t, u, i) && now < t.states[i].store.now + 30 * 60)
  }

  lemma {:induction false} AddedIsOn(t: Trace, i: nat, u: UserId, now: int)
    requires Run(t) && i < |t.actions|
    ensures IsBlocked(AddedBlocks(t, i), u, now) <==> BlockOn(t, i, u, now)
  {
    var added := AddedBlocks(t, i);
    if BlockOn(t, i, u, now) {
      assert |added| == 1 && BlocksAt(added[0], u, now);
    }
  }

  lemma {:induction false} BlockedConcat(a: seq<BlockedUser>, b: seq<BlockedUser>, u: UserId, now: int)
    ensures IsBlocked(a + b, u, now) <==> IsBlocked(a, u, now) || IsBlocked(b, u, now)
  {
    assert forall i :: 0 <= i < |a| ==> (a + b)[i] == a[i];
    assert forall i :: 0 <= i < |b| ==> (a + b)[|a| + i] == b[i];
    if i :| 0 <= i < |b| && BlocksAt(b[i], u, now) {
      assert BlocksAt((a + b)[|a| + i], u, now);
    }
    if i :| 0 <= i < |a| && BlocksAt(a[i], u, now) {
      assert BlocksAt((a + b)[i], u, now);
    }
  }

  lemma {:induction false} BlockedSince(t: Trace, k: nat, u: UserId, now: int)
    requires Run(t) && k < |t.states|
    ensures IsBlocked(t.states[k].blocks, u, now) <==> exists i: nat :: i < k && BlockOn(t, i, u, now)
    decreases k
  {
    if k > 0 {
      BlockedSince(t, k - 1, u, now);
      BlocksGrowBy(t, k - 1);
      BlockedConcat(t.states[k - 1].blocks, AddedBlocks(t, k - 1), u, now);
      AddedIsOn(t, k - 1, u, now);
    }
  }

  /** In every reachable state a user is blocked exactly when an operator's block is still on, or a
      wrong password less than thirty minutes ago made five failed logins in fifteen minutes. */
  lemma {:induction false} BlockedIff(t: Trace, k: nat, u: UserId)
    requires Run(t) && k < |t.states|
    ensures IsBlocked(t.states[k].blocks, u, t.states[k].store.now) <==>
            exists i: nat :: i < k && BlockOn(t, i, u, t.states[k].store.now)
  {
    BlockedSince(t, k, u, t.states[k].store.now);
  }
}
