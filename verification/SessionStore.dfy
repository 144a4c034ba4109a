/**
 The `session:<jti>` keys and the `user_sessions:<user>` index, as values.

 A key is visible while its expiry lies in the future; an expired key stays in `keys`
 but answers every read as absent. `Coherent` is the invariant that makes the per-user
 index agree with a scan of the whole keyspace.
 */
module SessionStore {
  import opened Options

  type Jti = string
  type UserId = string

  datatype Grants = Grants(roles: seq<string>, permissions: seq<string>, conditional: seq<string>)
  datatype Profile = Profile(username: string, fullname: Option<string>, email: Option<string>)

  datatype Session = Session(
    userId: UserId, profile: Profile, grants: Grants, expiredAt: Option<int>, mustChangePassword: bool)

  datatype Entry = Entry(session: Session, expiresAt: int)

  datatype Store = Store(now: int, keys: map<Jti, Entry>, index: map<UserId, set<Jti>>) {
    predicate Live(jti: Jti) {
      jti in keys && keys[jti].expiresAt > now
    }

    function Get(jti: Jti): Option<Session> {
      if Live(jti) then Some(keys[jti].session) else None
    }

    /** Remaining whole seconds; -2 for a key that does not exist. */
    function Ttl(jti: Jti): int {
      if Live(jti) then keys[jti].expiresAt - now else -2
    }

    function Members(u: UserId): set<Jti> {
      if u in index then index[u] else {}
    }

    /** What the index lets a reader see: its members that are still live. */
    function Listed(u: UserId): set<Jti> {
      set j | j in Members(u) && Live(j)
    }

    /** What a full scan sees: the live sessions whose blob names `u`. */
    function Owned(u: UserId): set<Jti> {
      set j | j in keys && Live(j) && keys[j].session.userId == u
    }

    function Create(jti: Jti, session: Session, ttl: nat): Store {
      Store(now, keys[jti := Entry(session, now + ttl)],
            index[session.userId := Members(session.userId) + {jti}])
    }

    function Revoke(jti: Jti): Store {
      Store(now, keys - {jti},
            if Live(jti) then
              var u := keys[jti].session.userId;
              index[u := Members(u) - {jti}]
            else index)
    }

    /** The lazy pruning every read through the index performs. */
    function Prune(u: UserId): Store {
      Store(now, keys, if u in index then index[u := Listed(u)] else index)
    }

    function InvalidateAll(u: UserId): Store {
      if Listed(u) == {} then Prune(u)
      else Store(now, keys - Listed(u), index - {u})
    }

    /** Rewrites the listed blobs of a user in place, keeping each remaining lifetime. */
    function Rewrite(u: UserId, change: Change): Store {
      Prune(u).(keys := map j | j in keys ::
        if j in Listed(u) then Entry(Apply(change, keys[j].session), keys[j].expiresAt) else keys[j])
    }

    function Wait(seconds: nat): Store {
      Store(now + seconds, keys, index)
    }
  }

  datatype Change = NewGrants(grants: Grants) | MustChange(flag: bool)

  function Apply(change: Change, s: Session): (r: Session)
    ensures r.userId == s.userId && r.profile == s.profile && r.expiredAt == s.expiredAt
    ensures change.NewGrants? ==> r.mustChangePassword == s.mustChangePassword && r.grants == change.grants
    ensures change.MustChange? ==> r.mustChangePassword == change.flag && r.grants == s.grants
  {
    match change
    case NewGrants(g) => s.(grants := g)
    case MustChange(flag) => s.(mustChangePassword := flag)
  }

  /** One call on the store, or time passing. */
  datatype Call =
    | Create(jti: Jti, session: Session, ttl: nat)
    | Revoke(jti: Jti)
    | List(user: UserId)
    | InvalidateAll(user: UserId)
    | Rewrite(user: UserId, change: Change)
    | Wait(seconds: nat)

  function Do(s: Store, c: Call): Store {
    match c
    case Create(j, d, ttl) => s.Create(j, d, ttl)
    case Revoke(j) => s.Revoke(j)
    case List(u) => s.Prune(u)
    case InvalidateAll(u) => s.InvalidateAll(u)
    case Rewrite(u, ch) => s.Rewrite(u, ch)
    case Wait(n) => s.Wait(n)
  }

  /** The jtis a run has handed out so far; `randomUUID` never repeats one. */
  ghost predicate Coherent(s: Store, used: set<Jti>) {
    && (forall j :: s.Live(j) ==> j in s.Members(s.keys[j].session.userId))
    && (forall u, j :: j in s.Members(u) && j in s.keys ==> s.keys[j].session.userId == u)
    && (forall j :: j in s.keys ==> j in used)
    && (forall u, j :: j in s.Members(u) ==> j in used)
  }

  ghost predicate Fresh(c: Call, used: set<Jti>) {
    c.Create? ==> c.jti !in used
  }

  ghost function Used(c: Call, used: set<Jti>): set<Jti> {
    if c.Create? then used + {c.jti} else used
  }

  /** Losing keys, members and lifetime keeps coherence, as long as live keys stay listed. */
  lemma {:induction false} ShrinkCoherent(s: Store, t: Store, used: set<Jti>)
    requires Coherent(s, used)
    requires forall j :: j in t.keys ==> j in s.keys && t.keys[j].session.userId == s.keys[j].session.userId
    requires forall j :: t.Live(j) ==> s.Live(j)
    requires forall u :: t.Members(u) <= s.Members(u)
    requires forall u, j :: j in s.Members(u) && t.Live(j) ==> j in t.Members(u)
    ensures Coherent(t, used)
  {
  }

  lemma {:induction false} CreateCoherent(s: Store, used: set<Jti>, j: Jti, d: Session, ttl: nat)
    requires Coherent(s, used) && j !in used
    ensures Coherent(s.Create(j, d, ttl), used + {j})
  {
    var t := s.Create(j, d, ttl);
    assert forall u :: t.Members(u) == s.Members(u) + if u == d.userId then {j} else {};
  }

  lemma {:induction false} RevokeCoherent(s: Store, used: set<Jti>, j: Jti)
    requires Coherent(s, used)
    ensures Coherent(s.Revoke(j), used)
  {
    ShrinkCoherent(s, s.Revoke(j), used);
  }

  lemma {:induction false} PruneCoherent(s: Store, used: set<Jti>, u: UserId)
    requires Coherent(s, used)
    ensures Coherent(s.Prune(u), used)
  {
    ShrinkCoherent(s, s.Prune(u), used);
  }

  lemma {:induction false} InvalidateCoherent(s: Store, used: set<Jti>, u: UserId)
    requires Coherent(s, used)
    ensures Coherent(s.InvalidateAll(u), used)
  {
    if s.Listed(u) == {} {
      PruneCoherent(s, used, u);
    } else {
      ShrinkCoherent(s, s.InvalidateAll(u), used);
    }
  }

  lemma {:induction false} RewriteCoherent(s: Store, used: set<Jti>, u: UserId, change: Change)
    requires Coherent(s, used)
    ensures Coherent(s.Rewrite(u, change), used)
  {
    var p, t := s.Prune(u), s.Rewrite(u, change);
    PruneCoherent(s, used, u);
    assert forall j :: t.Live(j) <==> p.Live(j);
    assert forall v :: t.Members(v) == p.Members(v);
    ShrinkCoherent(p, t, used);
  }

  lemma {:induction false} DoCoherent(s: Store, used: set<Jti>, c: Call)
    requires Coherent(s, used) && Fresh(c, used)
    ensures Coherent(Do(s, c), Used(c, used))
  {
    match c
    case Create(j, d, ttl) => CreateCoherent(s, used, j, d, ttl);
    case Revoke(j) => RevokeCoherent(s, used, j);
    case List(u) => PruneCoherent(s, used, u);
    case InvalidateAll(u) => InvalidateCoherent(s, used, u);
    case Rewrite(u, change) => RewriteCoherent(s, used, u, change);
    case Wait(n) => ShrinkCoherent(s, s.Wait(n), used);
  }

  /** The index agrees with a full scan. */
  lemma {:induction false} ListedIsOwned(s: Store, used: set<Jti>, u: UserId)
    requires Coherent(s, used)
    ensures s.Listed(u) == s.Owned(u)
  {
  }

  /** Pruning drops only dead jtis. */
  lemma {:induction false} PruneDropsDead(s: Store, u: UserId, v: UserId, j: Jti)
    ensures s.Prune(u).keys == s.keys
    ensures j in s.Members(v) && j !in s.Prune(u).Members(v) ==> v == u && !s.Live(j)
    ensures j in s.Prune(u).Members(v) <==> j in s.Members(v) && (v == u ==> s.Live(j))
  {
  }

  lemma {:induction false} PruneNothing(s: Store, u: UserId)
    requires s.Members(u) <= s.Listed(u)
    ensures s.Prune(u) == s
  {
    if u in s.index {
      assert s.Listed(u) == s.index[u];
      assert s.index[u := s.index[u]] == s.index;
    }
  }

  /** Invalidation ends all sessions of one user and none of another. */
  lemma {:induction false} InvalidateEndsExactly(s: Store, used: set<Jti>, u: UserId, j: Jti)
    requires Coherent(s, used)
    ensures s.InvalidateAll(u).Live(j) <==> s.Live(j) && s.keys[j].session.userId != u
    ensures s.InvalidateAll(u).Live(j) ==> s.InvalidateAll(u).keys[j] == s.keys[j]
    ensures forall v :: s.InvalidateAll(u).Members(v) == if v == u then {} else s.Members(v)
  {
    ListedIsOwned(s, used, u);
  }

  /** No call makes a used, dead jti live again, and a survivor keeps its owner and its expiry. */
  lemma {:induction false} DeadStaysDead(s: Store, used: set<Jti>, c: Call, j: Jti)
    requires Coherent(s, used) && Fresh(c, used) && j in used
    ensures Do(s, c).Live(j) ==> s.Live(j)
    ensures Do(s, c).Live(j) ==>
              && Do(s, c).keys[j].session.userId == s.keys[j].session.userId
              && Do(s, c).keys[j].expiresAt == s.keys[j].expiresAt
  {
  }

  /** What a call leaves in the blob of a session that survives it. */
  lemma {:induction false} BlobAfter(s: Store, used: set<Jti>, c: Call, j: Jti)
    requires Coherent(s, used) && Fresh(c, used) && j in used && Do(s, c).Live(j)
    ensures s.Live(j)
    ensures var session := s.keys[j].session;
            Do(s, c).keys[j].session ==
            if c.Rewrite? && c.user == session.userId then Apply(c.change, session) else session
  {
    DeadStaysDead(s, used, c, j);
    if c.Rewrite? {
      ListedIsOwned(s, used, c.user);
    }
  }

  /** Revoking ends exactly the named session; the others keep their key as it is. */
  lemma {:induction false} RevokeEndsExactly(s: Store, jti: Jti, j: Jti)
    ensures s.Revoke(jti).Live(j) <==> s.Live(j) && j != jti
    ensures s.Revoke(jti).Live(j) ==> s.Revoke(jti).keys[j] == s.keys[j]
    ensures forall u :: s.Revoke(jti).Members(u) ==
              s.Members(u) - if s.Live(jti) && s.keys[jti].session.userId == u then {jti} else {}
  {
  }

  /** A live session survives a call exactly unless the call revokes it, ends its owner's sessions, or
      lets its time run out; its owner and expiry stay. */
  lemma {:induction false} SurvivesIff(s: Store, used: set<Jti>, c: Call, j: Jti)
    requires Coherent(s, used) && Fresh(c, used) && j in used && s.Live(j)
    ensures Do(s, c).Live(j) <==>
            && Do(s, c).now < s.keys[j].expiresAt
            && c != Call.Revoke(j) && c != Call.InvalidateAll(s.keys[j].session.userId)
    ensures Do(s, c).now == s.now + if c.Wait? then c.seconds else 0
  {
    if c.InvalidateAll? {
      InvalidateEndsExactly(s, used, c.user, j);
    }
  }

  /** Creating a session adds exactly its key, with the lifetime given, and its member. */
  lemma {:induction false} CreateAddsExactly(s: Store, jti: Jti, session: Session, ttl: nat, j: Jti)
    ensures var t := s.Create(jti, session, ttl);
            && t.now == s.now && t.keys.Keys == s.keys.Keys + {jti}
            && t.keys[jti] == Entry(session, s.now + ttl)
            && (j in s.keys && j != jti ==> t.keys[j] == s.keys[j])
            && forall u :: t.Members(u) == s.Members(u) + if u == session.userId then {jti} else {}
  {
  }
}
