/** The Redis session store as an object: each method is proved against the value-level store. */
module SessionStoreService {
  import opened Options
  import opened SessionStore

  datatype ActiveSession = ActiveSession(jti: Jti, session: Session, ttlSeconds: int)

  /** `active` lists each live, indexed session of `u` exactly once, with its blob and lifetime. */
  ghost predicate Lists(s: Store, u: UserId, active: seq<ActiveSession>) {
    && (forall i, k :: 0 <= i < k < |active| ==> active[i].jti != active[k].jti)
    && (forall i :: 0 <= i < |active| ==>
          var a := active[i];
          a.jti in s.Listed(u) && a.session == s.keys[a.jti].session && a.ttlSeconds == s.Ttl(a.jti))
    && (forall j :: j in s.Listed(u) ==> exists i :: 0 <= i < |active| && active[i].jti == j)
  }

  class SessionStoreService {
    var now: int
    var keys: map<Jti, Entry>
    var index: map<UserId, set<Jti>>

    ghost function State(): Store
      reads this
    {
      Store(now, keys, index)
    }

    constructor (now: int)
      ensures State() == Store(now, map[], map[])
    {
      this.now, this.keys, this.index := now, map[], map[];
    }

    method Smembers(u: UserId) returns (members: set<Jti>)
      ensures members == State().Members(u)
    {
      members := if u in index then index[u] else {};
    }

    method Setex(jti: Jti, ttl: int, session: Session)
      modifies this`keys
      ensures keys == old(keys)[jti := Entry(session, now + ttl)]
    {
      keys := keys[jti := Entry(session, now + ttl)];
    }

    method Create(jti: Jti, session: Session, ttlSeconds: nat)
      modifies this
      ensures State() == old(State()).Create(jti, session, ttlSeconds)
    {
      Setex(jti, ttlSeconds, session);
      var members := Smembers(session.userId);
      index := index[session.userId := members + {jti}];
    }

    method Get(jti: Jti) returns (r: Option<Session>)
      ensures r == State().Get(jti)
    {
      r := None;
      if jti in keys && keys[jti].expiresAt > now {
        r := Some(keys[jti].session);
      }
    }

    method Ttl(jti: Jti) returns (r: int)
      ensures r == State().Ttl(jti)
    {
      r := -2;
      if jti in keys && keys[jti].expiresAt > now {
        r := keys[jti].expiresAt - now;
      }
    }

    method Revoke(jti: Jti)
      modifies this
      ensures State() == old(State()).Revoke(jti)
    {
      var session := Get(jti);
      keys := keys - {jti};
      if session.Some? {
        var members := Smembers(session.value.userId);
        index := index[session.value.userId := members - {jti}];
      }
    }

    method ListActiveSessions(userId: UserId) returns (active: seq<ActiveSession>)
      modifies this`index
      ensures State() == old(State()).Prune(userId)
      ensures Lists(old(State()), userId, active)
    {
      var jtis := Smembers(userId);
      active := [];
      ghost var s := State();
      if jtis == {} {
        PruneNothing(s, userId);
        return;
      }
      var todo, stale := jtis, {};
      while todo != {}
        invariant State() == s && todo <= jtis && stale <= jtis - todo
        invariant forall j :: j in jtis - todo ==> (j in stale <==> !s.Live(j))
        invariant forall i, k :: 0 <= i < k < |active| ==> active[i].jti != active[k].jti
        invariant forall i :: 0 <= i < |active| ==>
                    var a := active[i];
                    a.jti in jtis - todo && s.Live(a.jti) && a.session == s.keys[a.jti].session &&
                      a.ttlSeconds == s.Ttl(a.jti)
        invariant forall j :: j in jtis - todo && s.Live(j) ==> exists i :: 0 <= i < |active| && active[i].jti == j
      {
        var jti :| jti in todo;
        var session := Get(jti);
        var ttl := Ttl(jti);
        ghost var before := active;
        if session.None? || ttl <= 0 {
          stale := stale + {jti};
        } else {
          active := active + [ActiveSession(jti, session.value, ttl)];
          assert active[|before|].jti == jti;
        }
        assert forall i :: 0 <= i < |before| ==> active[i] == before[i];
        todo := todo - {jti};
      }
      assert s.Listed(userId) == jtis - stale;
      if stale != {} {
        index := index[userId := jtis - stale];
      } else {
        PruneNothing(s, userId);
      }
    }

    method CountActiveSessions(userId: UserId) returns (n: nat)
      modifies this`index
      ensures State() == old(State()).Prune(userId)
      ensures n == |old(State()).Listed(userId)|
    {
      var active := ListActiveSessions(userId);
      n := |active|;
      ListsCount(old(State()), userId, active);
    }

    method DelAll(active: seq<ActiveSession>)
      modifies this`keys
      ensures keys == old(keys) - JtisOf(active)
    {
      for n := 0 to |active|
        invariant keys == old(keys) - JtisOf(active[..n])
      {
        assert JtisOf(active[..n + 1]) == JtisOf(active[..n]) + {active[n].jti};
        keys := keys - {active[n].jti};
      }
      assert active[..|active|] == active;
    }

    /** Sets each listed blob again, with its remaining lifetime. */
    method SetAll(ghost s: Store, ghost u: UserId, active: seq<ActiveSession>, change: Change)
      requires Lists(s, u, active) && now == s.now && keys == s.keys
      modifies this`keys
      ensures keys.Keys == s.keys.Keys
      ensures forall j :: j in keys ==> keys[j] == Rewritten(s, JtisOf(active), change, j)
    {
      for n := 0 to |active|
        invariant keys.Keys == s.keys.Keys
        invariant forall j :: j in keys ==> keys[j] == Rewritten(s, JtisOf(active[..n]), change, j)
      {
        var a := active[n];
        assert a.jti in s.Listed(u);
        assert JtisOf(active[..n + 1]) == JtisOf(active[..n]) + {a.jti};
        Setex(a.jti, a.ttlSeconds, Apply(change, a.session));
      }
      assert active[..|active|] == active;
    }

    method InvalidateAllForUser(userId: UserId) returns (killed: nat)
      modifies this
      ensures State() == old(State()).InvalidateAll(userId)
      ensures killed == |old(State()).Listed(userId)|
    {
      var active := ListActiveSessions(userId);
      ListsCount(old(State()), userId, active);
      if active == [] {
        return 0;
      }
      DelAll(active);
      index := index - {userId};
      assert index == old(index) - {userId};
      return |active|;
    }

    /** The shared shape of the in-place rewrites: list, then set each blob with its own lifetime. */
    method RewriteAll(userId: UserId, change: Change) returns (updated: nat)
      modifies this
      ensures State() == old(State()).Rewrite(userId, change)
      ensures updated == |old(State()).Listed(userId)|
    {
      ghost var s := State();
      var active := ListActiveSessions(userId);
      ListsCount(s, userId, active);
      SetAll(s, userId, active, change);
      assert keys == s.Rewrite(userId, change).keys;
      return |active|;
    }

    method RefreshPermissionsForUser(userId: UserId, grants: Grants) returns (updated: nat)
      modifies this
      ensures State() == old(State()).Rewrite(userId, NewGrants(grants))
      ensures updated == |old(State()).Listed(userId)|
    {
      updated := RewriteAll(userId, NewGrants(grants));
    }

    method SetMustChangePasswordForUser(userId: UserId, mustChange: bool) returns (updated: nat)
      modifies this
      ensures State() == old(State()).Rewrite(userId, MustChange(mustChange))
      ensures updated == |old(State()).Listed(userId)|
    {
      updated := RewriteAll(userId, MustChange(mustChange));
    }
  }

  ghost function Rewritten(s: Store, jtis: set<Jti>, change: Change, j: Jti): Entry
    requires j in s.keys
  {
    if j in jtis then Entry(Apply(change, s.keys[j].session), s.keys[j].expiresAt) else s.keys[j]
  }

  ghost function JtisOf(active: seq<ActiveSession>): set<Jti> {
    set i | 0 <= i < |active| :: active[i].jti
  }

  lemma {:induction false} ListsCount(s: Store, u: UserId, active: seq<ActiveSession>)
    requires Lists(s, u, active)
    ensures JtisOf(active) == s.Listed(u) && |active| == |s.Listed(u)|
  {
    DistinctCount(active);
  }

  lemma {:induction false} DistinctCount(active: seq<ActiveSession>)
    requires forall i, k :: 0 <= i < k < |active| ==> active[i].jti != active[k].jti
    ensures |JtisOf(active)| == |active|
  {
    if active != [] {
      var n := |active| - 1;
      DistinctCount(active[..n]);
      assert JtisOf(active) == JtisOf(active[..n]) + {active[n].jti};
    }
  }
}
