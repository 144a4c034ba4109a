/** The admission decision every HTTP request goes through, over the session store. */
module AuthGuard {
  import opened Options
  import opened SessionStore
  import opened Auth

  datatype Route = Route(isHttp: bool, isPublic: bool, isAccessKey: bool, skipPasswordCheck: bool)

  /** What the request carries: no token, one that does not verify, or verified claims. */
  datatype Bearer = Missing | Unverified | Verified(sub: UserId, jti: Jti)

  datatype RequestUser = RequestUser(id: UserId, jti: Jti, profile: Profile, grants: Grants, mustChangePassword: bool)

  datatype Refusal = MissingToken | InvalidAccessToken | SessionRevoked | AccountExpired | MustChangePassword

  datatype Decision = NotChecked | Admitted(user: RequestUser) | Refused(why: Refusal)

  function CanActivate(route: Route, bearer: Bearer, store: Store, today: int): Decision {
    if !route.isHttp || route.isPublic || route.isAccessKey then NotChecked
    else
      match bearer
      case Missing => Refused(MissingToken)
      case Unverified => Refused(InvalidAccessToken)
      case Verified(sub, jti) =>
        match store.Get(jti)
        case None => Refused(SessionRevoked)
        case Some(session) =>
          if IsExpired(session.expiredAt, today) then Refused(AccountExpired)
          else if session.mustChangePassword && !route.skipPasswordCheck then Refused(MustChangePassword)
          else Admitted(RequestUser(sub, jti, session.profile, session.grants, session.mustChangePassword))
  }

  predicate Guarded(route: Route) {
    route.isHttp && !route.isPublic && !route.isAccessKey && !route.skipPasswordCheck
  }

  /** The account of the session is past its last day. */
  predicate PastLastDay(session: Session, today: int) {
    session.expiredAt.Some? && session.expiredAt.value < today
  }

  /** A route that is not HTTP, public, or for access keys is not decided here. Every other request is
      admitted exactly with a verified token of a live session, on an account not past its last day,
      that owes no password change or asks for a route that does not mind. */
  lemma {:induction false} AdmissionIff(route: Route, bearer: Bearer, store: Store, today: int)
    ensures CanActivate(route, bearer, store, today).NotChecked? <==>
            !route.isHttp || route.isPublic || route.isAccessKey
    ensures CanActivate(route, bearer, store, today).Admitted? <==>
            && route.isHttp && !route.isPublic && !route.isAccessKey
            && bearer.Verified? && store.Live(bearer.jti)
            && var session := store.keys[bearer.jti].session;
               && !PastLastDay(session, today)
               && (session.mustChangePassword ==> route.skipPasswordCheck)
    ensures CanActivate(route, bearer, store, today).Admitted? ==>
              var user, session := CanActivate(route, bearer, store, today).user, store.keys[bearer.jti].session;
              && user.id == bearer.sub && user.jti == bearer.jti && user.profile == session.profile
              && user.grants == session.grants && user.mustChangePassword == session.mustChangePassword
  {
  }

  /** Why a request is refused. */
  lemma {:induction false} RefusalIs(route: Route, bearer: Bearer, store: Store, today: int)
    requires CanActivate(route, bearer, store, today).Refused?
    ensures var why := CanActivate(route, bearer, store, today).why;
            && (why.MissingToken? <==> bearer.Missing?)
            && (why.InvalidAccessToken? <==> bearer.Unverified?)
            && (why.SessionRevoked? <==> bearer.Verified? && !store.Live(bearer.jti))
            && (why.AccountExpired? <==>
                bearer.Verified? && store.Live(bearer.jti) && PastLastDay(store.keys[bearer.jti].session, today))
  {
  }
}
