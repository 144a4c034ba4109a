/**
 One browser page calling `fetchWithAuth` any number of times, against the rotating refresh
 tokens of the server. Each asynchronous stretch of the page is one event, so a run is any
 interleaving of unboundedly many calls, their answers, the refreshes they share, and whatever
 else happens at the server.
 */
module SingleFlight {
  import opened Options
  import opened Auth

  /** A refresh request: on its way with a token, answered by the server, or seen by the page. */
  datatype Flight = InFlight(token: Token) | Answered(reply: Option<Token>) | Settled(ok: bool)

  datatype Phase = First | Waiting(flight: nat) | Second | Returned | SessionExpired

  datatype Call = Call(phase: Phase, sends: nat)

  /** `pending` is the module variable; `cookie` the refresh token the browser would send. */
  datatype Page = Page(pending: Option<nat>, flights: seq<Flight>, calls: map<nat, Call>, cookie: Token)

  /** `spent` records the tokens the server has rotated away, `presented` what each flight sent. */
  datatype World = World(page: Page, server: State, spent: set<Token>, presented: seq<Token>)

  datatype Event =
    | NewCall(call: nat)
    | FirstAnswer(call: nat, unauthorized: bool)
    | ServerAnswers(flight: nat, iam: IamUser, today: int, draw: Draw)
    | Settles(flight: nat)
    | Lost(flight: nat)
    | Resumes(call: nat)
    | SecondAnswer(call: nat)
    | Elsewhere(action: Action)

  function Advance(p: Page, c: nat, phase: Phase): Page
    requires c in p.calls
  {
    p.(calls := p.calls[c := p.calls[c].(phase := phase)])
  }

  function Send(p: Page, c: nat): Page
    requires c in p.calls
  {
    p.(calls := p.calls[c := Call(Second, p.calls[c].sends + 1)])
  }

  /** The tokens that stand for this page's login. */
  ghost function Held(w: World): set<Token> {
    {w.page.cookie} + set r | 0 <= r < |w.page.flights| && w.page.flights[r].Answered? && w.page.flights[r].reply.Some?
                        :: w.page.flights[r].reply.value
  }

  ghost predicate CanHappen(w: World, e: Event) {
    var p := w.page;
    match e
    case NewCall(c) => c !in p.calls
    case FirstAnswer(c, _) => c in p.calls && p.calls[c].phase == First
    case ServerAnswers(r, iam, today, draw) =>
      r < |p.flights| && p.flights[r].InFlight? && Auth.Enabled(w.server, Refresh(p.flights[r].token, iam, today, draw))
    case Settles(r) => r < |p.flights| && p.flights[r].Answered?
    case Lost(r) => r < |p.flights| && !p.flights[r].Settled?
    case Resumes(c) =>
      && c in p.calls && p.calls[c].phase.Waiting?
      && p.calls[c].phase.flight < |p.flights| && p.flights[p.calls[c].phase.flight].Settled?
    case SecondAnswer(c) => c in p.calls && p.calls[c].phase == Second
    case Elsewhere(a) => Auth.Enabled(w.server, a) && (a.Refresh? ==> a.token !in Held(w))
  }

  ghost function After(w: World, e: Event): World
    requires CanHappen(w, e)
  {
    var p := w.page;
    match e
    case NewCall(c) => w.(page := p.(calls := p.calls[c := Call(First, 1)]))
    case FirstAnswer(c, unauthorized) =>
      if !unauthorized then w.(page := Advance(p, c, Returned))
      else if p.pending.Some? then w.(page := Advance(p, c, Waiting(p.pending.value)))
      else
        var started := p.(pending := Some(|p.flights|), flights := p.flights + [InFlight(p.cookie)]);
        w.(page := Advance(started, c, Waiting(|p.flights|)), presented := w.presented + [p.cookie])
    case ServerAnswers(r, iam, today, draw) =>
      var t := p.flights[r].token;
      var answer := OnRefresh(w.server, t, iam, today, draw);
      var reply := if answer.outcome.Issued? then Some(answer.outcome.token) else None;
      World(p.(flights := p.flights[r := Answered(reply)]), answer.state,
            if Redeemable(w.server, t) then w.spent + {t} else w.spent, w.presented)
    case Settles(r) =>
      var reply := p.flights[r].reply;
      w.(page := p.(pending := None, flights := p.flights[r := Settled(reply.Some?)],
                    cookie := if reply.Some? then reply.value else p.cookie))
    case Lost(r) => w.(page := p.(pending := None, flights := p.flights[r := Settled(false)]))
    case Resumes(c) =>
      if p.flights[p.calls[c].phase.flight].ok then w.(page := Send(p, c))
      else w.(page := Advance(p, c, SessionExpired))
    case SecondAnswer(c) => w.(page := Advance(p, c, Returned))
    case Elsewhere(a) =>
      w.(server := Auth.Step(w.server, a).state,
         spent := if a.Refresh? && Redeemable(w.server, a.token) then w.spent + {a.token} else w.spent)
  }

  /** A page that has just logged in: no call yet, and a cookie the server knows and has not rotated. */
  ghost predicate Start(w: World) {
    && w.page.pending == None && w.page.flights == [] && w.page.calls == map[] && w.presented == []
    && w.spent <= w.server.tokens.Keys && w.page.cookie in w.server.tokens && w.page.cookie !in w.spent
  }

  datatype PageRun = PageRun(worlds: seq<World>, events: seq<Event>) {
    ghost predicate Edge(i: nat)
      requires |worlds| == |events| + 1 && i < |events|
    {
      CanHappen(worlds[i], events[i]) && worlds[i + 1] == After(worlds[i], events[i])
    }

    ghost predicate Valid() {
      |worlds| == |events| + 1 && Start(worlds[0]) && forall i :: 0 <= i < |events| ==> Edge(i)
    }
  }

  // ---------------------------------------------------------------- invariants

  /** The unsettled flight, if any, is the pending one. */
  ghost predicate OneFlight(p: Page) {
    forall r :: 0 <= r < |p.flights| ==> (!p.flights[r].Settled? <==> p.pending == Some(r))
  }

  ghost predicate SendsBounded(p: Page) {
    forall c :: c in p.calls ==>
      match p.calls[c].phase
      case First => p.calls[c].sends == 1
      case Waiting(r) => p.calls[c].sends == 1 && r < |p.flights|
      case SessionExpired => p.calls[c].sends == 1
      case Second => p.calls[c].sends == 2
      case Returned => 1 <= p.calls[c].sends <= 2
  }

  /** No refresh has failed so far. */
  ghost predicate NoFailure(p: Page) {
    forall r :: 0 <= r < |p.flights| ==> p.flights[r] != Settled(false)
  }

  /** The token this page would use next is one the server has not rotated away. */
  ghost predicate CookieUnspent(w: World) {
    var p := w.page;
    && (p.pending.None? ==> p.cookie !in w.spent)
    && forall r :: 0 <= r < |p.flights| ==>
         match p.flights[r]
         case InFlight(t) => t == p.cookie && t !in w.spent
         case Answered(reply) => reply.Some? ==> reply.value !in w.spent
         case Settled(_) => true
  }

  /** Each flight presented a token of its own: unspent before, spent once the server accepted it. */
  ghost predicate PresentedOnce(w: World) {
    var p := w.page;
    && |w.presented| == |p.flights|
    && (forall i, k :: 0 <= i < k < |w.presented| ==> w.presented[i] != w.presented[k])
    && forall r :: 0 <= r < |p.flights| ==>
         match p.flights[r]
         case InFlight(t) => w.presented[r] == t
         case Answered(reply) => reply.Some? ==> w.presented[r] in w.spent
         case Settled(ok) => ok ==> w.presented[r] in w.spent
  }

  ghost predicate Inv(w: World) {
    && OneFlight(w.page)
    && (w.page.pending.Some? ==> w.page.pending.value < |w.page.flights|)
    && SendsBounded(w.page)
    && w.spent <= w.server.tokens.Keys
    && Held(w) <= w.server.tokens.Keys
    && |w.presented| == |w.page.flights|
    && (NoFailure(w.page) ==> CookieUnspent(w) && PresentedOnce(w))
  }

  /** What the server does to its token table: rows stay, and an issued token is new. */
  lemma {:induction false} ServerGrows(s: State, a: Action)
    requires Auth.Enabled(s, a)
    ensures s.tokens.Keys <= Auth.Step(s, a).state.tokens.Keys
    ensures a.Refresh? && Auth.Step(s, a).outcome.Issued? ==>
              && Redeemable(s, a.token)
              && Auth.Step(s, a).outcome.token !in s.tokens
              && Auth.Step(s, a).outcome.token in Auth.Step(s, a).state.tokens
  {
  }

  lemma {:induction false} CallKeeps(w: World, e: Event)
    requires Inv(w) && CanHappen(w, e) && (e.NewCall? || e.Resumes? || e.SecondAnswer?)
    ensures Inv(After(w, e))
  {
    assert NoFailure(After(w, e).page) <==> NoFailure(w.page);
  }

  lemma {:induction false} FirstAnswerKeeps(w: World, e: Event)
    requires Inv(w) && CanHappen(w, e) && e.FirstAnswer?
    ensures Inv(After(w, e))
  {
    var p, q := w.page, After(w, e).page;
    if q.flights != p.flights {
      assert forall r :: 0 <= r < |p.flights| ==> q.flights[r] == p.flights[r] && p.flights[r].Settled?;
      assert NoFailure(q) ==> NoFailure(p);
    }
  }

  lemma {:induction false} ServerAnswerKeeps(w: World, e: Event)
    requires Inv(w) && CanHappen(w, e) && e.ServerAnswers?
    ensures Inv(After(w, e))
  {
    var p, q := w.page, After(w, e).page;
    ServerGrows(w.server, Refresh(p.flights[e.flight].token, e.iam, e.today, e.draw));
    assert forall r :: 0 <= r < |p.flights| && r != e.flight ==> q.flights[r] == p.flights[r] && p.flights[r].Settled?;
    assert NoFailure(q) ==> NoFailure(p) by {
      assert p.flights[e.flight] != Settled(false);
    }
  }

  lemma {:induction false} SettleKeeps(w: World, e: Event)
    requires Inv(w) && CanHappen(w, e) && e.Settles?
    ensures Inv(After(w, e))
  {
    var p, q := w.page, After(w, e).page;
    assert forall r :: 0 <= r < |p.flights| && r != e.flight ==> q.flights[r] == p.flights[r] && p.flights[r].Settled?;
    assert p.flights[e.flight].reply.Some? ==> p.flights[e.flight].reply.value in Held(w);
    if NoFailure(q) {
      assert q.flights[e.flight] == Settled(true);
      assert NoFailure(p);
    }
  }

  lemma {:induction false} LostKeeps(w: World, e: Event)
    requires Inv(w) && CanHappen(w, e) && e.Lost?
    ensures Inv(After(w, e))
  {
    var p, q := w.page, After(w, e).page;
    assert forall r :: 0 <= r < |p.flights| && r != e.flight ==> q.flights[r] == p.flights[r] && p.flights[r].Settled?;
    assert q.flights[e.flight] == Settled(false);
  }

  lemma {:induction false} ElsewhereKeeps(w: World, e: Event)
    requires Inv(w) && CanHappen(w, e) && e.Elsewhere?
    ensures Inv(After(w, e))
  {
    ServerGrows(w.server, e.action);
    var p := w.page;
    forall r | 0 <= r < |p.flights| && p.flights[r].Answered? && p.flights[r].reply.Some?
      ensures p.flights[r].reply.value in Held(w)
    {
    }
    assert Held(After(w, e)) == Held(w);
  }

  lemma {:induction false} EventKeeps(w: World, e: Event)
    requires Inv(w) && CanHappen(w, e)
    ensures Inv(After(w, e))
  {
    match e
    case NewCall(_) => CallKeeps(w, e);
    case FirstAnswer(_, _) => FirstAnswerKeeps(w, e);
    case ServerAnswers(_, _, _, _) => ServerAnswerKeeps(w, e);
    case Settles(_) => SettleKeeps(w, e);
    case Lost(_) => LostKeeps(w, e);
    case Resumes(_) => CallKeeps(w, e);
    case SecondAnswer(_) => CallKeeps(w, e);
    case Elsewhere(_) => ElsewhereKeeps(w, e);
  }

  lemma {:induction false} RunKeeps(run: PageRun, i: nat)
    requires run.Valid() && i < |run.worlds|
    ensures Inv(run.worlds[i])
  {
    if i > 0 {
      RunKeeps(run, i - 1);
      assert run.Edge(i - 1);
      EventKeeps(run.worlds[i - 1], run.events[i - 1]);
    }
  }

  // ---------------------------------------------------------------- what every interleaving keeps

  /** At most one refresh is outstanding, and a waiting call waits for it or for a settled one. */
  lemma {:induction false} AtMostOneOutstanding(run: PageRun, i: nat, r: nat, q: nat, c: nat)
    requires run.Valid() && i < |run.worlds| && r < |run.worlds[i].page.flights| && q < |run.worlds[i].page.flights|
    ensures var p := run.worlds[i].page;
            && (!p.flights[r].Settled? && !p.flights[q].Settled? ==> r == q)
            && (c in p.calls && p.calls[c].phase.Waiting? ==>
                  var f := p.calls[c].phase.flight;
                  f < |p.flights| && (p.flights[f].Settled? || p.pending == Some(f)))
  {
    RunKeeps(run, i);
  }

  /** A call sends its request once or twice. */
  lemma {:induction false} SendsAtMostTwice(run: PageRun, i: nat, c: nat)
    requires run.Valid() && i < |run.worlds| && c in run.worlds[i].page.calls
    ensures 1 <= run.worlds[i].page.calls[c].sends <= 2
  {
    RunKeeps(run, i);
  }

  /** While refreshes succeed, a refresh that starts presents a token not yet rotated away. */
  lemma {:induction false} NeverPresentsRotated(run: PageRun, i: nat)
    requires run.Valid() && i < |run.events| && NoFailure(run.worlds[i].page)
    requires |run.worlds[i].page.flights| < |run.worlds[i + 1].page.flights|
    ensures run.worlds[i + 1].presented == run.worlds[i].presented + [run.worlds[i].page.cookie]
    ensures run.worlds[i].page.cookie !in run.worlds[i].spent
  {
    RunKeeps(run, i);
    assert run.Edge(i);
  }

  /** While refreshes succeed, no token is ever presented twice. */
  lemma {:induction false} PresentsEachOnce(run: PageRun, i: nat, r: nat, q: nat)
    requires run.Valid() && i < |run.worlds| && NoFailure(run.worlds[i].page)
    requires r < q < |run.worlds[i].presented|
    ensures run.worlds[i].presented[r] != run.worlds[i].presented[q]
  {
    RunKeeps(run, i);
  }

  // ---------------------------------------------------------------- what becomes of a flight

  lemma {:induction false} FlightsStep(w: World, e: Event, r: nat)
    requires CanHappen(w, e) && r < |w.page.flights|
    ensures r < |After(w, e).page.flights|
    ensures w.page.flights[r].Settled? ==> After(w, e).page.flights[r] == w.page.flights[r]
  {
  }

  /** Flights are never forgotten, and a settled one stays as it settled. */
  lemma {:induction false} SettledStays(run: PageRun, i: nat, k: nat, r: nat)
    requires run.Valid() && i <= k < |run.worlds| && r < |run.worlds[i].page.flights|
    ensures r < |run.worlds[k].page.flights|
    ensures run.worlds[i].page.flights[r].Settled? ==> run.worlds[k].page.flights[r] == run.worlds[i].page.flights[r]
    decreases k
  {
    if i < k {
      SettledStays(run, i, k - 1, r);
      assert run.Edge(k - 1);
      FlightsStep(run.worlds[k - 1], run.events[k - 1], r);
    }
  }

  /** At event `j` the server answered flight `r`, with a token or without. */
  ghost predicate AnsweredWith(run: PageRun, j: nat, r: nat, reply: Option<Token>)
    requires run.Valid() && j < |run.events|
  {
    var w, e := run.worlds[j], run.events[j];
    && e.ServerAnswers? && e.flight == r && r < |w.page.flights| && w.page.flights[r].InFlight?
    && var outcome := OnRefresh(w.server, w.page.flights[r].token, e.iam, e.today, e.draw).outcome;
       reply == if outcome.Issued? then Some(outcome.token) else None
  }

  ghost predicate WasAnswered(run: PageRun, k: nat, r: nat, reply: Option<Token>)
    requires run.Valid() && k < |run.worlds|
  {
    exists j: nat :: j < k && AnsweredWith(run, j, r, reply)
  }

  ghost predicate WasLost(run: PageRun, k: nat, r: nat)
    requires run.Valid() && k < |run.worlds|
  {
    exists j: nat :: j < k && run.events[j] == Lost(r)
  }

  /** What the state of a flight says about the events before. */
  ghost predicate Accounted(run: PageRun, k: nat, r: nat)
    requires run.Valid() && k < |run.worlds| && r < |run.worlds[k].page.flights|
  {
    match run.worlds[k].page.flights[r]
    case InFlight(_) => true
    case Answered(reply) => WasAnswered(run, k, r, reply)
    case Settled(true) => exists t :: WasAnswered(run, k, r, Some(t))
    case Settled(false) => WasAnswered(run, k, r, None) || WasLost(run, k, r)
  }

  lemma {:induction false} AccountedStays(run: PageRun, k: nat, r: nat)
    requires run.Valid() && k + 1 < |run.worlds| && r < |run.worlds[k].page.flights| && Accounted(run, k, r)
    requires r < |run.worlds[k + 1].page.flights|
    requires run.worlds[k + 1].page.flights[r] == run.worlds[k].page.flights[r]
    ensures Accounted(run, k + 1, r)
  {
    forall reply | WasAnswered(run, k, r, reply) ensures WasAnswered(run, k + 1, r, reply) {
      var j: nat :| j < k && AnsweredWith(run, j, r, reply);
      assert j < k + 1;
    }
    if WasLost(run, k, r) {
      var j: nat :| j < k && run.events[j] == Lost(r);
      assert j < k + 1;
    }
  }

  lemma {:induction false} AccountedMoves(run: PageRun, k: nat, r: nat)
    requires run.Valid() && k + 1 < |run.worlds| && r < |run.worlds[k].page.flights| && Accounted(run, k, r)
    requires r < |run.worlds[k + 1].page.flights|
    requires run.worlds[k + 1].page.flights[r] != run.worlds[k].page.flights[r]
    ensures Accounted(run, k + 1, r)
  {
    assert run.Edge(k);
    var e, flight := run.events[k], run.worlds[k].page.flights[r];
    if e.ServerAnswers? {
      assert AnsweredWith(run, k, r, run.worlds[k + 1].page.flights[r].reply);
    } else if e.Settles? {
      var j: nat :| j < k && AnsweredWith(run, j, r, flight.reply);
      assert j < k + 1 && WasAnswered(run, k + 1, r, flight.reply);
      if flight.reply.Some? {
        assert WasAnswered(run, k + 1, r, Some(flight.reply.value));
      }
    } else {
      assert run.events[k] == Lost(r) && WasLost(run, k + 1, r);
    }
  }

  lemma {:induction false} NewFlight(w: World, e: Event, r: nat)
    requires CanHappen(w, e) && |w.page.flights| <= r < |After(w, e).page.flights|
    ensures After(w, e).page.flights[r].InFlight?
  {
  }

  /** A flight settles ok only if the server issued a token for it, and fails only if the server
      refused it or its answer was lost. */
  lemma {:induction false} FlightAccounted(run: PageRun, k: nat, r: nat)
    requires run.Valid() && k < |run.worlds| && r < |run.worlds[k].page.flights|
    ensures Accounted(run, k, r)
    decreases k
  {
    if k > 0 {
      assert run.Edge(k - 1);
      if r < |run.worlds[k - 1].page.flights| {
        FlightAccounted(run, k - 1, r);
        if run.worlds[k].page.flights[r] == run.worlds[k - 1].page.flights[r] {
          AccountedStays(run, k - 1, r);
        } else {
          AccountedMoves(run, k - 1, r);
        }
      } else {
        NewFlight(run.worlds[k - 1], run.events[k - 1], r);
      }
    }
  }

  /** When an answer settles, the page takes the token that the server issued, if it issued one. */
  lemma {:induction false} SettlingTakesToken(run: PageRun, k: nat, r: nat)
    requires run.Valid() && k < |run.events| && run.events[k] == Settles(r)
    ensures r < |run.worlds[k].page.flights| && run.worlds[k].page.flights[r].Answered?
    ensures var p, q := run.worlds[k].page, run.worlds[k + 1].page;
            var reply := p.flights[r].reply;
            && WasAnswered(run, k, r, reply) && q.pending == None
            && q.flights == p.flights[r := Settled(reply.Some?)]
            && q.cookie == if reply.Some? then reply.value else p.cookie
  {
    assert run.Edge(k);
    FlightAccounted(run, k, r);
  }

  /** A lost answer fails the flight and frees the page for another; the token stays what it was. */
  lemma {:induction false} LosingFails(run: PageRun, k: nat, r: nat)
    requires run.Valid() && k < |run.events| && run.events[k] == Lost(r)
    ensures r < |run.worlds[k].page.flights|
    ensures var p, q := run.worlds[k].page, run.worlds[k + 1].page;
            q.pending == None && q.flights == p.flights[r := Settled(false)] && q.cookie == p.cookie
  {
    assert run.Edge(k);
  }

  /** Nothing but a settling answer changes the token of the page. */
  lemma {:induction false} OnlySettlingChangesToken(run: PageRun, k: nat)
    requires run.Valid() && k < |run.events| && !run.events[k].Settles?
    ensures run.worlds[k + 1].page.cookie == run.worlds[k].page.cookie
  {
    assert run.Edge(k);
  }

  // ---------------------------------------------------------------- what becomes of a call

  ghost predicate FirstAnswered(run: PageRun, m: nat, c: nat, unauthorized: bool)
    requires run.Valid() && m < |run.events|
  {
    run.events[m] == FirstAnswer(c, unauthorized)
  }

  ghost predicate Resumed(run: PageRun, m: nat, k: nat, c: nat)
    requires run.Valid() && k < |run.worlds|
  {
    exists r: nat :: m < r < k && run.events[r] == Resumes(c)
  }

  /** The flight a call with a 401 waits for: the pending one, or else a new one. */
  function Awaited(p: Page): nat {
    if p.pending.Some? then p.pending.value else |p.flights|
  }

  /** A 401 starts a refresh exactly when none is pending; any other first answer starts none. */
  lemma {:induction false} FirstAnswerStarts(run: PageRun, m: nat, c: nat, unauthorized: bool)
    requires run.Valid() && m < |run.events| && FirstAnswered(run, m, c, unauthorized)
    ensures c in run.worlds[m].page.calls && run.worlds[m].page.calls[c] == Call(First, 1)
    ensures var p, q := run.worlds[m].page, run.worlds[m + 1].page;
            && q.flights == p.flights + (if unauthorized && p.pending.None? then [InFlight(p.cookie)] else [])
            && q.pending == (if unauthorized then Some(Awaited(p)) else p.pending)
            && c in q.calls && q.calls[c] == Call(if unauthorized then Waiting(Awaited(p)) else Returned, 1)
  {
    RunKeeps(run, m);
    assert run.Edge(m);
  }

  lemma {:induction false} CallStep(w: World, e: Event, c: nat)
    requires CanHappen(w, e) && c in w.page.calls && w.page.calls[c].phase != First
    ensures c in After(w, e).page.calls
    ensures e != Resumes(c) && e != SecondAnswer(c) ==> After(w, e).page.calls[c] == w.page.calls[c]
    ensures e == SecondAnswer(c) ==>
              w.page.calls[c].phase == Second && After(w, e).page.calls[c] == Call(Returned, w.page.calls[c].sends)
    ensures e == Resumes(c) ==>
              && w.page.calls[c].phase.Waiting? && w.page.calls[c].phase.flight < |w.page.flights|
              && After(w, e).page.flights == w.page.flights
              && var f := w.page.flights[w.page.calls[c].phase.flight];
                 && f.Settled?
                 && After(w, e).page.calls[c] == (if f.ok then Call(Second, w.page.calls[c].sends + 1)
                                                  else Call(SessionExpired, w.page.calls[c].sends))
  {
  }

  /** A call whose first answer is not a 401 returns after one send. */
  lemma {:induction false} OtherAnswerReturns(run: PageRun, m: nat, k: nat, c: nat)
    requires run.Valid() && m < k < |run.worlds| && FirstAnswered(run, m, c, false)
    ensures c in run.worlds[k].page.calls && run.worlds[k].page.calls[c] == Call(Returned, 1)
    decreases k
  {
    if k == m + 1 {
      FirstAnswerStarts(run, m, c, false);
    } else {
      OtherAnswerReturns(run, m, k - 1, c);
      assert run.Edge(k - 1);
      CallStep(run.worlds[k - 1], run.events[k - 1], c);
    }
  }

  /** Where a call stands that waits for flight `f`: resumed or not, and how the flight settled. */
  ghost predicate Stands(p: Page, c: nat, f: nat, resumed: bool) {
    && c in p.calls && f < |p.flights|
    && (!resumed ==> p.calls[c] == Call(Waiting(f), 1))
    && (resumed ==> p.flights[f].Settled?)
    && (resumed && p.flights[f] == Settled(true) ==> p.calls[c] == Call(Second, 2) || p.calls[c] == Call(Returned, 2))
    && (resumed && p.flights[f] == Settled(false) ==> p.calls[c] == Call(SessionExpired, 1))
  }

  lemma {:induction false} StandsStep(w: World, e: Event, c: nat, f: nat, resumed: bool)
    requires CanHappen(w, e) && Stands(w.page, c, f, resumed)
    ensures Stands(After(w, e).page, c, f, resumed || e == Resumes(c))
  {
    CallStep(w, e, c);
    FlightsStep(w, e, f);
  }

  lemma {:induction false} WaitingStands(run: PageRun, m: nat, k: nat, c: nat)
    requires run.Valid() && m < k < |run.worlds| && FirstAnswered(run, m, c, true)
    ensures Stands(run.worlds[k].page, c, Awaited(run.worlds[m].page), Resumed(run, m, k, c))
    decreases k
  {
    if k == m + 1 {
      FirstAnswerStarts(run, m, c, true);
      RunKeeps(run, m);
    } else {
      WaitingStands(run, m, k - 1, c);
      assert run.Edge(k - 1);
      StandsStep(run.worlds[k - 1], run.events[k - 1], c, Awaited(run.worlds[m].page), Resumed(run, m, k - 1, c));
      ResumedNext(run, m, k - 1, c);
    }
  }

  lemma {:induction false} ResumedNext(run: PageRun, m: nat, k: nat, c: nat)
    requires run.Valid() && m < k < |run.events|
    ensures Resumed(run, m, k + 1, c) <==> Resumed(run, m, k, c) || run.events[k] == Resumes(c)
  {
    if Resumed(run, m, k, c) {
      var r: nat :| m < r < k && run.events[r] == Resumes(c);
      assert m < r < k + 1;
    }
  }

  /** Once a call got a 401: it is sent a second time exactly when it has resumed and the flight it
      waited for settled ok, and it ends with an expired session exactly when that flight failed. */
  lemma {:induction false} UnauthorizedEndsIff(run: PageRun, m: nat, k: nat, c: nat)
    requires run.Valid() && m < k < |run.worlds| && FirstAnswered(run, m, c, true)
    ensures c in run.worlds[k].page.calls && Awaited(run.worlds[m].page) < |run.worlds[k].page.flights|
    ensures var p := run.worlds[k].page;
            var flight := p.flights[Awaited(run.worlds[m].page)];
            && (p.calls[c].sends == 2 <==> Resumed(run, m, k, c) && flight == Settled(true))
            && (p.calls[c].phase == SessionExpired <==> Resumed(run, m, k, c) && flight == Settled(false))
            && (p.calls[c].phase.Waiting? <==> !Resumed(run, m, k, c))
  {
    WaitingStands(run, m, k, c);
  }

  lemma {:induction false} PastFirstWasAnswered(run: PageRun, k: nat, c: nat) returns (m: nat, unauthorized: bool)
    requires run.Valid() && k < |run.worlds| && c in run.worlds[k].page.calls
    requires run.worlds[k].page.calls[c].phase != First
    ensures m < k && FirstAnswered(run, m, c, unauthorized)
    decreases k
  {
    assert run.Edge(k - 1);
    var w, e := run.worlds[k - 1], run.events[k - 1];
    if c in w.page.calls && w.page.calls[c].phase != First {
      m, unauthorized := PastFirstWasAnswered(run, k - 1, c);
    } else {
      assert e.FirstAnswer? && e.call == c;
      m, unauthorized := k - 1, e.unauthorized;
    }
  }

  /** A second send for `c` is due by `k`: a 401 came, and the flight awaited since settled ok. */
  ghost predicate RetryDue(run: PageRun, m: nat, k: nat, c: nat)
    requires run.Valid() && m < k < |run.worlds|
  {
    && FirstAnswered(run, m, c, true) && Resumed(run, m, k, c)
    && Awaited(run.worlds[m].page) < |run.worlds[k].page.flights|
    && run.worlds[k].page.flights[Awaited(run.worlds[m].page)] == Settled(true)
  }

  /** Over any run, a call sends twice exactly when its first answer was a 401 and the flight it then
      waited for settled ok. */
  lemma {:induction false} SendsTwiceIff(run: PageRun, k: nat, c: nat)
    requires run.Valid() && k < |run.worlds| && c in run.worlds[k].page.calls
    ensures run.worlds[k].page.calls[c].sends == 2 <==> exists m: nat :: m < k && RetryDue(run, m, k, c)
  {
    RunKeeps(run, k);
    if run.worlds[k].page.calls[c].sends == 2 {
      var m, unauthorized := PastFirstWasAnswered(run, k, c);
      if !unauthorized {
        OtherAnswerReturns(run, m, k, c);
      } else {
        UnauthorizedEndsIff(run, m, k, c);
        assert RetryDue(run, m, k, c);
      }
    }
    if m: nat :| m < k && RetryDue(run, m, k, c) {
      UnauthorizedEndsIff(run, m, k, c);
    }
  }
}
