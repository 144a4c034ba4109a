/** The page window, the pagination metadata and the navigation links of a paginated read. */
module Pagination {
  import opened Options

  const DEFAULT_LIMIT := 10
  const MIN_LIMIT := 1
  const MIN_PAGE := 1
  const MAX_QUERY_LIMIT := 2000

  /** What `Number(x)` makes of a parameter; a missing parameter is not a number. */
  datatype Number = NaN | MinusInfinity | PlusInfinity | Num(value: real)

  datatype Query = Query(page: Number, limit: Number, offset: Option<nat>)

  function Max(a: int, b: int): int {
    if a < b then b else a
  }

  function Min(a: int, b: int): int {
    if a < b then a else b
  }

  /** The parameter rounded down and raised to the minimum; only plus infinity stays infinite. */
  function ParsePositiveInteger(value: Number, default: int, minimum: int): Number {
    match value
    case NaN => Num(default as real)
    case MinusInfinity => Num(minimum as real)
    case PlusInfinity => PlusInfinity
    case Num(r) => Num(Max(minimum, r.Floor) as real)
  }

  /** The cap from `QUERY_MAX_LIMIT`, or the fallback. */
  function ResolveMaxLimit(env: Number): int {
    if env.Num? && env.value > 0.0 then env.value.Floor else MAX_QUERY_LIMIT
  }

  function Limit(env: Number, q: Query): int {
    match ParsePositiveInteger(q.limit, DEFAULT_LIMIT, MIN_LIMIT)
    case Num(r) => Min(r.Floor, ResolveMaxLimit(env))
    case _ => ResolveMaxLimit(env)
  }

  /** The page that is served. */
  function PageNumber(q: Query): (p: Number)
    ensures p.PlusInfinity? || (p.Num? && p.value >= 1.0 && p.value.Floor as real == p.value)
  {
    ParsePositiveInteger(q.page, MIN_PAGE, MIN_PAGE)
  }

  /** Rows to skip; none where the page is infinite and no offset is given. */
  function Skip(env: Number, q: Query): Option<int> {
    if q.offset.Some? then Some(q.offset.value)
    else if PageNumber(q).Num? then Some((PageNumber(q).value.Floor - 1) * Limit(env, q))
    else None
  }

  /** The page is never empty by configuration, except for a cap strictly between zero and one. */
  lemma {:induction false} LimitIsPositiveIff(env: Number)
    ensures (forall q :: Limit(env, q) >= 1) <==> !(env.Num? && 0.0 < env.value < 1.0)
  {
    var q := Query(NaN, NaN, None);
    assert (DEFAULT_LIMIT as real).Floor == DEFAULT_LIMIT;
    assert env.Num? && 0.0 < env.value < 1.0 ==> Limit(env, q) == 0;
    forall q | !(env.Num? && 0.0 < env.value < 1.0) ensures Limit(env, q) >= 1 {
      var asked := ParsePositiveInteger(q.limit, DEFAULT_LIMIT, MIN_LIMIT);
      assert asked.Num? ==> asked.value.Floor >= 1;
    }
  }

  ghost predicate Capped(env: Number) {
    !(env.Num? && 0.0 < env.value < 1.0)
  }

  // ---------------------------------------------------------------- the response

  datatype Link = Link(page: Number, limit: int)

  datatype Links = Links(first: Option<Link>, last: Option<Link>, prev: Option<Link>, next: Option<Link>)

  datatype Response<T> = Response(data: seq<T>, page: Number, pageSize: int, total: nat, totalPages: int, links: Links)

  /** `findAndCount` on an ordered result. */
  function Slice<T>(rows: seq<T>, skip: int, take: int): seq<T>
    requires skip >= 0 && take >= 0
  {
    if skip >= |rows| then [] else rows[skip..Min(skip + take, |rows|)]
  }

  function CeilDiv(n: nat, d: int): int
    requires d >= 1
  {
    (n + d - 1) / d
  }

  /** The page the metadata reports: the raw parameter, not the clamped one. */
  function ReportedPage(q: Query): Number {
    if q.page.NaN? || q.page == Num(0.0) then Num(1.0) else q.page
  }

  /** `page + d`; infinities stay. */
  function Shift(page: Number, d: real): Number {
    if page.Num? then Num(page.value + d) else page
  }

  predicate Above(page: Number, n: int) {
    page.PlusInfinity? || (page.Num? && page.value > n as real)
  }

  predicate Below(page: Number, n: int) {
    page.MinusInfinity? || (page.Num? && page.value < n as real)
  }

  /** Navigation links, from the reported page. */
  function LinksFor(nonEmpty: bool, page: Number, pageSize: int, totalPages: int): Links {
    Links(
      if nonEmpty then Some(Link(Num(1.0), pageSize)) else None,
      if nonEmpty then Some(Link(Num(totalPages as real), pageSize)) else None,
      if Above(page, 1) then Some(Link(Shift(page, -1.0), pageSize)) else None,
      if Below(page, totalPages) then Some(Link(Shift(page, 1.0), pageSize)) else None)
  }

  lemma {:induction false} SkipIsNatural(env: Number, q: Query)
    requires Limit(env, q) >= 1 && Skip(env, q).Some?
    ensures Skip(env, q).value >= 0
  {
    if q.offset.None? {
      var page := PageNumber(q).value.Floor;
      assert page as real >= 1.0;
      ProductIsNatural(page - 1, Limit(env, q));
    }
  }

  lemma {:induction false} ProductIsNatural(a: int, b: int)
    requires a >= 0 && b >= 0
    ensures a * b >= 0
  {
  }

  /** The response; nothing where there is no finite number of rows to skip. */
  function FindPaginated<T>(rows: seq<T>, env: Number, q: Query): Option<Response<T>>
    requires Limit(env, q) >= 1
  {
    match Skip(env, q)
    case None => None
    case Some(skip) =>
      SkipIsNatural(env, q);
      var limit := Limit(env, q);
      var data := Slice(rows, skip, limit);
      var totalPages := CeilDiv(|rows|, limit);
      var links := LinksFor(data != [], ReportedPage(q), limit, totalPages);
      Some(Response(data, ReportedPage(q), limit, |rows|, totalPages, links))
  }

  /** The metadata names the page that was served exactly for whole positive numbers, plus infinity,
      zero and what is no number. */
  lemma {:induction false} ReportsServedPageIff(q: Query)
    ensures ReportedPage(q) == PageNumber(q) <==>
            || q.page.NaN? || q.page.PlusInfinity? || q.page == Num(0.0)
            || (q.page.Num? && q.page.value >= 1.0 && q.page.value.Floor as real == q.page.value)
  {
  }

  // ---------------------------------------------------------------- all pages

  /** The query a link stands for. */
  function PageQuery(link: Link): Query {
    Query(link.page, Num(link.limit as real), None)
  }

  function PageLink(page: int, limit: int): Link {
    Link(Num(page as real), limit)
  }

  /** Asking with a limit that was already granted grants it again. */
  lemma {:induction false} GrantedAgain(env: Number, q: Query, page: int)
    requires Capped(env) && page >= 1
    ensures Limit(env, q) >= 1 && Limit(env, PageQuery(PageLink(page, Limit(env, q)))) == Limit(env, q)
    ensures PageNumber(PageQuery(PageLink(page, Limit(env, q)))) == Num(page as real)
  {
    LimitIsPositiveIff(env);
    assert (Limit(env, q) as real).Floor == Limit(env, q);
    assert (page as real).Floor == page;
  }

  function PageData<T>(rows: seq<T>, limit: int, page: int): seq<T>
    requires limit >= 1 && page >= 1
  {
    Slice(rows, (page - 1) * limit, limit)
  }

  /** The pages from `page` to the last one, in order. */
  function PagesFrom<T>(rows: seq<T>, limit: int, page: int): seq<T>
    requires limit >= 1 && page >= 1
    decreases CeilDiv(|rows|, limit) + 1 - page
  {
    if page > CeilDiv(|rows|, limit) then [] else PageData(rows, limit, page) + PagesFrom(rows, limit, page + 1)
  }

  lemma {:induction false} LastPage(n: nat, limit: int, page: int)
    requires limit >= 1 && page >= 1
    ensures page <= CeilDiv(n, limit) <==> (page - 1) * limit < n
  {
    var p := CeilDiv(n, limit);
    assert p * limit <= n + limit - 1 < p * limit + limit;
    if page <= p {
      assert (page - 1) * limit <= (p - 1) * limit == p * limit - limit;
    } else {
      assert (page - 1) * limit >= p * limit;
    }
  }

  lemma {:induction false} PagesAreSuffix<T>(rows: seq<T>, limit: int, page: int, skip: int)
    requires limit >= 1 && page >= 1 && skip == (page - 1) * limit && skip <= |rows| + limit
    ensures PagesFrom(rows, limit, page) == rows[Min(skip, |rows|)..]
    decreases CeilDiv(|rows|, limit) + 1 - page
  {
    LastPage(|rows|, limit, page);
    ProductIsNatural(page - 1, limit);
    if page <= CeilDiv(|rows|, limit) {
      NextSkip(page, limit);
      PagesAreSuffix(rows, limit, page + 1, skip + limit);
      SliceThenRest(rows, skip, limit);
    }
  }

  lemma {:induction false} NextSkip(page: int, limit: int)
    ensures (page - 1) * limit + limit == page * limit
  {
  }

  lemma {:induction false} SliceThenRest<T>(rows: seq<T>, skip: nat, limit: nat)
    requires skip < |rows|
    ensures Slice(rows, skip, limit) + rows[Min(skip + limit, |rows|)..] == rows[skip..]
  {
  }

  /** The pages 1..total_pages concatenate to the result; each is non-empty and within the cap. */
  lemma {:induction false} PagesCover<T>(rows: seq<T>, limit: int)
    requires limit >= 1
    ensures PagesFrom(rows, limit, 1) == rows
    ensures forall p :: 1 <= p <= CeilDiv(|rows|, limit) ==> 1 <= |PageData(rows, limit, p)| <= limit
  {
    PagesAreSuffix(rows, limit, 1, 0);
    forall p | 1 <= p <= CeilDiv(|rows|, limit) ensures 1 <= |PageData(rows, limit, p)| <= limit {
      LastPage(|rows|, limit, p);
    }
  }

  // ---------------------------------------------------------------- following the links

  lemma {:induction false} ServesPage<T>(rows: seq<T>, env: Number, q: Query, page: int)
    requires Capped(env) && page >= 1
    ensures Limit(env, q) >= 1 && Limit(env, PageQuery(PageLink(page, Limit(env, q)))) == Limit(env, q)
    ensures var limit := Limit(env, q);
            var found := FindPaginated(rows, env, PageQuery(PageLink(page, limit)));
            && found.Some? && found.value.data == PageData(rows, limit, page)
            && found.value.pageSize == limit && found.value.total == |rows|
            && found.value.links.next == (if page < CeilDiv(|rows|, limit) then Some(PageLink(page + 1, limit))
               else None)
            && found.value.links.prev == (if page > 1 then Some(PageLink(page - 1, limit)) else None)
  {
    GrantedAgain(env, q, page);
    assert (page as real).Floor == page && page as real != 0.0;
  }

  lemma {:induction false} CollectNext<T>(rows: seq<T>, limit: int, page: int, collected: seq<T>)
    requires limit >= 1 && 1 <= page <= CeilDiv(|rows|, limit) && collected + PagesFrom(rows, limit, page) == rows
    ensures (collected + PageData(rows, limit, page)) + PagesFrom(rows, limit, page + 1) == rows
  {
    var data, rest := PageData(rows, limit, page), PagesFrom(rows, limit, page + 1);
    assert PagesFrom(rows, limit, page) == data + rest;
    Regroup(collected, data, rest);
  }

  lemma {:induction false} Regroup<T>(a: seq<T>, b: seq<T>, c: seq<T>)
    ensures (a + b) + c == a + (b + c)
  {
  }

  /** The numbers 1, 2, 3 and so on. */
  ghost predicate CountsUp(visited: seq<Number>) {
    forall i :: 0 <= i < |visited| ==> visited[i] == Num((i + 1) as real)
  }

  lemma {:induction false} CountsOn(visited: seq<Number>, page: int)
    requires CountsUp(visited) && page == |visited| + 1
    ensures CountsUp(visited + [Num(page as real)])
  {
  }

  /** A client that starts at page 1 with any limit and follows `next` collects the whole result,
      visiting each page once. */
  method Crawl<T>(rows: seq<T>, env: Number, q: Query) returns (collected: seq<T>, visited: seq<Number>)
    requires Capped(env) && |rows| > 0
    ensures collected == rows && Limit(env, q) >= 1
    ensures |visited| == CeilDiv(|rows|, Limit(env, q)) && CountsUp(visited)
  {
    ServesPage(rows, env, q, 1);
    var limit := Limit(env, q);
    ghost var pages := CeilDiv(|rows|, limit);
    LastPage(|rows|, limit, 1);
    PagesCover(rows, limit);
    collected, visited := [], [];
    var next := Some(PageLink(1, limit));
    ghost var page := 1;
    while next.Some?
      invariant 1 <= page <= pages + 1 && |visited| == page - 1
      invariant next == if page <= pages then Some(PageLink(page, limit)) else None
      invariant CountsUp(visited)
      invariant collected + PagesFrom(rows, limit, page) == rows
      decreases pages + 1 - page
    {
      ServesPage(rows, env, q, page);
      CollectNext(rows, limit, page, collected);
      var response := FindPaginated(rows, env, PageQuery(next.value)).value;
      CountsOn(visited, page);
      collected := collected + response.data;
      visited := visited + [next.value.page];
      next := response.links.next;
      page := page + 1;
    }
  }

  // ---------------------------------------------------------------- the window

  /** The cap: what the environment sets, rounded down, or 2000. */
  ghost predicate IsCap(env: Number, cap: int) {
    if env.Num? && env.value > 0.0 then cap as real <= env.value < (cap + 1) as real else cap == 2000
  }

  /** The page size: a whole limit from one up is granted up to the cap; without a number it is ten, up
      to the cap; below one it is one; fractions are rounded down; infinity asks for the cap. */
  lemma {:induction false} LimitMeans(env: Number, q: Query, cap: int)
    requires IsCap(env, cap)
    ensures q.limit.NaN? ==> Limit(env, q) == Min(10, cap)
    ensures q.limit.PlusInfinity? ==> Limit(env, q) == cap
    ensures q.limit.MinusInfinity? || (q.limit.Num? && q.limit.value < 1.0) ==> Limit(env, q) == Min(1, cap)
    ensures forall l: int :: q.limit.Num? && 1 <= l && l as real <= q.limit.value < (l + 1) as real ==>
              Limit(env, q) == Min(l, cap)
  {
    assert ResolveMaxLimit(env) == cap;
    assert (10 as real).Floor == 10 && (1 as real).Floor == 1;
    if q.limit.Num? {
      var asked := Max(MIN_LIMIT, q.limit.value.Floor);
      assert (asked as real).Floor == asked;
    }
  }

  /** As many pages as the rows need, and no more. */
  lemma {:induction false} PageCountIs(n: nat, limit: int)
    requires limit >= 1
    ensures (CeilDiv(n, limit) - 1) * limit < n <= CeilDiv(n, limit) * limit || (n == 0 && CeilDiv(n, limit) == 0)
  {
    var p := CeilDiv(n, limit);
    assert p * limit <= n + limit - 1 < p * limit + limit;
  }

  /** With an offset the page parameter does not choose the rows: the window starts at the offset. */
  lemma {:induction false} OffsetServes<T>(rows: seq<T>, env: Number, q: Query)
    requires Limit(env, q) >= 1 && q.offset.Some?
    ensures FindPaginated(rows, env, q).Some?
    ensures var data, at := FindPaginated(rows, env, q).value.data, q.offset.value;
            data == if at < |rows| then rows[at..Min(at + Limit(env, q), |rows|)] else []
  {
  }

  /** What every response says about the whole: the total, the page count, and where a non-empty page
      has its first and last page. */
  lemma {:induction false} ResponseMeans<T>(rows: seq<T>, env: Number, q: Query)
    requires Limit(env, q) >= 1 && FindPaginated(rows, env, q).Some?
    ensures var r, limit := FindPaginated(rows, env, q).value, Limit(env, q);
            && r.total == |rows| && r.pageSize == limit
            && ((r.totalPages - 1) * limit < |rows| <= r.totalPages * limit || (rows == [] && r.totalPages == 0))
            && r.links.first == (if r.data == [] then None else Some(PageLink(1, limit)))
            && r.links.last == (if r.data == [] then None else Some(PageLink(r.totalPages, limit)))
            && (r.links.prev.Some? <==> r.page.PlusInfinity? || (r.page.Num? && r.page.value > 1.0))
            && (r.links.next.Some? <==> r.page.MinusInfinity? || (r.page.Num? && r.page.value < r.totalPages as real))
            && (r.page.Num? && r.links.prev.Some? ==> r.links.prev.value == Link(Num(r.page.value - 1.0), limit))
            && (r.page.Num? && r.links.next.Some? ==> r.links.next.value == Link(Num(r.page.value + 1.0), limit))
  {
    PageCountIs(|rows|, Limit(env, q));
  }
}
