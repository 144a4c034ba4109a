/** The clause of a request, from the filter strings the client sends to the rows that are selected. */
module QueryStrings {
  import opened Options
  import opened Schema
  import opened WhereTree
  import opened QueryCompiler
  import opened QueryMeaning
  import opened FilterStrings

  // ---------------------------------------------------------------- dotted fields

  function FirstDot(s: string, i: nat): (r: Option<nat>)
    ensures r.Some? ==> i <= r.value < |s| && s[r.value] == '.' && forall j :: i <= j < r.value ==> s[j] != '.'
    ensures r.None? ==> forall j :: i <= j < |s| ==> s[j] != '.'
    decreases |s| - i
  {
    if i >= |s| then None else if s[i] == '.' then Some(i) else FirstDot(s, i + 1)
  }

  /** A field as its parts between the dots. */
  function SplitDots(field: string): (path: Path)
    ensures path != []
    decreases |field|
  {
    match FirstDot(field, 0)
    case None => [field]
    case Some(i) => [field[..i]] + SplitDots(field[i + 1..])
  }

  function JoinDots(path: Path): string
    requires path != []
  {
    if |path| == 1 then path[0] else path[0] + "." + JoinDots(path[1..])
  }

  ghost predicate DotFree(path: Path) {
    forall i :: 0 <= i < |path| ==> '.' !in path[i]
  }

  lemma {:induction false} SplitJoined(path: Path)
    requires path != [] && DotFree(path)
    ensures SplitDots(JoinDots(path)) == path
    decreases |path|
  {
    var first := path[0];
    if |path| == 1 {
      assert forall j :: 0 <= j < |first| ==> first[j] in first;
    } else {
      SplitJoined(path[1..]);
      SplitFirst(first, JoinDots(path[1..]));
      assert path == [first] + path[1..];
    }
  }

  lemma {:induction false} SplitFirst(first: string, rest: string)
    requires '.' !in first
    ensures SplitDots(first + "." + rest) == [first] + SplitDots(rest)
  {
    var field := first + "." + rest;
    assert forall j :: 0 <= j < |first| ==> field[j] == first[j] && first[j] in first;
    assert field[|first|] == '.';
    assert FirstDot(field, 0) == Some(|first|);
    assert field[..|first|] == first && field[|first| + 1..] == rest;
  }

  // ---------------------------------------------------------------- requests

  /** What the client sends: `s` as conditions, `filter` and `or` as strings. */
  datatype Request = Request(search: seq<SearchCond>, filter: seq<string>, or_: seq<string>, excludeIds: seq<string>)

  function CondOf(f: Filter): FilterCond {
    FilterCond(SplitDots(f.field), f.operator, f.value)
  }

  function CondsOf(fs: seq<Filter>): seq<FilterCond> {
    seq(|fs|, i requires 0 <= i < |fs| => CondOf(fs[i]))
  }

  /** The query a request stands for, unless a string has an unknown operator. */
  function QueryOf(r: Request): Option<Query> {
    var filters, ors := ParseAll(r.filter), ParseAll(r.or_);
    if filters.Ok? && ors.Ok? then Some(Query(r.search, CondsOf(filters.value), CondsOf(ors.value), r.excludeIds))
    else None
  }

  ghost predicate NoneMisspelt(strings: seq<string>) {
    forall i :: 0 <= i < |strings| ==> !Misspelt(strings[i])
  }

  /** As far as its strings can be read, every condition of the request is valid. */
  ghost predicate QueryIsValid(s: Schema, e: string, r: Request)
    requires e in s
  {
    QueryOf(r).Some? ==> Accepted(s, e, QueryOf(r).value)
  }

  method CompileRequest(s: Schema, e: string, request: Request) returns (r: Option<Clause>)
    requires e in s && DistinctPaths(request.search)
    ensures r.Some? <==> NoneMisspelt(request.filter) && NoneMisspelt(request.or_) && QueryIsValid(s, e, request)
    ensures Separated(s) && r.Some? ==>
              QueryOf(request).Some? && CompiledQuery(s, e, QueryOf(request).value, r.value)
  {
    var filters := ParseFilterStrings(request.filter);
    if filters.Err? {
      return None;
    }
    var ors := ParseFilterStrings(request.or_);
    if ors.Err? {
      return None;
    }
    r := Compile(s, e, Query(request.search, CondsOf(filters.value), CondsOf(ors.value), request.excludeIds));
  }

  // ---------------------------------------------------------------- printing conditions

  ghost function FilterOf(c: FilterCond): Filter
    requires c.path != []
  {
    Filter(JoinDots(c.path), c.operator, c.value)
  }

  ghost function FiltersOf(conds: seq<FilterCond>): seq<Filter>
    requires forall i :: 0 <= i < |conds| ==> conds[i].path != []
  {
    seq(|conds|, i requires 0 <= i < |conds| => FilterOf(conds[i]))
  }

  /** The condition's field can be written into a filter string. */
  ghost predicate Printable(c: FilterCond) {
    && c.path != [] && DotFree(c.path)
    && JoinDots(c.path) != "" && Trim(JoinDots(c.path)) == JoinDots(c.path) && Separable(JoinDots(c.path))
  }

  ghost predicate AllPrintable(conds: seq<FilterCond>) {
    forall i :: 0 <= i < |conds| ==> Printable(conds[i])
  }

  lemma {:induction false} CondsRoundTrip(conds: seq<FilterCond>)
    requires AllPrintable(conds)
    ensures var sent := PrintAll(FiltersOf(conds));
            ParseAll(sent).Ok? && CondsOf(ParseAll(sent).value) == conds
  {
    var fs := FiltersOf(conds);
    ListRoundTripIff(fs);
    forall i | 0 <= i < |conds| ensures CondOf(fs[i]) == conds[i] {
      SplitJoined(conds[i].path);
    }
  }

  ghost function RequestFor(q: Query): Request
    requires AllPrintable(q.filters) && AllPrintable(q.ors)
  {
    Request(q.search, PrintAll(FiltersOf(q.filters)), PrintAll(FiltersOf(q.ors)), q.excludeIds)
  }

  /** A printed request stands for the query it was printed from. */
  lemma {:induction false} RequestRoundTrip(q: Query)
    requires AllPrintable(q.filters) && AllPrintable(q.ors)
    ensures QueryOf(RequestFor(q)) == Some(q)
  {
    CondsRoundTrip(q.filters);
    CondsRoundTrip(q.ors);
  }

  /** From the strings to the rows: the clause compiled for a printed request selects exactly the live
      rows that meet every search condition and every filter the client wrote, some alternative if there
      are any, and are not excluded. */
  lemma {:induction false} RequestSelects(s: Schema, e: string, q: Query, holds: Holds, c: Clause, row: Row)
    requires AllPrintable(q.filters) && AllPrintable(q.ors) && DistinctPaths(q.search)
    requires Separated(s) && GuardColumns(s, e) && Accepted(s, e, q)
    requires Harmless(Ands(s, e, q)) && !AsksAboutDeletion(s, e, q)
    requires QueryOf(RequestFor(q)).Some? ==> CompiledQuery(s, e, QueryOf(RequestFor(q)).value, c)
    ensures PathsGiven(q)
    ensures ClauseHolds(holds, c, row) <==>
            && EveryAsked(s, e, holds, q, row) && (q.ors == [] || SomeAlternative(s, e, holds, q, row))
            && NotExcluded(holds, s, e, q.excludeIds, row) && Live(holds, row)
  {
    RequestRoundTrip(q);
    QuerySelectsLive(s, e, q, holds, c, row);
  }
}
