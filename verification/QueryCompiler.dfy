/**
 The query compiler: search conditions, filters, alternatives and exclusions become a where
 clause, to which a paginated read adds the soft-delete guard. Field names come split at their
 dots; dates and enumerations are taken as already validated.
 */
module QueryCompiler {
  import opened Options
  import opened Schema
  import opened WhereTree
  import FilterStrings

  datatype SearchOperator =
    | Greater | GreaterEq | Less | LessEq | NotEq | Ieq | Cont | Starts | Ends | In | Between

  function SearchText(op: SearchOperator): string {
    match op
    case Greater => ">"
    case GreaterEq => ">="
    case Less => "<"
    case LessEq => "<="
    case NotEq => "!="
    case Ieq => "ieq"
    case Cont => "cont"
    case Starts => "starts"
    case Ends => "ends"
    case In => "in"
    case Between => "between"
  }

  /** A search condition: a plain value, or an object of operators in the order of its keys. */
  datatype Condition = Plain(value: Value) | Operators(ops: seq<(SearchOperator, Value)>)

  datatype SearchCond = SearchCond(path: Path, condition: Condition)

  datatype FilterCond = FilterCond(path: Path, operator: FilterStrings.FilterOperator, value: string)

  /** What a condition contributes: a refusal, nothing (a bare JSON column), or a value at a path. */
  datatype Leaf = Refused | Nothing | At(path: Path, val: Val)

  // ---------------------------------------------------------------- single conditions

  predicate IsJsonPath(s: Schema, e: string, path: Path)
    requires e in s
  {
    path != [] && path[0] in s[e].jsonColumns
  }

  function Conjunction(tests: seq<Test>): Operator
    requires tests != []
  {
    if |tests| == 1 then Single(tests[0]) else And(seq(|tests|, i requires 0 <= i < |tests| => Single(tests[i])))
  }

  /** An empty operator object has no value; it becomes IS NULL later if it stays alone. */
  function ConditionValue(c: Condition): Val {
    match c
    case Plain(v) => Raw(v)
    case Operators(ops) =>
      if ops == [] then Undef
      else Op(Conjunction(seq(|ops|, i requires 0 <= i < |ops| => Compares(SearchText(ops[i].0), ops[i].1))))
  }

  predicate JsonSupportsSearch(op: SearchOperator) {
    op.NotEq? || op.Ieq? || op.Cont? || op.Starts? || op.Ends? || op.In?
  }

  function JsonCondition(column: string, jsonPath: Path, c: Condition): Leaf {
    match c
    case Plain(v) => At([column], Op(Single(JsonCompares(jsonPath, "eq", v))))
    case Operators(ops) =>
      if ops == [] || exists i :: 0 <= i < |ops| && !JsonSupportsSearch(ops[i].0) then Refused
      else
        At([column],
           Op(Conjunction(seq(|ops|, i requires 0 <= i < |ops| =>
             JsonCompares(jsonPath, SearchText(ops[i].0), ops[i].1)))))
  }

  function SearchLeaf(s: Schema, e: string, c: SearchCond): Leaf
    requires e in s
  {
    if IsJsonPath(s, e, c.path) then
      if |c.path| == 1 then Nothing else JsonCondition(c.path[0], c.path[1..], c.condition)
    else if !ValidPath(s, e, c.path) then Refused
    else At(c.path, ConditionValue(c.condition))
  }

  function FilterValue(op: FilterStrings.FilterOperator, value: string): Val {
    match op
    case Eq => if IsNullishLiteral(value) then Op(Single(IsNull)) else Raw(Text(value))
    case Ne => if IsNullishLiteral(value) then Op(Single(NotNull)) else Op(Single(Compares("$ne", Text(value))))
    case IsNull => Op(Single(if Lower(value) == "false" then NotNull else IsNull))
    case NotNull => Op(Single(if Lower(value) == "false" then IsNull else NotNull))
    case _ => Op(Single(Compares(FilterStrings.OperatorText(op), Text(value))))
  }

  predicate JsonSupportsFilter(op: FilterStrings.FilterOperator) {
    op.Eq? || op.Ieq? || op.Ne? || op.Cont? || op.Starts? || op.Ends? || op.In? || op.IsNull? || op.NotNull?
  }

  function FilterLeaf(s: Schema, e: string, f: FilterCond): Leaf
    requires e in s
  {
    if IsJsonPath(s, e, f.path) then
      if |f.path| == 1 then Nothing
      else if !JsonSupportsFilter(f.operator) then Refused
      else At([f.path[0]], Op(Single(JsonCompares(f.path[1..], FilterStrings.OperatorText(f.operator), Text(f.value)))))
    else if !ValidPath(s, e, f.path) then Refused
    else At(f.path, FilterValue(f.operator, f.value))
  }

  function SearchLeaves(s: Schema, e: string, conds: seq<SearchCond>): seq<Leaf>
    requires e in s
  {
    seq(|conds|, i requires 0 <= i < |conds| => SearchLeaf(s, e, conds[i]))
  }

  function FilterLeaves(s: Schema, e: string, conds: seq<FilterCond>): seq<Leaf>
    requires e in s
  {
    seq(|conds|, i requires 0 <= i < |conds| => FilterLeaf(s, e, conds[i]))
  }

  /** What every leaf of a compiled condition is like. */
  ghost predicate GoodLeaf(s: Schema, e: string, leaf: Leaf) {
    leaf.At? ==> ValidPath(s, e, leaf.path) && !leaf.val.Obj? && (leaf.val.Op? ==> EqualsFree(leaf.val.operator))
  }

  /** Raw equality is never written as an operator. */
  ghost predicate EqualsFree(op: Operator) {
    match op
    case Single(t) => !t.Equals?
    case And(ops) => forall i :: 0 <= i < |ops| ==> EqualsFree(ops[i])
  }

  lemma {:induction false} LeavesAreGood(s: Schema, e: string, c: SearchCond, f: FilterCond)
    requires Separated(s) && e in s
    ensures GoodLeaf(s, e, SearchLeaf(s, e, c)) && GoodLeaf(s, e, FilterLeaf(s, e, f))
    ensures !FilterLeaf(s, e, f).At? || !FilterLeaf(s, e, f).val.Undef?
  {
  }

  ghost predicate Good(s: Schema, e: string, leaves: seq<Leaf>) {
    forall i :: 0 <= i < |leaves| ==> GoodLeaf(s, e, leaves[i])
  }

  ghost predicate NoneRefused(leaves: seq<Leaf>) {
    forall i :: 0 <= i < |leaves| ==> !leaves[i].Refused?
  }

  // ---------------------------------------------------------------- what is accepted

  /** The operators that also exist inside a JSON column. */
  const JSON_SEARCH_OPERATORS: set<SearchOperator> := {NotEq, Ieq, Cont, Starts, Ends, In}
  const JSON_FILTER_OPERATORS: set<FilterStrings.FilterOperator> := {
    FilterStrings.Eq, FilterStrings.Ieq, FilterStrings.Ne, FilterStrings.Cont, FilterStrings.Starts,
    FilterStrings.Ends, FilterStrings.In, FilterStrings.IsNull, FilterStrings.NotNull
  }

  /** Inside JSON: a value, or operators that exist there, at least one. */
  ghost predicate JsonTakes(c: Condition) {
    c.Operators? ==> c.ops != [] && forall i :: 0 <= i < |c.ops| ==> c.ops[i].0 in JSON_SEARCH_OPERATORS
  }

  /** A search condition on a column, along relations, or on a JSON column: bare, or inside it with
      something JSON takes. */
  ghost predicate SearchIsValid(s: Schema, e: string, c: SearchCond)
    requires e in s
  {
    if c.path != [] && c.path[0] in s[e].jsonColumns then |c.path| > 1 ==> JsonTakes(c.condition)
    else ValidPath(s, e, c.path)
  }

  ghost predicate FilterIsValid(s: Schema, e: string, f: FilterCond)
    requires e in s
  {
    if f.path != [] && f.path[0] in s[e].jsonColumns then |f.path| > 1 ==> f.operator in JSON_FILTER_OPERATORS
    else ValidPath(s, e, f.path)
  }

  ghost predicate SearchesAreValid(s: Schema, e: string, conds: seq<SearchCond>)
    requires e in s
  {
    forall i :: 0 <= i < |conds| ==> SearchIsValid(s, e, conds[i])
  }

  ghost predicate FiltersAreValid(s: Schema, e: string, conds: seq<FilterCond>)
    requires e in s
  {
    forall i :: 0 <= i < |conds| ==> FilterIsValid(s, e, conds[i])
  }

  lemma {:induction false} SearchesRefusedIff(s: Schema, e: string, conds: seq<SearchCond>)
    requires e in s
    ensures NoneRefused(SearchLeaves(s, e, conds)) <==> SearchesAreValid(s, e, conds)
  {
    var leaves := SearchLeaves(s, e, conds);
    forall i | 0 <= i < |conds| ensures leaves[i].Refused? <==> !SearchIsValid(s, e, conds[i]) {
      assert leaves[i] == SearchLeaf(s, e, conds[i]);
    }
  }

  lemma {:induction false} FiltersRefusedIff(s: Schema, e: string, conds: seq<FilterCond>)
    requires e in s
    ensures NoneRefused(FilterLeaves(s, e, conds)) <==> FiltersAreValid(s, e, conds)
  {
    var leaves := FilterLeaves(s, e, conds);
    forall i | 0 <= i < |conds| ensures leaves[i].Refused? <==> !FilterIsValid(s, e, conds[i]) {
      assert leaves[i] == FilterLeaf(s, e, conds[i]);
    }
  }

  // ---------------------------------------------------------------- folding leaves

  ghost predicate IsAt(leaves: seq<Leaf>, i: int, p: Path) {
    0 <= i < |leaves| && leaves[i].At? && leaves[i].path == p
  }

  ghost function LeafVal(leaf: Leaf, p: Path): Option<Val> {
    if leaf.At? && leaf.path == p then Some(leaf.val) else None
  }

  /** The value merging the conditions one by one leaves at a path. */
  ghost function FoldAt(leaves: seq<Leaf>, p: Path): Option<Val> {
    if leaves == [] then None
    else
      var n := |leaves| - 1;
      MergedLeaf(FoldAt(leaves[..n], p), LeafVal(leaves[n], p))
  }

  /** The tree holds exactly the fold of the conditions. */
  ghost predicate Compiled(s: Schema, e: string, w: Where, leaves: seq<Leaf>) {
    Kinded(s, e, w) && forall p :: LeafAt(w, p) == FoldAt(leaves, p)
  }

  /** `{}` with one value set. */
  function SingleCondition(leaf: Leaf): Where
    requires leaf.At? ==> leaf.path != []
  {
    if leaf.At? then SetNested(EMPTY, leaf.path, leaf.val) else EMPTY
  }

  lemma {:induction false} SingleLeaf(s: Schema, e: string, leaf: Leaf, p: Path)
    requires Separated(s) && e in s && GoodLeaf(s, e, leaf)
    ensures Kinded(s, e, SingleCondition(leaf)) && LeafAt(SingleCondition(leaf), p) == LeafVal(leaf, p)
  {
    if leaf.At? {
      SetKinded(s, e, EMPTY, leaf.path, leaf.val);
      SetLeaf(s, e, EMPTY, leaf.path, leaf.val, p);
    }
  }

  lemma {:induction false} FoldNext(leaves: seq<Leaf>, n: nat, p: Path)
    requires n < |leaves|
    ensures FoldAt(leaves[..n + 1], p) == MergedLeaf(FoldAt(leaves[..n], p), LeafVal(leaves[n], p))
  {
    assert leaves[..n + 1][..n] == leaves[..n];
  }

  lemma {:induction false} MergeHolds(s: Schema, e: string, w: Where, leaves: seq<Leaf>, n: nat)
    requires Separated(s) && e in s && n < |leaves| && GoodLeaf(s, e, leaves[n]) && Compiled(s, e, w, leaves[..n])
    ensures Compiled(s, e, DeepMerge(w, SingleCondition(leaves[n])), leaves[..n + 1])
  {
    var u := SingleCondition(leaves[n]);
    SingleLeaf(s, e, leaves[n], []);
    MergeLeaves(s, e, w, u, []);
    var upto := leaves[..n + 1];
    forall p: Path ensures LeafAt(DeepMerge(w, u), p) == FoldAt(upto, p) {
      SingleLeaf(s, e, leaves[n], p);
      MergeLeaves(s, e, w, u, p);
      FoldNext(leaves, n, p);
    }
  }

  lemma {:induction false} NothingHolds(s: Schema, e: string, w: Where, leaves: seq<Leaf>, n: nat)
    requires n < |leaves| && leaves[n].Nothing? && Compiled(s, e, w, leaves[..n])
    ensures Compiled(s, e, w, leaves[..n + 1])
  {
    var upto := leaves[..n + 1];
    forall p: Path ensures LeafAt(w, p) == FoldAt(upto, p) {
      FoldNext(leaves, n, p);
    }
  }

  lemma {:induction false} SetHolds(s: Schema, e: string, w: Where, leaves: seq<Leaf>, n: nat)
    requires Separated(s) && e in s && n < |leaves| && leaves[n].At? && GoodLeaf(s, e, leaves[n])
    requires Compiled(s, e, w, leaves[..n]) && FoldAt(leaves[..n], leaves[n].path) == None
    ensures Compiled(s, e, SetNested(w, leaves[n].path, leaves[n].val), leaves[..n + 1])
  {
    var r := SetNested(w, leaves[n].path, leaves[n].val);
    SetKinded(s, e, w, leaves[n].path, leaves[n].val);
    var upto := leaves[..n + 1];
    forall p: Path ensures LeafAt(r, p) == FoldAt(upto, p) {
      SetLeaf(s, e, w, leaves[n].path, leaves[n].val, p);
      FoldNext(leaves, n, p);
    }
  }

  lemma {:induction false} FoldNone(leaves: seq<Leaf>, p: Path)
    requires forall i :: 0 <= i < |leaves| ==> LeafVal(leaves[i], p) == None
    ensures FoldAt(leaves, p) == None
  {
    if leaves != [] {
      FoldNone(leaves[..|leaves| - 1], p);
    }
  }

  // ---------------------------------------------------------------- building the parts

  /** The keys of one JSON object are distinct. */
  ghost predicate DistinctPaths(conds: seq<SearchCond>) {
    forall i, j :: 0 <= i < j < |conds| ==> conds[i].path != conds[j].path
  }

  lemma {:induction false} SearchPathIsNew(s: Schema, e: string, conds: seq<SearchCond>, n: nat)
    requires e in s && DistinctPaths(conds) && n < |conds| && !IsJsonPath(s, e, conds[n].path)
    ensures FoldAt(SearchLeaves(s, e, conds)[..n], conds[n].path) == None
  {
    var before := SearchLeaves(s, e, conds)[..n];
    forall i | 0 <= i < n ensures LeafVal(before[i], conds[n].path) == None {
      assert before[i] == SearchLeaf(s, e, conds[i]);
    }
    FoldNone(before, conds[n].path);
  }

  /** One turn of the search loop, for a schema in which nothing is both column and relation. */
  lemma {:induction false} SearchStep(s: Schema, e: string, w: Where, conds: seq<SearchCond>, n: nat)
    requires Separated(s) && e in s && DistinctPaths(conds) && n < |conds|
    requires !SearchLeaf(s, e, conds[n]).Refused? && Compiled(s, e, w, SearchLeaves(s, e, conds)[..n])
    ensures var leaf := SearchLeaf(s, e, conds[n]);
            var next :=
              if leaf.At? && !IsJsonPath(s, e, conds[n].path) then SetNested(w, leaf.path, leaf.val)
              else if leaf.At? then DeepMerge(w, SingleCondition(leaf)) else w;
            Compiled(s, e, next, SearchLeaves(s, e, conds)[..n + 1])
  {
    var leaves, leaf := SearchLeaves(s, e, conds), SearchLeaf(s, e, conds[n]);
    assert leaves[n] == leaf;
    LeavesAreGood(s, e, conds[n], FilterCond([], FilterStrings.Eq, ""));
    if leaf.At? && !IsJsonPath(s, e, conds[n].path) {
      SearchPathIsNew(s, e, conds, n);
      SetHolds(s, e, w, leaves, n);
    } else if leaf.At? {
      MergeHolds(s, e, w, leaves, n);
    } else {
      NothingHolds(s, e, w, leaves, n);
    }
  }

  method BuildSearchWhereClause(s: Schema, e: string, conds: seq<SearchCond>) returns (r: Option<Where>)
    requires e in s && DistinctPaths(conds)
    ensures r.Some? <==> SearchesAreValid(s, e, conds)
    ensures Separated(s) && r.Some? ==> Compiled(s, e, r.value, SearchLeaves(s, e, conds))
  {
    ghost var leaves := SearchLeaves(s, e, conds);
    SearchesRefusedIff(s, e, conds);
    var where_ := EMPTY;
    for n := 0 to |conds|
      invariant NoneRefused(leaves[..n]) && (Separated(s) ==> Compiled(s, e, where_, leaves[..n]))
    {
      var leaf := SearchLeaf(s, e, conds[n]);
      assert leaves[n] == leaf && leaves[..n + 1] == leaves[..n] + [leaf];
      if leaf.Refused? {
        return None;
      }
      if Separated(s) {
        LeavesAreGood(s, e, conds[n], FilterCond([], FilterStrings.Eq, ""));
        SearchStep(s, e, where_, conds, n);
      }
      if leaf.At? && !IsJsonPath(s, e, conds[n].path) {
        where_ := SetNested(where_, leaf.path, leaf.val);
      } else if leaf.At? {
        where_ := DeepMerge(where_, SingleCondition(leaf));
      }
    }
    assert leaves[..|conds|] == leaves;
    return Some(where_);
  }

  method BuildFilterWhereClause(s: Schema, e: string, conds: seq<FilterCond>) returns (r: Option<Where>)
    requires e in s
    ensures r.Some? <==> FiltersAreValid(s, e, conds)
    ensures Separated(s) && r.Some? ==> Compiled(s, e, r.value, FilterLeaves(s, e, conds))
  {
    ghost var leaves := FilterLeaves(s, e, conds);
    FiltersRefusedIff(s, e, conds);
    var where_ := EMPTY;
    for n := 0 to |conds|
      invariant NoneRefused(leaves[..n]) && (Separated(s) ==> Compiled(s, e, where_, leaves[..n]))
    {
      var leaf := FilterLeaf(s, e, conds[n]);
      assert leaves[n] == leaf && leaves[..n + 1] == leaves[..n] + [leaf];
      if leaf.Refused? {
        return None;
      }
      if Separated(s) {
        LeavesAreGood(s, e, SearchCond([], Plain(Junk)), conds[n]);
        if leaf.At? { MergeHolds(s, e, where_, leaves, n); } else { NothingHolds(s, e, where_, leaves, n); }
      }
      if leaf.At? {
        where_ := DeepMerge(where_, SingleCondition(leaf));
      }
    }
    assert leaves[..|conds|] == leaves;
    return Some(where_);
  }

  /** One tree per alternative; a bare JSON column leaves an empty one. */
  function OrBranch(leaf: Leaf): Where
    requires leaf.At? ==> leaf.path != []
  {
    TransformNull(SingleCondition(leaf))
  }

  method BuildOrWhereClause(s: Schema, e: string, conds: seq<FilterCond>) returns (r: Option<seq<Where>>)
    requires e in s
    ensures r.Some? <==> FiltersAreValid(s, e, conds)
    ensures r.Some? ==> r.value == OrBranches(s, e, conds)
  {
    ghost var leaves := FilterLeaves(s, e, conds);
    FiltersRefusedIff(s, e, conds);
    var orConditions: seq<Where> := [];
    for n := 0 to |conds|
      invariant NoneRefused(leaves[..n]) && |orConditions| == n
      invariant forall i :: 0 <= i < n ==> orConditions[i] == OrBranches(s, e, conds)[i]
    {
      var leaf := FilterLeaf(s, e, conds[n]);
      assert leaves[n] == leaf && leaves[..n + 1] == leaves[..n] + [leaf];
      if leaf.Refused? {
        return None;
      }
      orConditions := orConditions + [OrBranch(leaf)];
    }
    assert leaves[..|conds|] == leaves;
    return Some(orConditions);
  }

  // ---------------------------------------------------------------- the clause

  /** One tree, or alternatives. */
  datatype Clause = One(w: Where) | Any(ws: seq<Where>)

  function AndPart(search: Where, filter: Where): Where {
    TransformNull(DeepMerge(search, filter))
  }

  function CombineAndOr(and_: Where, ors: seq<Where>): Clause {
    if ors == [] then One(and_)
    else if and_.m == map[] then Any(ors)
    else Any(seq(|ors|, i requires 0 <= i < |ors| => DeepMerge(and_, ors[i])))
  }

  function MapClause(c: Clause, f: Where -> Where): Clause {
    match c
    case One(w) => One(f(w))
    case Any(ws) => Any(seq(|ws|, i requires 0 <= i < |ws| => f(ws[i])))
  }

  /** Merges "primary key not in the list" into every alternative. */
  function ApplyExclusions(c: Clause, s: Schema, e: string, ids: seq<string>): Clause
    requires e in s
  {
    if ids == [] || s[e].primaryColumns == [] then c
    else MapClause(c, w => DeepMerge(w, Exclusion(s[e].primaryColumns[0], ids)))
  }

  function Exclusion(key: string, ids: seq<string>): Where {
    Where(map[key := Op(Single(NotIn(ids)))])
  }

  const IS_DELETED := "is_deleted"
  const DELETED_AT := "deleted_at"

  /** The value `false`, as the guard compares it. */
  const FALSE := Opaque(0)

  /** Spreads the soft-delete guard under a condition: the condition's own keys win. */
  function Guarded(w: Where): Where {
    Where(map[IS_DELETED := Raw(FALSE), DELETED_AT := Op(Single(IsNull))] + w.m)
  }

  datatype Query = Query(
    search: seq<SearchCond>, filters: seq<FilterCond>, ors: seq<FilterCond>, excludeIds: seq<string>)

  /** The clause a paginated read runs with; nothing if the query is refused. */
  method Compile(s: Schema, e: string, q: Query) returns (r: Option<Clause>)
    requires e in s && DistinctPaths(q.search)
    ensures r.Some? <==> Accepted(s, e, q)
    ensures Separated(s) && r.Some? ==> CompiledQuery(s, e, q, r.value)
  {
    var search := BuildSearchWhereClause(s, e, q.search);
    if search.None? {
      return None;
    }
    var filter := BuildFilterWhereClause(s, e, q.filters);
    if filter.None? {
      return None;
    }
    var ors := BuildOrWhereClause(s, e, q.ors);
    if ors.None? {
      return None;
    }
    var clause := CombineAndOr(AndPart(search.value, filter.value), ors.value);
    clause := ApplyExclusions(clause, s, e, q.excludeIds);
    clause := MapClause(clause, w => Guarded(w));
    assert Separated(s) ==> CompiledFrom(s, e, q, search.value, filter.value, clause);
    return Some(clause);
  }

  /** Every condition of the query is valid. */
  ghost predicate Accepted(s: Schema, e: string, q: Query)
    requires e in s
  {
    SearchesAreValid(s, e, q.search) && FiltersAreValid(s, e, q.filters) && FiltersAreValid(s, e, q.ors)
  }

  lemma {:induction false} AcceptedLeaves(s: Schema, e: string, q: Query)
    requires e in s
    ensures Accepted(s, e, q) <==>
            && NoneRefused(SearchLeaves(s, e, q.search))
            && NoneRefused(FilterLeaves(s, e, q.filters))
            && NoneRefused(FilterLeaves(s, e, q.ors))
  {
    SearchesRefusedIff(s, e, q.search);
    FiltersRefusedIff(s, e, q.filters);
    FiltersRefusedIff(s, e, q.ors);
  }

  ghost function OrBranches(s: Schema, e: string, conds: seq<FilterCond>): seq<Where>
    requires e in s
  {
    seq(|conds|, i requires 0 <= i < |conds| => OrBranch(FilterLeaf(s, e, conds[i])))
  }

  /** The clause before the soft-delete guard. */
  ghost function Unguarded(s: Schema, e: string, q: Query, search: Where, filter: Where): Clause
    requires e in s
  {
    ApplyExclusions(CombineAndOr(AndPart(search, filter), OrBranches(s, e, q.ors)), s, e, q.excludeIds)
  }

  ghost predicate CompiledFrom(s: Schema, e: string, q: Query, search: Where, filter: Where, c: Clause)
    requires e in s
  {
    && Compiled(s, e, search, SearchLeaves(s, e, q.search))
    && Compiled(s, e, filter, FilterLeaves(s, e, q.filters))
    && c == MapClause(Unguarded(s, e, q, search, filter), w => Guarded(w))
  }

  ghost predicate CompiledQuery(s: Schema, e: string, q: Query, c: Clause)
    requires e in s
  {
    exists search, filter :: CompiledFrom(s, e, q, search, filter, c)
  }

  /** Different operators test differently. */
  lemma {:induction false} SearchTextIsOwn(a: SearchOperator, b: SearchOperator)
    requires SearchText(a) == SearchText(b)
    ensures a == b
  {
    var s, t := SearchText(a), SearchText(b);
    assert |s| == |t| && s[0] == t[0];
    assert |s| > 1 ==> s[1] == t[1];
  }
}
