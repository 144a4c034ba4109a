/** The `field||operator||value` strings of the `filter` and `or` parameters. */
module FilterStrings {
  import opened Options

  const SEPARATOR := "||"

  datatype FilterOperator =
    | Eq | Ieq | Ne | Gt | Lt | Gte | Lte | Cont | Starts | Ends | In | NotIn | IsNull | NotNull | Between

  function OperatorText(op: FilterOperator): string {
    match op
    case Eq => "$eq"
    case Ieq => "$ieq"
    case Ne => "$ne"
    case Gt => "$gt"
    case Lt => "$lt"
    case Gte => "$gte"
    case Lte => "$lte"
    case Cont => "$cont"
    case Starts => "$starts"
    case Ends => "$ends"
    case In => "$in"
    case NotIn => "$notin"
    case IsNull => "$isnull"
    case NotNull => "$notnull"
    case Between => "$between"
  }

  /** The operator a text names, or none. */
  function OperatorOf(text: string): Option<FilterOperator> {
    if text == "$eq" then Some(Eq)
    else if text == "$ieq" then Some(Ieq)
    else if text == "$ne" then Some(Ne)
    else if text == "$gt" then Some(Gt)
    else if text == "$lt" then Some(Lt)
    else if text == "$gte" then Some(Gte)
    else if text == "$lte" then Some(Lte)
    else if text == "$cont" then Some(Cont)
    else if text == "$starts" then Some(Starts)
    else if text == "$ends" then Some(Ends)
    else if text == "$in" then Some(In)
    else if text == "$notin" then Some(NotIn)
    else if text == "$isnull" then Some(IsNull)
    else if text == "$notnull" then Some(NotNull)
    else if text == "$between" then Some(Between)
    else None
  }

  datatype Filter = Filter(field: string, operator: FilterOperator, value: string)

  // ---------------------------------------------------------------- split, join, trim

  predicate SeparatorAt(s: string, i: nat) {
    i + 1 < |s| && s[i] == '|' && s[i + 1] == '|'
  }

  /** Position of the first separator at or after `i`. */
  function FirstSeparator(s: string, i: nat): (r: Option<nat>)
    ensures r.Some? ==> i <= r.value && SeparatorAt(s, r.value)
    decreases |s| - i
  {
    if i >= |s| then None
    else if SeparatorAt(s, i) then Some(i)
    else FirstSeparator(s, i + 1)
  }

  /** `split('||')`: leftmost separators first, never overlapping. */
  function Split(s: string): (parts: seq<string>)
    ensures |parts| >= 1
    decreases |s|
  {
    match FirstSeparator(s, 0)
    case None => [s]
    case Some(i) => [s[..i]] + Split(s[i + 2..])
  }

  function Join(parts: seq<string>): string
    requires |parts| >= 1
  {
    if |parts| == 1 then parts[0] else parts[0] + SEPARATOR + Join(parts[1..])
  }

  predicate IsSpace(c: char) {
    c == ' ' || c == '\t' || c == '\n' || c == '\r'
  }

  function Trim(s: string): string {
    if s != "" && IsSpace(s[0]) then Trim(s[1..])
    else if s != "" && IsSpace(s[|s| - 1]) then Trim(s[..|s| - 1])
    else s
  }

  // ---------------------------------------------------------------- parsing

  /** One filter string: skipped, refused for its operator, or parsed. */
  datatype Parse = Skipped | UnknownOperator(field: string) | Parsed(filter: Filter)

  function ParseOne(s: string): Parse {
    var parts := Split(s);
    if |parts| < 3 then Skipped
    else
      var field, operator := Trim(parts[0]), Trim(parts[1]);
      if field == "" || operator == "" then Skipped
      else
        match OperatorOf(operator)
        case None => UnknownOperator(field)
        case Some(op) => Parsed(Filter(field, op, Join(parts[2..])))
  }

  function ParseEach(filters: seq<string>): seq<Parse> {
    seq(|filters|, i requires 0 <= i < |filters| => ParseOne(filters[i]))
  }

  /** The parsed filters in order, up to the first unknown operator, which refuses them all. */
  function Collect(parses: seq<Parse>): Result<seq<Filter>, string> {
    if parses == [] then Ok([])
    else
      var n := |parses| - 1;
      match Collect(parses[..n])
      case Err(field) => Err(field)
      case Ok(done) =>
        match parses[n]
        case Skipped => Ok(done)
        case UnknownOperator(field) => Err(field)
        case Parsed(f) => Ok(done + [f])
  }

  function ParseAll(filters: seq<string>): Result<seq<Filter>, string> {
    Collect(ParseEach(filters))
  }

  method ParseFilterStrings(filters: seq<string>) returns (r: Result<seq<Filter>, string>)
    ensures r == ParseAll(filters)
    ensures r.Err? <==> exists i :: 0 <= i < |filters| && Misspelt(filters[i])
  {
    ListRefusedIff(filters);
    ghost var parses := ParseEach(filters);
    var parsed: seq<Filter> := [];
    for n := 0 to |filters|
      invariant Collect(parses[..n]) == Ok(parsed)
    {
      CollectNext(parses, n);
      var parts := Split(filters[n]);
      if |parts| >= 3 {
        var field, operator := Trim(parts[0]), Trim(parts[1]);
        if field != "" && operator != "" {
          var op := OperatorOf(operator);
          if op.None? {
            ErrIsFinal(parses, n + 1, field);
            return Err(field);
          }
          parsed := parsed + [Filter(field, op.value, Join(parts[2..]))];
        }
      }
    }
    assert parses[..|filters|] == parses;
    return Ok(parsed);
  }

  lemma {:induction false} CollectNext(parses: seq<Parse>, n: nat)
    requires n < |parses| && Collect(parses[..n]).Ok?
    ensures Collect(parses[..n + 1]) ==
            match parses[n]
            case Skipped => Collect(parses[..n])
            case UnknownOperator(field) => Err(field)
            case Parsed(f) => Ok(Collect(parses[..n]).value + [f])
  {
    assert parses[..n + 1][..n] == parses[..n];
  }

  lemma {:induction false} ErrIsFinal(parses: seq<Parse>, n: nat, field: string)
    requires n <= |parses| && Collect(parses[..n]) == Err(field)
    ensures Collect(parses) == Err(field)
    decreases |parses| - n
  {
    if n < |parses| {
      assert parses[..n + 1][..n] == parses[..n];
      ErrIsFinal(parses, n + 1, field);
    } else {
      assert parses[..n] == parses;
    }
  }

  // ---------------------------------------------------------------- round trip

  function PrintFilter(f: Filter): string {
    f.field + SEPARATOR + (OperatorText(f.operator) + SEPARATOR + f.value)
  }

  /** Splitting loses nothing. */
  lemma {:induction false} JoinSplit(s: string)
    ensures Join(Split(s)) == s
    decreases |s|
  {
    var first := FirstSeparator(s, 0);
    if first.Some? {
      var i := first.value;
      JoinSplit(s[i + 2..]);
      assert ([s[..i]] + Split(s[i + 2..]))[1..] == Split(s[i + 2..]);
      assert s == s[..i] + SEPARATOR + s[i + 2..];
    }
  }

  /** The first separator of `a||b` is the printed one. */
  ghost predicate Separable(a: string) {
    (forall i :: !SeparatorAt(a, i)) && (a != "" ==> a[|a| - 1] != '|')
  }

  lemma {:induction false} FirstIsPrinted(a: string, b: string, i: nat)
    requires Separable(a) && i <= |a|
    ensures FirstSeparator(a + SEPARATOR + b, i) == Some(|a|)
    decreases |a| - i
  {
    var s := a + SEPARATOR + b;
    assert s[|a|] == '|' && s[|a| + 1] == '|';
    if i < |a| {
      assert !SeparatorAt(a, i);
      assert s[i] == a[i] && (i + 1 < |a| ==> s[i + 1] == a[i + 1]);
      FirstIsPrinted(a, b, i + 1);
    }
  }

  lemma {:induction false} SplitPrinted(a: string, b: string)
    requires Separable(a)
    ensures Split(a + SEPARATOR + b) == [a] + Split(b)
  {
    var s := a + SEPARATOR + b;
    FirstIsPrinted(a, b, 0);
    assert s[..|a|] == a && s[|a| + 2..] == b;
  }

  lemma {:induction false} OperatorRoundTrip(op: FilterOperator)
    ensures OperatorOf(OperatorText(op)) == Some(op)
  {
    var t := OperatorText(op);
    assert |t| >= 3 && t[0] == '$';
    var _ := (t[1], t[2]);
  }

  /** An operator text has no bar and no blank, so it survives splitting and trimming. */
  lemma {:induction false} OperatorIsPlain(op: FilterOperator)
    ensures var t := OperatorText(op); |t| >= 3 && forall i :: 0 <= i < |t| ==> t[i] != '|' && !IsSpace(t[i])
  {
  }

  lemma {:induction false} TrimShrinks(s: string)
    ensures |Trim(s)| <= |s|
    decreases |s|
  {
    if s != "" && IsSpace(s[0]) {
      TrimShrinks(s[1..]);
    } else if s != "" && IsSpace(s[|s| - 1]) {
      TrimShrinks(s[..|s| - 1]);
    }
  }

  lemma {:induction false} FirstIsLeast(s: string, i: nat, k: nat)
    requires i <= k && SeparatorAt(s, k)
    ensures FirstSeparator(s, i).Some? && FirstSeparator(s, i).value <= k
    decreases k - i
  {
    if !SeparatorAt(s, i) {
      FirstIsLeast(s, i + 1, k);
    }
  }

  /** A field that is not separable hides a separator before its end. */
  lemma {:induction false} NotSeparable(a: string, b: string) returns (k: nat)
    requires !Separable(a)
    ensures k < |a| && SeparatorAt(a + SEPARATOR + b, k)
  {
    var s := a + SEPARATOR + b;
    if i :| 0 <= i && SeparatorAt(a, i) {
      k := i;
      assert s[k] == a[k] && s[k + 1] == a[k + 1];
    } else {
      k := |a| - 1;
      assert s[k] == a[k] && s[k + 1] == SEPARATOR[0];
    }
  }

  /** A trimmed, non-empty field round-trips with every operator and every value exactly when its
      text neither contains a separator nor ends in a bar. */
  lemma {:induction false} RoundTripIff(f: Filter)
    requires f.field != "" && Trim(f.field) == f.field
    ensures ParseOne(PrintFilter(f)) == Parsed(f) <==> Separable(f.field)
  {
    if Separable(f.field) {
      SeparableRoundTrips(f);
    } else {
      InseparableIsCut(f);
    }
  }

  /** The parts of a string written from separable parts. */
  lemma {:induction false} WrittenParts(field: string, text: string, value: string)
    requires Separable(field) && Separable(text)
    ensures var parts := Split(field + SEPARATOR + (text + SEPARATOR + value));
            |parts| >= 3 && parts[0] == field && parts[1] == text && parts[2..] == Split(value)
  {
    SplitPrinted(field, text + SEPARATOR + value);
    SplitPrinted(text, value);
    FirstTwo(Split(field + SEPARATOR + (text + SEPARATOR + value)), field, text, Split(value));
  }

  lemma {:induction false} FirstTwo(parts: seq<string>, a: string, b: string, rest: seq<string>)
    requires parts == [a] + ([b] + rest)
    ensures |parts| == |rest| + 2 && parts[0] == a && parts[1] == b && parts[2..] == rest
  {
  }

  lemma {:induction false} OperatorIsTrimmed(op: FilterOperator)
    ensures Trim(OperatorText(op)) == OperatorText(op) != ""
  {
    OperatorIsPlain(op);
  }

  lemma {:induction false} SeparableRoundTrips(f: Filter)
    requires f.field != "" && Trim(f.field) == f.field && Separable(f.field)
    ensures ParseOne(PrintFilter(f)) == Parsed(f)
  {
    OperatorIsPlain(f.operator);
    WrittenParts(f.field, OperatorText(f.operator), f.value);
    OperatorIsTrimmed(f.operator);
    OperatorRoundTrip(f.operator);
    JoinSplit(f.value);
    ParseOneByParts(PrintFilter(f), f.field, OperatorText(f.operator), f.value);
  }

  /** Otherwise the field is cut short. */
  lemma {:induction false} InseparableIsCut(f: Filter)
    requires !Separable(f.field)
    ensures ParseOne(PrintFilter(f)) != Parsed(f)
  {
    var k := NotSeparable(f.field, OperatorText(f.operator) + SEPARATOR + f.value);
    FirstIsLeast(PrintFilter(f), 0, k);
    var parts := Split(PrintFilter(f));
    assert |parts[0]| < |f.field|;
    TrimShrinks(parts[0]);
  }

  /** In particular every field without a bar does, also with values that contain or start with one. */
  lemma {:induction false} BarFreeRoundTrip(f: Filter)
    requires f.field != "" && Trim(f.field) == f.field && '|' !in f.field
    ensures ParseOne(PrintFilter(f)) == Parsed(f)
  {
    RoundTripIff(f);
  }

  // ---------------------------------------------------------------- lists of filters

  lemma {:induction false} CollectMeans(parses: seq<Parse>, f: Filter)
    ensures Collect(parses).Err? <==> exists i :: 0 <= i < |parses| && parses[i].UnknownOperator?
    ensures Collect(parses).Ok? ==> (f in Collect(parses).value <==> Parsed(f) in parses)
  {
    if parses != [] {
      var n := |parses| - 1;
      var before := parses[..n];
      CollectMeans(before, f);
      assert parses == before + [parses[n]];
    }
  }

  /** A list is refused exactly when some string has an unknown operator, and otherwise yields exactly
      the filters its strings parse to. */
  lemma {:induction false} ParseAllMeans(filters: seq<string>, f: Filter)
    ensures ParseAll(filters).Err? <==> exists i :: 0 <= i < |filters| && ParseOne(filters[i]).UnknownOperator?
    ensures ParseAll(filters).Ok? ==>
              (f in ParseAll(filters).value <==> exists i :: 0 <= i < |filters| && ParseOne(filters[i]) == Parsed(f))
  {
    var parses := ParseEach(filters);
    CollectMeans(parses, f);
    assert forall i :: 0 <= i < |filters| ==> parses[i] == ParseOne(filters[i]);
  }

  /** At most one filter for each string. */
  lemma {:induction false} CollectsAtMost(parses: seq<Parse>)
    ensures Collect(parses).Ok? ==> |Collect(parses).value| <= |parses|
  {
    if parses != [] {
      CollectsAtMost(parses[..|parses| - 1]);
    }
  }

  /** So a list yields as many filters as it has strings exactly when each string yields its own. */
  lemma {:induction false} CollectExact(parses: seq<Parse>, fs: seq<Filter>)
    requires |fs| == |parses|
    ensures Collect(parses) == Ok(fs) <==> forall i :: 0 <= i < |fs| ==> parses[i] == Parsed(fs[i])
  {
    if parses != [] {
      var n := |parses| - 1;
      var before, done := parses[..n], fs[..n];
      CollectsAtMost(before);
      CollectExact(before, done);
      assert fs == done + [fs[n]];
      assert forall i :: 0 <= i < n ==> before[i] == parses[i] && done[i] == fs[i];
      if Collect(parses) == Ok(fs) {
        CollectLast(parses, fs);
      }
    }
  }

  lemma {:induction false} CollectLast(parses: seq<Parse>, fs: seq<Filter>)
    requires |fs| == |parses| > 0 && Collect(parses) == Ok(fs)
    ensures var n := |parses| - 1; Collect(parses[..n]) == Ok(fs[..n]) && parses[n] == Parsed(fs[n])
  {
    var n := |parses| - 1;
    CollectsAtMost(parses[..n]);
    var before := Collect(parses[..n]).value;
    assert parses[n].Parsed? && fs == before + [parses[n].filter];
  }

  function PrintAll(fs: seq<Filter>): seq<string> {
    seq(|fs|, i requires 0 <= i < |fs| => PrintFilter(fs[i]))
  }

  /** A list of printed filters parses back to the list exactly when every field is separable. */
  lemma {:induction false} ListRoundTripIff(fs: seq<Filter>)
    requires forall i :: 0 <= i < |fs| ==> fs[i].field != "" && Trim(fs[i].field) == fs[i].field
    ensures ParseAll(PrintAll(fs)) == Ok(fs) <==> forall i :: 0 <= i < |fs| ==> Separable(fs[i].field)
  {
    var parses := ParseEach(PrintAll(fs));
    CollectExact(parses, fs);
    forall i | 0 <= i < |fs| ensures parses[i] == Parsed(fs[i]) <==> Separable(fs[i].field) {
      RoundTripIff(fs[i]);
    }
  }

  // ---------------------------------------------------------------- what any string is read as

  ghost predicate Blank(s: string) {
    forall i :: 0 <= i < |s| ==> IsSpace(s[i])
  }

  /** Only blanks before `a` and from `b` on, and none at either end between them. */
  ghost predicate TrimsTo(s: string, a: nat, b: nat) {
    && a <= b <= |s| && Blank(s[..a]) && Blank(s[b..])
    && (a < b ==> !IsSpace(s[a]) && !IsSpace(s[b - 1]))
  }

  lemma {:induction false} BlankConcat(s: string, t: string)
    requires Blank(s) && Blank(t)
    ensures Blank(s + t)
  {
  }

  lemma {:induction false} TrimsFront(s: string, a: nat, b: nat)
    requires s != "" && IsSpace(s[0]) && TrimsTo(s[1..], a, b)
    ensures TrimsTo(s, a + 1, b + 1) && s[1..][a..b] == s[a + 1..b + 1]
  {
    var rest := s[1..];
    assert s[..a + 1] == [s[0]] + rest[..a] && s[b + 1..] == rest[b..];
    BlankConcat([s[0]], rest[..a]);
    assert a < b ==> rest[a] == s[a + 1] && rest[b - 1] == s[b];
  }

  lemma {:induction false} TrimsBack(s: string, a: nat, b: nat)
    requires s != "" && IsSpace(s[|s| - 1]) && TrimsTo(s[..|s| - 1], a, b)
    ensures TrimsTo(s, a, b) && s[..|s| - 1][a..b] == s[a..b]
  {
    var n := |s| - 1;
    var rest := s[..n];
    assert s[..a] == rest[..a] && s[b..] == rest[b..] + [s[n]];
    BlankConcat(rest[b..], [s[n]]);
    assert a < b ==> rest[a] == s[a] && rest[b - 1] == s[b - 1];
  }

  /** Trimming cuts off blanks at both ends, all of them and nothing else. */
  lemma {:induction false} TrimIs(s: string) returns (a: nat, b: nat)
    ensures TrimsTo(s, a, b) && Trim(s) == s[a..b]
    decreases |s|
  {
    if s != "" && IsSpace(s[0]) {
      var c, d := TrimIs(s[1..]);
      a, b := c + 1, d + 1;
      TrimsFront(s, c, d);
    } else if s != "" && IsSpace(s[|s| - 1]) {
      a, b := TrimIs(s[..|s| - 1]);
      TrimsBack(s, a, b);
    } else {
      a, b := 0, |s|;
      assert s[0..|s|] == s;
    }
  }

  lemma {:induction false} TrimBlankIff(s: string)
    ensures Trim(s) == "" <==> Blank(s)
  {
    var a, b := TrimIs(s);
    if a == b {
      assert s == s[..a] + s[b..];
    } else {
      assert |s[a..b]| > 0 && !IsSpace(s[a]);
    }
  }

  /** The two leftmost separators that do not overlap. */
  ghost predicate Cut(s: string, i: nat, j: nat) {
    && SeparatorAt(s, i) && (forall x: nat :: x < i ==> !SeparatorAt(s, x))
    && i + 2 <= j && SeparatorAt(s, j) && (forall x: nat :: i + 2 <= x < j ==> !SeparatorAt(s, x))
  }

  lemma {:induction false} FirstIs(s: string, from: nat, i: nat)
    requires from <= i && SeparatorAt(s, i) && forall x: nat :: from <= x < i ==> !SeparatorAt(s, x)
    ensures FirstSeparator(s, from) == Some(i)
    decreases i - from
  {
    if from < i {
      FirstIs(s, from + 1, i);
    }
  }

  lemma {:induction false} SuffixSeparators(s: string, from: nat, x: nat)
    requires from <= |s|
    ensures SeparatorAt(s[from..], x) <==> SeparatorAt(s, from + x)
  {
  }

  lemma {:induction false} CutParts(s: string, i: nat, j: nat)
    requires Cut(s, i, j)
    ensures Split(s) == [s[..i]] + ([s[i + 2..j]] + Split(s[j + 2..]))
  {
    var rest := s[i + 2..];
    FirstIs(s, 0, i);
    forall x: nat ensures SeparatorAt(rest, x) <==> SeparatorAt(s, i + 2 + x) {
      SuffixSeparators(s, i + 2, x);
    }
    FirstIs(rest, 0, j - i - 2);
    assert rest[..j - i - 2] == s[i + 2..j] && rest[j - i..] == s[j + 2..];
  }

  /** Three parts take two separators. */
  lemma {:induction false} PartsAreCut(s: string) returns (i: nat, j: nat)
    requires |Split(s)| >= 3
    ensures Cut(s, i, j)
  {
    i := FirstSeparator(s, 0).value;
    var rest := s[i + 2..];
    var k := FirstSeparator(rest, 0).value;
    j := i + 2 + k;
    NoneBefore(s, 0);
    NoneBefore(rest, 0);
    SuffixSeparators(s, i + 2, k);
    forall x: nat | i + 2 <= x < j ensures !SeparatorAt(s, x) {
      SuffixSeparators(s, i + 2, x - i - 2);
    }
  }

  lemma {:induction false} NoneBefore(s: string, from: nat)
    requires FirstSeparator(s, from).Some?
    ensures forall x: nat :: from <= x < FirstSeparator(s, from).value ==> !SeparatorAt(s, x)
    decreases |s| - from
  {
    if !SeparatorAt(s, from) {
      NoneBefore(s, from + 1);
    }
  }

  /** A text names the operator that is written so, and otherwise none. */
  lemma {:induction false} OperatorOfIs(text: string)
    ensures OperatorOf(text).Some? ==> OperatorText(OperatorOf(text).value) == text
    ensures OperatorOf(text).None? <==> IsNoOperator(text)
  {
    forall op | OperatorText(op) == text ensures OperatorOf(text) == Some(op) {
      OperatorRoundTrip(op);
    }
  }

  ghost predicate IsNoOperator(text: string) {
    forall op :: OperatorText(op) != text
  }

  /** A string with two separators: skipped where field or operator are blank, refused where the
      operator is none, and otherwise exactly field, operator and all the rest as value. */
  lemma {:induction false} CutIsParsed(s: string, i: nat, j: nat)
    requires Cut(s, i, j)
    ensures Blank(s[..i]) || Blank(s[i + 2..j]) ==> ParseOne(s) == Skipped
    ensures !Blank(s[..i]) && !Blank(s[i + 2..j]) ==>
              && (IsNoOperator(Trim(s[i + 2..j])) ==> ParseOne(s) == UnknownOperator(Trim(s[..i])))
              && forall op :: OperatorText(op) == Trim(s[i + 2..j]) ==>
                   ParseOne(s) == Parsed(Filter(Trim(s[..i]), op, s[j + 2..]))
  {
    CutParts(s, i, j);
    TrimBlankIff(s[..i]);
    TrimBlankIff(s[i + 2..j]);
    var text := Trim(s[i + 2..j]);
    OperatorOfIs(text);
    forall op | OperatorText(op) == text ensures OperatorOf(text) == Some(op) {
      OperatorRoundTrip(op);
    }
    var parts := Split(s);
    assert |parts| >= 3 && parts[0] == s[..i] && parts[1] == s[i + 2..j] && parts[2..] == Split(s[j + 2..]);
    JoinSplit(s[j + 2..]);
    ParseOneByParts(s, Trim(s[..i]), text, s[j + 2..]);
  }

  lemma {:induction false} ParseOneByParts(s: string, field: string, text: string, value: string)
    requires var parts := Split(s);
             |parts| >= 3 && field == Trim(parts[0]) && text == Trim(parts[1]) && value == Join(parts[2..])
    ensures ParseOne(s) ==
            if field == "" || text == "" then Skipped
            else if OperatorOf(text).None? then UnknownOperator(field)
            else Parsed(Filter(field, OperatorOf(text).value, value))
  {
  }

  /** A string without two such separators is skipped. */
  lemma {:induction false} UncutIsSkipped(s: string)
    requires forall i: nat, j: nat :: !Cut(s, i, j)
    ensures ParseOne(s) == Skipped
  {
    if |Split(s)| >= 3 {
      var i, j := PartsAreCut(s);
    }
  }

  /** Field and operator are given, but no operator is written so. */
  ghost predicate Misspelt(s: string) {
    exists i: nat, j: nat :: Cut(s, i, j) && !Blank(s[..i]) && !Blank(s[i + 2..j]) && IsNoOperator(Trim(s[i + 2..j]))
  }

  lemma {:induction false} RefusedIffMisspelt(s: string)
    ensures ParseOne(s).UnknownOperator? <==> Misspelt(s)
  {
    if i: nat, j: nat :| Cut(s, i, j) {
      CutIsParsed(s, i, j);
      forall k: nat, l: nat | Cut(s, k, l) ensures k == i && l == j {
        CutIsUnique(s, i, j, k, l);
      }
    } else {
      UncutIsSkipped(s);
    }
  }

  lemma {:induction false} CutIsUnique(s: string, i: nat, j: nat, k: nat, l: nat)
    requires Cut(s, i, j) && Cut(s, k, l)
    ensures k == i && l == j
  {
    FirstIs(s, 0, i);
    FirstIs(s, 0, k);
    FirstIs(s, i + 2, j);
    FirstIs(s, i + 2, l);
  }

  /** A list is refused exactly when it holds a misspelt operator. */
  lemma {:induction false} ListRefusedIff(filters: seq<string>)
    ensures ParseAll(filters).Err? <==> exists i :: 0 <= i < |filters| && Misspelt(filters[i])
  {
    ParseAllMeans(filters, Filter("", Eq, ""));
    forall i | 0 <= i < |filters| ensures ParseOne(filters[i]).UnknownOperator? <==> Misspelt(filters[i]) {
      RefusedIffMisspelt(filters[i]);
    }
  }

  /** Written with any text for the operator: refused, with the field, exactly when no operator is
      written so. */
  lemma {:induction false} UnknownTextIsRefused(field: string, text: string, value: string)
    requires field != "" && Trim(field) == field && Separable(field)
    requires text != "" && Trim(text) == text && Separable(text)
    ensures ParseOne(field + SEPARATOR + (text + SEPARATOR + value)) == UnknownOperator(field) <==> IsNoOperator(text)
  {
    var s := field + SEPARATOR + (text + SEPARATOR + value);
    WrittenParts(field, text, value);
    ParseOneByParts(s, field, text, Join(Split(s)[2..]));
    OperatorOfIs(text);
  }
}
