/** The `fields` parameter: a list of column paths turned into a select tree. */
module SelectTree {
  import opened Options
  import opened Schema

  /** A column that is selected, or a relation with a level of its own. */
  datatype Select = Column | Nested(level: Level)
  type Level = map<string, Select>

  function LevelUnder(level: Level, r: string): Level {
    if r in level && level[r].Nested? then level[r].level else map[]
  }

  /** Selects columns that are not yet mentioned, without touching what is. */
  function Seed(level: Level, columns: set<string>): Level {
    level + map c | c in columns && c !in level :: Column
  }

  /** Columns a relation on the way brings along: all of them if the leaf lies deeper, else its keys. */
  function Brought(s: Schema, target: string, path: Path): set<string>
    requires target in s && |path| >= 2
  {
    if |path| > 2 then s[target].columns else set c | c in s[target].primaryColumns
  }

  /** Relations lead to known entities. */
  ghost predicate Closed(s: Schema) {
    forall x, r :: x in s && r in s[x].relations ==> s[x].relations[r] in s
  }

  /** Walks one dotted path into the tree; nothing if a part is not a relation or the leaf not a column. */
  function BuildNestedSelect(s: Schema, e: string, level: Level, path: Path): Option<Level>
    requires path != [] && e in s && Closed(s)
    decreases |path|
  {
    var part := path[0];
    if |path| == 1 then
      if part in s[e].columns then Some(level[part := Column]) else None
    else if part !in s[e].relations then None
    else if part in level && level[part] == Column then BuildNestedSelect(s, e, level, path[1..])
    else
      var target := s[e].relations[part];
      var seeded := Seed(LevelUnder(level, part), Brought(s, target, path));
      match BuildNestedSelect(s, target, seeded, path[1..])
      case None => None
      case Some(under) => Some(level[part := Nested(under)])
  }

  // ---------------------------------------------------------------- meaning

  /** The tree selects this column path. */
  predicate Selects(level: Level, path: Path)
    decreases |path|
  {
    && path != [] && path[0] in level
    && match level[path[0]]
       case Column => |path| == 1
       case Nested(under) => |path| > 1 && Selects(under, path[1..])
  }

  /** Asking for `path` asks for `q`: the path itself, and what each relation on it brings along. */
  predicate Implied(s: Schema, e: string, path: Path, q: Path)
    requires ValidPath(s, e, path)
    decreases |path|
  {
    if |path| == 1 then q == path
    else
      var target := s[e].relations[path[0]];
      assert ValidPath(s, target, path[1..]);
      && |q| >= 2 && q[0] == path[0]
      && ((|q| == 2 && q[1] in Brought(s, target, path)) || Implied(s, target, path[1..], q[1..]))
  }

  /** Every key of the tree is a column that is selected or a relation with a level. */
  ghost predicate WellKinded(s: Schema, e: string, level: Level, t: Select)
    requires t == Nested(level)
    decreases t
  {
    && e in s
    && forall k :: k in level ==>
         match level[k]
         case Column => k in s[e].columns
         case Nested(under) => k in s[e].relations && WellKinded(s, s[e].relations[k], under, level[k])
  }

  ghost predicate Kinded(s: Schema, e: string, level: Level) {
    WellKinded(s, e, level, Nested(level))
  }

  lemma {:induction false} SeedSelects(s: Schema, e: string, level: Level, columns: set<string>, q: Path)
    requires Separated(s) && Kinded(s, e, level) && columns <= s[e].columns
    ensures Kinded(s, e, Seed(level, columns))
    ensures Selects(Seed(level, columns), q) <==> Selects(level, q) || (|q| == 1 && q[0] in columns)
  {
    assert forall c :: c in columns && c in level ==> level[c] == Column;
  }

  lemma {:induction false} KindedUnder(s: Schema, e: string, level: Level, r: string)
    requires Separated(s) && Kinded(s, e, level) && r in s[e].relations
    ensures r in level ==> level[r] != Column
    ensures Kinded(s, s[e].relations[r], LevelUnder(level, r))
  {
  }

  lemma {:induction false} KindedNested(s: Schema, e: string, level: Level, r: string, under: Level)
    requires Kinded(s, e, level) && r in s[e].relations && Kinded(s, s[e].relations[r], under)
    ensures Kinded(s, e, level[r := Nested(under)])
  {
    var m := level[r := Nested(under)];
    assert forall k :: k in m && k != r ==> m[k] == level[k];
  }

  /** What replacing the level under a relation does to the selected paths. */
  lemma {:induction false} NestedSelects(level: Level, r: string, under: Level, q: Path)
    ensures Selects(level[r := Nested(under)], q) <==>
            if q != [] && q[0] == r then |q| > 1 && Selects(under, q[1..]) else Selects(level, q)
    ensures (r in level ==> level[r] != Column) && q != [] && q[0] == r ==>
              (Selects(level, q) <==> |q| > 1 && Selects(LevelUnder(level, r), q[1..]))
  {
  }

  /** One path adds exactly what it implies, on a tree of the right kinds. */
  lemma {:induction false} PathAddsImplied(s: Schema, e: string, level: Level, path: Path, q: Path)
    requires Separated(s) && Kinded(s, e, level) && ValidPath(s, e, path)
    ensures var r := BuildNestedSelect(s, e, level, path);
            r.Some? && Kinded(s, e, r.value) && (Selects(r.value, q) <==> Selects(level, q) || Implied(s, e, path, q))
    decreases |path|
  {
    var part := path[0];
    if |path| > 1 {
      var target := s[e].relations[part];
      var under, brought := LevelUnder(level, part), Brought(s, target, path);
      KindedUnder(s, e, level, part);
      var rest := if q == [] then [] else q[1..];
      SeedSelects(s, target, under, brought, rest);
      PathAddsImplied(s, target, Seed(under, brought), path[1..], rest);
      var new_ := BuildNestedSelect(s, target, Seed(under, brought), path[1..]).value;
      KindedNested(s, e, level, part, new_);
      NestedSelects(level, part, new_, q);
    }
  }

  lemma {:induction false} InvalidPathFails(s: Schema, e: string, level: Level, path: Path)
    requires Separated(s) && Kinded(s, e, level) && path != [] && !ValidPath(s, e, path)
    ensures BuildNestedSelect(s, e, level, path) == None
    decreases |path|
  {
    if |path| > 1 && path[0] in s[e].relations {
      var target := s[e].relations[path[0]];
      var under := LevelUnder(level, path[0]);
      KindedUnder(s, e, level, path[0]);
      SeedSelects(s, target, under, Brought(s, target, path), []);
      InvalidPathFails(s, target, Seed(under, Brought(s, target, path)), path[1..]);
    }
  }

  // ---------------------------------------------------------------- the whole parameter

  /** The paths asked for: the client's, then the root primary keys it left out. */
  method WithPrimaryKeys(fields: seq<Path>, keys: seq<string>) returns (requested: seq<Path>)
    ensures fields <= requested
    ensures forall p :: p in requested ==> p in fields || (|p| == 1 && p[0] in keys)
    ensures forall c :: c in keys ==> [c] in requested
  {
    requested := fields;
    for n := 0 to |keys|
      invariant fields <= requested
      invariant forall p :: p in requested ==> p in fields || (|p| == 1 && p[0] in keys)
      invariant forall i :: 0 <= i < n ==> [keys[i]] in requested
    {
      if [keys[n]] !in requested {
        requested := requested + [[keys[n]]];
      }
    }
  }

  lemma {:induction false} StepSelects(s: Schema, e: string, level: Level, requested: seq<Path>, n: nat)
    requires Separated(s) && Kinded(s, e, level) && n < |requested| && ValidPath(s, e, requested[n])
    requires forall q :: Selects(level, q) <==> AskedBy(s, e, requested[..n], q)
    ensures var r := BuildNestedSelect(s, e, level, requested[n]);
            r.Some? && Kinded(s, e, r.value) && forall q :: Selects(r.value, q) <==>
              AskedBy(s, e, requested[..n + 1], q)
  {
    var r := BuildNestedSelect(s, e, level, requested[n]);
    PathAddsImplied(s, e, level, requested[n], []);
    var upto := requested[..n + 1];
    forall q: Path ensures Selects(r.value, q) <==> AskedBy(s, e, upto, q) {
      PathAddsImplied(s, e, level, requested[n], q);
      AskedNext(s, e, requested, n, q);
    }
  }

  /** The tree after walking the paths one by one, refusing the first invalid one. */
  function Built(s: Schema, e: string, requested: seq<Path>): Option<Level>
    requires e in s && Closed(s) && NonEmpty(requested)
  {
    if requested == [] then Some(map[])
    else
      var n := |requested| - 1;
      match Built(s, e, requested[..n])
      case None => None
      case Some(level) => BuildNestedSelect(s, e, level, requested[n])
  }

  predicate NonEmpty(paths: seq<Path>) {
    forall i :: 0 <= i < |paths| ==> paths[i] != []
  }

  ghost predicate AllValid(s: Schema, e: string, paths: seq<Path>) {
    forall i :: 0 <= i < |paths| ==> ValidPath(s, e, paths[i])
  }

  /** The paths built, exactly what they imply is selected; one invalid path refuses them all. */
  lemma {:induction false} BuiltSelects(s: Schema, e: string, requested: seq<Path>)
    requires Separated(s) && e in s && Closed(s) && NonEmpty(requested)
    ensures var r := Built(s, e, requested);
            && (r.Some? <==> AllValid(s, e, requested))
            && (r.Some? ==> Kinded(s, e, r.value) && forall q :: Selects(r.value, q) <==> AskedBy(s, e, requested, q))
  {
    if requested != [] {
      var n := |requested| - 1;
      var before := requested[..n];
      BuiltSelects(s, e, before);
      if AllValid(s, e, before) {
        if ValidPath(s, e, requested[n]) {
          StepSelects(s, e, Built(s, e, before).value, requested, n);
          assert requested[..n + 1] == requested;
        } else {
          InvalidPathFails(s, e, Built(s, e, before).value, requested[n]);
        }
      } else {
        var i :| 0 <= i < |before| && !ValidPath(s, e, before[i]);
        assert requested[i] == before[i];
      }
    }
  }

  lemma {:induction false} RefusedStays(s: Schema, e: string, requested: seq<Path>, n: nat)
    requires e in s && Closed(s) && NonEmpty(requested) && n <= |requested| && Built(s, e, requested[..n]) == None
    ensures Built(s, e, requested) == None
    decreases |requested|
  {
    if n < |requested| {
      var before := requested[..|requested| - 1];
      assert before[..n] == requested[..n];
      RefusedStays(s, e, before, n);
    } else {
      assert requested[..n] == requested;
    }
  }

  method BuildAll(s: Schema, e: string, requested: seq<Path>) returns (r: Option<Level>)
    requires e in s && Closed(s) && NonEmpty(requested)
    ensures r == Built(s, e, requested)
  {
    var level: Level := map[];
    for n := 0 to |requested|
      invariant Built(s, e, requested[..n]) == Some(level)
    {
      assert requested[..n + 1][..n] == requested[..n];
      var next := BuildNestedSelect(s, e, level, requested[n]);
      if next.None? {
        RefusedStays(s, e, requested, n + 1);
        return None;
      }
      level := next.value;
    }
    assert requested[..|requested|] == requested;
    return Some(level);
  }

  method ParseAndValidateFields(s: Schema, e: string, fields: seq<Path>) returns (r: Option<Level>)
    requires e in s && Closed(s) && NonEmpty(fields)
    ensures Separated(s) ==> (r.Some? <==> AllValid(s, e, fields))
    ensures Separated(s) && r.Some? ==> SelectsExactly(s, e, fields, r.value)
  {
    var requested := WithPrimaryKeys(fields, s[e].primaryColumns);
    RequestedIsNonEmpty(fields, s[e].primaryColumns, requested);
    r := BuildAll(s, e, requested);
    if Separated(s) {
      RequestedIsValid(s, e, fields, requested);
      BuiltSelects(s, e, requested);
      forall q: Path ensures AskedBy(s, e, requested, q) <==> Wanted(s, e, fields, q) {
        AskedIsWanted(s, e, fields, requested, q);
      }
    }
  }

  lemma {:induction false} RequestedIsNonEmpty(fields: seq<Path>, keys: seq<string>, requested: seq<Path>)
    requires NonEmpty(fields) && forall p :: p in requested ==> p in fields || (|p| == 1 && p[0] in keys)
    ensures NonEmpty(requested)
  {
    forall i | 0 <= i < |requested| ensures requested[i] != [] {
      assert requested[i] in requested;
    }
  }

  /** The primary keys are columns, so only the client's paths can be refused. */
  lemma {:induction false} RequestedIsValid(s: Schema, e: string, fields: seq<Path>, requested: seq<Path>)
    requires Separated(s) && e in s && fields <= requested
    requires forall p :: p in requested ==> p in fields || (|p| == 1 && p[0] in s[e].primaryColumns)
    ensures AllValid(s, e, requested) <==> AllValid(s, e, fields)
  {
    assert forall i :: 0 <= i < |fields| ==> fields[i] == requested[i];
    forall i | 0 <= i < |requested|
      ensures requested[i] in fields || ValidPath(s, e, requested[i])
    {
      assert requested[i] in requested;
    }
  }

  ghost predicate AskedBy(s: Schema, e: string, paths: seq<Path>, q: Path)
  {
    exists i :: 0 <= i < |paths| && ValidPath(s, e, paths[i]) && Implied(s, e, paths[i], q)
  }

  lemma {:induction false} AskedNext(s: Schema, e: string, paths: seq<Path>, n: nat, q: Path)
    requires n < |paths| && ValidPath(s, e, paths[n])
    ensures AskedBy(s, e, paths[..n + 1], q) <==> AskedBy(s, e, paths[..n], q) || Implied(s, e, paths[n], q)
  {
    var a, b := paths[..n + 1], paths[..n];
    assert forall i :: 0 <= i < n ==> a[i] == b[i];
    assert a[n] == paths[n];
  }

  /** What a list of fields asks for, as a set of requests: their order and repetition do not occur. */
  ghost predicate Wanted(s: Schema, e: string, fields: seq<Path>, q: Path)
    requires e in s
  {
    || (|q| == 1 && q[0] in s[e].primaryColumns)
    || exists p :: p in fields && ValidPath(s, e, p) && Implied(s, e, p, q)
  }

  ghost predicate SelectsExactly(s: Schema, e: string, fields: seq<Path>, level: Level)
    requires e in s
  {
    forall q :: Selects(level, q) <==> Wanted(s, e, fields, q)
  }

  lemma {:induction false} AskedIsWanted(s: Schema, e: string, fields: seq<Path>, requested: seq<Path>, q: Path)
    requires Separated(s) && e in s && fields <= requested
    requires forall p :: p in requested ==> p in fields || (|p| == 1 && p[0] in s[e].primaryColumns)
    requires forall c :: c in s[e].primaryColumns ==> [c] in requested
    ensures AskedBy(s, e, requested, q) <==> Wanted(s, e, fields, q)
  {
    if AskedBy(s, e, requested, q) {
      var i :| 0 <= i < |requested| && ValidPath(s, e, requested[i]) && Implied(s, e, requested[i], q);
      assert requested[i] in requested;
    }
    if |q| == 1 && q[0] in s[e].primaryColumns {
      assert q == [q[0]] && q in requested;
      var i :| 0 <= i < |requested| && requested[i] == q;
      assert ValidPath(s, e, requested[i]) && Implied(s, e, requested[i], q);
    } else if Wanted(s, e, fields, q) {
      var p :| p in fields && ValidPath(s, e, p) && Implied(s, e, p, q);
      assert p in requested;
      var i :| 0 <= i < |requested| && requested[i] == p;
    }
  }

  // ---------------------------------------------------------------- consequences

  /** Reordering or repeating fields selects the same columns. */
  lemma {:induction false} OrderDoesNotMatter(
    s: Schema, e: string, f: seq<Path>, g: seq<Path>, a: Level, b: Level, q: Path)
    requires e in s && SelectsExactly(s, e, f, a) && SelectsExactly(s, e, g, b)
    requires forall p :: p in f <==> p in g
    ensures Selects(a, q) <==> Selects(b, q)
  {
    assert Wanted(s, e, f, q) <==> Wanted(s, e, g, q);
  }

  /** Asking for more never removes a column. */
  lemma {:induction false} MoreFieldsSelectMore(
    s: Schema, e: string, f: seq<Path>, g: seq<Path>, a: Level, b: Level, q: Path)
    requires e in s && SelectsExactly(s, e, f, a) && SelectsExactly(s, e, g, b)
    requires forall p :: p in f ==> p in g
    ensures Selects(a, q) ==> Selects(b, q)
  {
    assert Wanted(s, e, f, q) ==> Wanted(s, e, g, q);
  }

  /** The related entity `path` starts with relations to, after `n` of them. */
  function EntityAt(s: Schema, e: string, path: Path, n: nat): string
    requires ValidPath(s, e, path) && n < |path|
    decreases n
  {
    if n == 0 then e else EntityAt(s, s[e].relations[path[0]], path[1..], n - 1)
  }

  /** Every requested path is selected, with the root keys and the keys of each relation on it. */
  lemma {:induction false} SelectsRequested(
    s: Schema, e: string, fields: seq<Path>, level: Level, p: Path, n: nat, key: string)
    requires Separated(s) && e in s && SelectsExactly(s, e, fields, level) && p in fields && ValidPath(s, e, p) &&
             n < |p|
    requires EntityAt(s, e, p, n) in s && key in s[EntityAt(s, e, p, n)].primaryColumns
    ensures Selects(level, p) && Selects(level, p[..n] + [key])
  {
    ImpliesItself(s, e, p);
    assert Wanted(s, e, fields, p);
    if n == 0 {
      assert p[..n] + [key] == [key];
      assert Wanted(s, e, fields, [key]);
    } else {
      ImpliesKeys(s, e, p, n, key);
      assert Wanted(s, e, fields, p[..n] + [key]);
    }
  }

  lemma {:induction false} ImpliesItself(s: Schema, e: string, p: Path)
    requires ValidPath(s, e, p)
    ensures Implied(s, e, p, p)
    decreases |p|
  {
    if |p| > 1 {
      ImpliesItself(s, s[e].relations[p[0]], p[1..]);
    }
  }

  lemma {:induction false} ImpliesKeys(s: Schema, e: string, p: Path, n: nat, key: string)
    requires Separated(s) && ValidPath(s, e, p) && 1 <= n < |p|
    requires EntityAt(s, e, p, n) in s && key in s[EntityAt(s, e, p, n)].primaryColumns
    ensures Implied(s, e, p, p[..n] + [key])
    decreases n
  {
    var q := p[..n] + [key];
    if n == 1 {
      assert q[0] == p[0] && q[1] == key;
    } else {
      ImpliesKeys(s, s[e].relations[p[0]], p[1..], n - 1, key);
      assert q[1..] == p[1..][..n - 1] + [key];
    }
  }

  // ---------------------------------------------------------------- when every field is honoured

  /** Metadata as TypeORM builds it: known targets, keys among the columns, no entity without columns. */
  ghost predicate Metadata(s: Schema) {
    && Closed(s)
    && forall e :: e in s ==>
         && s[e].columns != {}
         && s[e].jsonColumns <= s[e].columns
         && forall c :: c in s[e].primaryColumns ==> c in s[e].columns
  }

  /** Every list of valid paths is accepted and selects each of them. */
  ghost predicate HonoursFields(s: Schema)
    requires Closed(s)
  {
    forall e, fields :: e in s && NonEmpty(fields) && AllValid(s, e, fields) ==> Honours(s, e, fields)
  }

  ghost predicate Honours(s: Schema, e: string, fields: seq<Path>)
    requires e in s && Closed(s) && NonEmpty(fields)
  {
    var r := Built(s, e, fields);
    r.Some? && forall i :: 0 <= i < |fields| ==> Selects(r.value, fields[i])
  }

  /** A property that is both: asking for it and then for a column behind it drops the latter. */
  lemma {:induction false} AmbiguousIsDropped(s: Schema, e: string, r: string, c: string)
    requires Closed(s) && e in s && r in s[e].columns && r in s[e].relations && c in s[s[e].relations[r]].columns
    ensures NonEmpty([[r], [r, c]]) && AllValid(s, e, [[r], [r, c]]) && !Honours(s, e, [[r], [r, c]])
  {
    var fields := [[r], [r, c]];
    assert fields[..1] == [[r]] && fields[..1][..0] == [];
    assert Built(s, e, []) == Some(map[]);
    assert Built(s, e, [[r]]) == Some(map[r := Column]) by {
      assert [[r]][..0] == [];
    }
    assert [r, c][1..] == [c];
    assert ValidPath(s, s[e].relations[r], [c]);
    assert ValidPath(s, e, fields[1]);
    var b := Built(s, e, fields);
    assert b == BuildNestedSelect(s, e, map[r := Column], [r, c]) == BuildNestedSelect(s, e, map[r := Column], [c]);
    if b.Some? {
      assert b.value == map[r := Column][c := Column];
      assert !Selects(b.value, fields[1]);
    }
  }

  /** Requested fields are always honoured exactly when no property is both a column and a relation. */
  lemma {:induction false} HonoursFieldsIff(s: Schema)
    requires Metadata(s)
    ensures HonoursFields(s) <==> forall e :: e in s ==> s[e].columns !! s[e].relations.Keys
  {
    if forall e :: e in s ==> s[e].columns !! s[e].relations.Keys {
      assert Separated(s);
      forall e, fields | e in s && NonEmpty(fields) && AllValid(s, e, fields) ensures Honours(s, e, fields) {
        BuiltSelects(s, e, fields);
        forall i | 0 <= i < |fields| ensures Selects(Built(s, e, fields).value, fields[i]) {
          ImpliesItself(s, e, fields[i]);
          assert AskedBy(s, e, fields, fields[i]);
        }
      }
    } else {
      var e :| e in s && !(s[e].columns !! s[e].relations.Keys);
      var r :| r in s[e].columns && r in s[e].relations;
      var c :| c in s[s[e].relations[r]].columns;
      AmbiguousIsDropped(s, e, r, c);
    }
  }

  // ---------------------------------------------------------------- what a path brings along

  /** After `n` relations `q` leaves the path with one column: any column where the path goes on through
      that relation, a key where it ends there. */
  ghost predicate Along(s: Schema, e: string, path: Path, q: Path, n: nat)
    requires ValidPath(s, e, path)
  {
    && 1 <= n < |path| && |q| == n + 1 && q[..n] == path[..n] && EntityAt(s, e, path, n) in s
    && var owner := s[EntityAt(s, e, path, n)];
       if n < |path| - 1 then q[n] in owner.columns else q[n] in owner.primaryColumns
  }

  /** Asking for a path asks for exactly: the path itself, all columns of the relations it passes
      through, and the keys of the relation that owns its last column. */
  lemma {:induction false} ImpliedIff(s: Schema, e: string, path: Path, q: Path)
    requires Separated(s) && ValidPath(s, e, path)
    ensures Implied(s, e, path, q) <==> q == path || exists n: nat :: Along(s, e, path, q, n)
    decreases |path|
  {
    if |path| > 1 {
      var target, inner := s[e].relations[path[0]], path[1..];
      if |q| >= 2 && q[0] == path[0] {
        ImpliedIff(s, target, inner, q[1..]);
        assert q == [q[0]] + q[1..] && path == [path[0]] + inner;
        assert q[1..] == inner <==> q == path;
        AlongFirst(s, e, path, q);
        if m: nat :| Along(s, target, inner, q[1..], m) {
          AlongInner(s, e, path, q, m + 1);
        }
        if n: nat :| Along(s, e, path, q, n) && n > 1 {
          AlongInner(s, e, path, q, n);
          assert Along(s, target, inner, q[1..], n - 1);
        }
      } else {
        forall n: nat ensures !Along(s, e, path, q, n) {
          assert 1 <= n < |q| && n < |path| ==> q[..n][0] == q[0] && path[..n][0] == path[0];
        }
      }
    }
  }

  lemma {:induction false} AlongFirst(s: Schema, e: string, path: Path, q: Path)
    requires Separated(s) && ValidPath(s, e, path) && |path| > 1 && |q| >= 2 && q[0] == path[0]
    ensures Along(s, e, path, q, 1) <==> |q| == 2 && q[1] in Brought(s, s[e].relations[path[0]], path)
  {
    assert q[..1] == [q[0]] && path[..1] == [path[0]];
    assert EntityAt(s, e, path, 1) == s[e].relations[path[0]];
  }

  lemma {:induction false} AlongInner(s: Schema, e: string, path: Path, q: Path, n: nat)
    requires Separated(s) && ValidPath(s, e, path) && |path| > 1 && |q| >= 2 && q[0] == path[0] && n > 1
    ensures ValidPath(s, s[e].relations[path[0]], path[1..])
    ensures Along(s, e, path, q, n) <==> Along(s, s[e].relations[path[0]], path[1..], q[1..], n - 1)
  {
    if n < |path| && |q| == n + 1 {
      var a, b := q[1..], path[1..];
      assert q[..n] == [q[0]] + a[..n - 1] && path[..n] == [path[0]] + b[..n - 1];
      assert q[..n] == path[..n] <==> a[..n - 1] == b[..n - 1];
      assert a[n - 1] == q[n];
    }
  }

  /** What a list of fields selects, path by path. */
  lemma {:induction false} SelectedIff(s: Schema, e: string, fields: seq<Path>, level: Level, q: Path)
    requires Separated(s) && e in s && SelectsExactly(s, e, fields, level) && AllValid(s, e, fields)
    ensures Selects(level, q) <==>
            || (|q| == 1 && q[0] in s[e].primaryColumns) || q in fields
            || exists i :: 0 <= i < |fields| && AlongSome(s, e, fields[i], q)
  {
    if p :| p in fields && ValidPath(s, e, p) && Implied(s, e, p, q) {
      ImpliedIff(s, e, p, q);
      var i :| 0 <= i < |fields| && fields[i] == p;
      assert q == p || AlongSome(s, e, fields[i], q);
    }
    if q in fields {
      var i :| 0 <= i < |fields| && fields[i] == q;
      ImpliesItself(s, e, q);
    }
    if i :| 0 <= i < |fields| && AlongSome(s, e, fields[i], q) {
      ImpliedIff(s, e, fields[i], q);
      assert fields[i] in fields;
    }
    assert Selects(level, q) <==> Wanted(s, e, fields, q);
  }

  ghost predicate AlongSome(s: Schema, e: string, path: Path, q: Path) {
    ValidPath(s, e, path) && exists n: nat :: Along(s, e, path, q, n)
  }
}
