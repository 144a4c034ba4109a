/** Entity metadata as the query compiler reads it: columns, primary columns and relations. */
module Schema {

  type Path = seq<string>

  /** `jsonColumns` are the columns of type json or jsonb; `relations` name the related entity. */
  datatype Entity = Entity(
    columns: set<string>, jsonColumns: set<string>, primaryColumns: seq<string>, relations: map<string, string>)

  type Schema = map<string, Entity>

  /** Relations lead to known entities, and no property is both a column and a relation. */
  ghost predicate Separated(s: Schema) {
    forall e :: e in s ==>
      && s[e].columns !! s[e].relations.Keys
      && s[e].jsonColumns <= s[e].columns
      && (forall c :: c in s[e].primaryColumns ==> c in s[e].columns)
      && forall r :: r in s[e].relations ==> s[e].relations[r] in s
  }

  /** Relations, then a column at the end. */
  predicate ValidPath(s: Schema, e: string, path: Path)
    decreases |path|
  {
    && e in s && path != []
    && if |path| == 1 then path[0] in s[e].columns
       else path[0] in s[e].relations && ValidPath(s, s[e].relations[path[0]], path[1..])
  }

  /** The entities along a path: each relation leads from one to the next, and the last has the column. */
  ghost predicate Trail(s: Schema, e: string, path: Path, entities: seq<string>) {
    && |path| == |entities| > 0 && entities[0] == e
    && (forall i :: 0 <= i < |entities| ==> entities[i] in s)
    && (forall i :: 0 <= i < |path| - 1 ==>
          path[i] in s[entities[i]].relations && entities[i + 1] == s[entities[i]].relations[path[i]])
    && path[|path| - 1] in s[entities[|path| - 1]].columns
  }

  lemma {:induction false} TrailOf(s: Schema, e: string, path: Path) returns (entities: seq<string>)
    requires ValidPath(s, e, path)
    ensures Trail(s, e, path, entities)
    decreases |path|
  {
    if |path| == 1 {
      entities := [e];
    } else {
      var rest := TrailOf(s, s[e].relations[path[0]], path[1..]);
      entities := [e] + rest;
      forall i | 0 <= i < |path| - 1
        ensures path[i] in s[entities[i]].relations && entities[i + 1] == s[entities[i]].relations[path[i]]
      {
        if i > 0 {
          assert path[1..][i - 1] == path[i] && rest[i - 1] == entities[i];
        }
      }
    }
  }

  lemma {:induction false} TrailIsValid(s: Schema, e: string, path: Path, entities: seq<string>)
    requires Trail(s, e, path, entities)
    ensures ValidPath(s, e, path)
    decreases |path|
  {
    if |path| > 1 {
      var inner, rest := path[1..], entities[1..];
      assert forall i :: 0 <= i < |rest| ==> rest[i] == entities[i + 1] && inner[i] == path[i + 1];
      TrailIsValid(s, s[e].relations[path[0]], inner, rest);
    }
  }

  /** A path is valid exactly when relations lead along it to an entity that has its last part as column. */
  lemma {:induction false} ValidPathIff(s: Schema, e: string, path: Path)
    ensures ValidPath(s, e, path) <==> exists entities :: Trail(s, e, path, entities)
  {
    if ValidPath(s, e, path) {
      var entities := TrailOf(s, e, path);
    }
    if entities :| Trail(s, e, path, entities) {
      TrailIsValid(s, e, path, entities);
    }
  }
}
