/**
 Where trees and what they mean.

 A condition on a relation path is a condition on the row joined along that path, so the meaning
 is given over join tuples: a `Row` binds each relation to one related row. An entity is selected
 when some tuple of its joins satisfies the tree. What a single operator tests is left open: every
 statement holds for all `holds`, a predicate on a test and a cell.
 */
module WhereTree {
  import opened Options
  import opened Schema
  import FilterStrings

  /** A raw value of a condition; `Junk` stands for what no condition of the right kind contains. */
  datatype Value = Text(s: string) | Opaque(id: int) | Junk

  datatype Test =
    | Equals(value: Value)
    | IsNull
    | NotNull
    | NotIn(ids: seq<string>)
    | Compares(operator: string, argument: Value)
    | JsonCompares(jsonPath: Path, operator: string, argument: Value)

  /** A TypeORM find operator: one test, or a conjunction. */
  datatype Operator = Single(test: Test) | And(operators: seq<Operator>)

  datatype Val = Raw(value: Value) | Undef | Op(operator: Operator) | Obj(where: Where)

  datatype Where = Where(m: map<string, Val>)

  const EMPTY := Where(map[])

  // ---------------------------------------------------------------- rows and meaning

  type Cell = Option<int>

  datatype Row = NoRow | Row(cells: map<string, int>, related: map<string, Row>)

  type Holds = (Test, Cell) -> bool

  function CellOf(row: Row, c: string): Cell {
    if row.Row? && c in row.cells then Some(row.cells[c]) else None
  }

  function RelatedOf(row: Row, r: string): Row {
    if row.Row? && r in row.related then row.related[r] else NoRow
  }

  function CellAt(row: Row, path: Path): Cell
    requires path != []
    decreases |path|
  {
    if |path| == 1 then CellOf(row, path[0]) else CellAt(RelatedOf(row, path[0]), path[1..])
  }

  ghost predicate Meets(holds: Holds, op: Operator, cell: Cell) {
    match op
    case Single(t) => holds(t, cell)
    case And(ops) => forall i :: 0 <= i < |ops| ==> Meets(holds, ops[i], cell)
  }

  /** A raw value tests for equality; an undefined one constrains nothing. */
  ghost predicate MeetsVal(holds: Holds, v: Val, cell: Cell) {
    match v
    case Raw(x) => holds(Equals(x), cell)
    case Op(op) => Meets(holds, op, cell)
    case _ => true
  }

  /** All keys of the tree, each relation on the row joined for it. */
  ghost predicate Denotes(holds: Holds, w: Where, row: Row)
    decreases w
  {
    forall k :: k in w.m ==>
      match w.m[k]
      case Obj(u) => Denotes(holds, u, RelatedOf(row, k))
      case v => MeetsVal(holds, v, CellOf(row, k))
  }

  // ---------------------------------------------------------------- leaves

  /** The value the tree has for a column path. */
  function LeafAt(w: Where, path: Path): Option<Val>
    decreases |path|
  {
    if path == [] || path[0] !in w.m then None
    else
      match w.m[path[0]]
      case Obj(u) => LeafAt(u, path[1..])
      case v => if |path| == 1 then Some(v) else None
  }

  ghost predicate LeafMeets(holds: Holds, leaf: Option<Val>, cell: Cell) {
    leaf.Some? ==> MeetsVal(holds, leaf.value, cell)
  }

  ghost predicate LeavesMeet(holds: Holds, w: Where, row: Row) {
    forall p :: p != [] ==> LeafMeets(holds, LeafAt(w, p), CellAt(row, p))
  }

  lemma {:induction false} DenotesLeaf(holds: Holds, w: Where, row: Row, p: Path)
    requires Denotes(holds, w, row) && p != []
    ensures LeafMeets(holds, LeafAt(w, p), CellAt(row, p))
    decreases |p|
  {
    if p[0] in w.m && w.m[p[0]].Obj? && |p| > 1 {
      DenotesLeaf(holds, w.m[p[0]].where, RelatedOf(row, p[0]), p[1..]);
    }
  }

  /** A tree means exactly what its leaves say. */
  lemma {:induction false} MeaningIsLeaves(holds: Holds, w: Where, row: Row)
    ensures Denotes(holds, w, row) <==> LeavesMeet(holds, w, row)
    decreases w
  {
    if Denotes(holds, w, row) {
      forall p: Path | p != [] ensures LeafMeets(holds, LeafAt(w, p), CellAt(row, p)) {
        DenotesLeaf(holds, w, row, p);
      }
    }
    if LeavesMeet(holds, w, row) {
      forall k | k in w.m
        ensures w.m[k].Obj? ==> Denotes(holds, w.m[k].where, RelatedOf(row, k))
        ensures !w.m[k].Obj? ==> MeetsVal(holds, w.m[k], CellOf(row, k))
      {
        LeavesUnderKey(holds, w, row, k);
        if w.m[k].Obj? {
          MeaningIsLeaves(holds, w.m[k].where, RelatedOf(row, k));
        }
      }
    }
  }

  lemma {:induction false} LeavesUnderKey(holds: Holds, w: Where, row: Row, k: string)
    requires LeavesMeet(holds, w, row) && k in w.m
    ensures w.m[k].Obj? ==> LeavesMeet(holds, w.m[k].where, RelatedOf(row, k))
    ensures !w.m[k].Obj? ==> MeetsVal(holds, w.m[k], CellOf(row, k))
  {
    if w.m[k].Obj? {
      var u := w.m[k].where;
      forall p: Path | p != [] ensures LeafMeets(holds, LeafAt(u, p), CellAt(RelatedOf(row, k), p)) {
        var q := [k] + p;
        assert q[1..] == p;
        assert LeafMeets(holds, LeafAt(w, q), CellAt(row, q));
      }
    } else {
      assert LeafMeets(holds, LeafAt(w, [k]), CellAt(row, [k]));
    }
  }

  // ---------------------------------------------------------------- kinds

  /** Values sit on columns, nested trees on relations. */
  ghost predicate Kinded(s: Schema, e: string, w: Where)
    decreases w
  {
    && e in s
    && forall k :: k in w.m ==>
         match w.m[k]
         case Obj(u) => k in s[e].relations && Kinded(s, s[e].relations[k], u)
         case _ => k in s[e].columns
  }

  // ---------------------------------------------------------------- merging

  function Ensured(v: Val): Operator {
    match v
    case Op(op) => op
    case Raw(x) => Single(Equals(x))
    case _ => Single(Equals(Junk))
  }

  /** Merges two trees key by key; two values on the same column become a conjunction. */
  function DeepMerge(target: Where, source: Where): Where
    decreases target
  {
    Where(map k | k in target.m.Keys + source.m.Keys ::
      if k !in source.m then target.m[k]
      else if k !in target.m || target.m[k].Undef? then source.m[k]
      else if target.m[k].Obj? && source.m[k].Obj? then Obj(DeepMerge(target.m[k].where, source.m[k].where))
      else Op(And([Ensured(target.m[k]), Ensured(source.m[k])])))
  }

  function MergedLeaf(a: Option<Val>, b: Option<Val>): Option<Val> {
    if b.None? then a
    else if a.None? || a.value.Undef? then b
    else Some(Op(And([Ensured(a.value), Ensured(b.value)])))
  }

  lemma {:induction false} MergeLeaves(s: Schema, e: string, t: Where, u: Where, p: Path)
    requires Separated(s) && Kinded(s, e, t) && Kinded(s, e, u)
    ensures Kinded(s, e, DeepMerge(t, u))
    ensures LeafAt(DeepMerge(t, u), p) == MergedLeaf(LeafAt(t, p), LeafAt(u, p))
    decreases t
  {
    var w := DeepMerge(t, u);
    forall k | k in w.m
      ensures w.m[k].Obj? ==> k in s[e].relations && Kinded(s, s[e].relations[k], w.m[k].where)
      ensures !w.m[k].Obj? ==> k in s[e].columns
    {
      if k in t.m && k in u.m && t.m[k].Obj? && u.m[k].Obj? {
        MergeLeaves(s, s[e].relations[k], t.m[k].where, u.m[k].where, []);
      }
    }
    if p != [] && p[0] in t.m && p[0] in u.m && t.m[p[0]].Obj? && u.m[p[0]].Obj? {
      MergeLeaves(s, s[e].relations[p[0]], t.m[p[0]].where, u.m[p[0]].where, p[1..]);
    }
  }

  /** A merged leaf means both, unless the target was undefined. */
  lemma {:induction false} MergedLeafMeans(holds: Holds, a: Option<Val>, b: Option<Val>, cell: Cell)
    requires (a.Some? ==> !a.value.Obj?) && (b.Some? ==> !b.value.Obj? && !b.value.Undef?)
    ensures LeafMeets(holds, MergedLeaf(a, b), cell) <==> LeafMeets(holds, a, cell) && LeafMeets(holds, b, cell)
  {
    if a.Some? && b.Some? && !a.value.Undef? {
      var both := And([Ensured(a.value), Ensured(b.value)]);
      assert Meets(holds, both, cell) <==>
             Meets(holds, both.operators[0], cell) && Meets(holds, both.operators[1], cell);
    }
  }

  lemma {:induction false} LeafIsNotObj(w: Where, p: Path)
    ensures LeafAt(w, p).Some? ==> !LeafAt(w, p).value.Obj?
    decreases |p|
  {
    if p != [] && p[0] in w.m && w.m[p[0]].Obj? {
      LeafIsNotObj(w.m[p[0]].where, p[1..]);
    }
  }

  /** No undefined value in the tree. */
  ghost predicate Defined(w: Where) {
    forall p :: LeafAt(w, p) != Some(Undef)
  }

  /** Merging trees is conjunction. */
  lemma {:induction false} MergeIsConjunction(s: Schema, e: string, holds: Holds, t: Where, u: Where, row: Row)
    requires Separated(s) && Kinded(s, e, t) && Kinded(s, e, u) && Defined(u)
    ensures Kinded(s, e, DeepMerge(t, u))
    ensures Denotes(holds, DeepMerge(t, u), row) <==> Denotes(holds, t, row) && Denotes(holds, u, row)
  {
    var w := DeepMerge(t, u);
    MergeLeaves(s, e, t, u, []);
    forall p: Path | p != []
      ensures LeafMeets(holds, LeafAt(w, p), CellAt(row, p)) <==>
              LeafMeets(holds, LeafAt(t, p), CellAt(row, p)) && LeafMeets(holds, LeafAt(u, p), CellAt(row, p))
    {
      MergeLeaves(s, e, t, u, p);
      LeafIsNotObj(t, p);
      LeafIsNotObj(u, p);
      assert LeafAt(u, p) != Some(Undef);
      MergedLeafMeans(holds, LeafAt(t, p), LeafAt(u, p), CellAt(row, p));
    }
    MeaningIsLeaves(holds, w, row);
    MeaningIsLeaves(holds, t, row);
    MeaningIsLeaves(holds, u, row);
  }

  // ---------------------------------------------------------------- setting a nested value

  /** Creates the levels on the way and sets the last key. */
  function SetNested(w: Where, path: Path, v: Val): Where
    requires path != []
    decreases |path|
  {
    if |path| == 1 then Where(w.m[path[0] := v])
    else
      Where(w.m[path[0] := Obj(SetNested(Under(w, path[0]), path[1..], v))])
  }

  function Under(w: Where, r: string): Where {
    if r in w.m && w.m[r].Obj? then w.m[r].where else EMPTY
  }

  lemma {:induction false} KindedUnder(s: Schema, e: string, w: Where, r: string)
    requires Separated(s) && Kinded(s, e, w) && r in s[e].relations
    ensures r in w.m ==> w.m[r].Obj?
    ensures Kinded(s, s[e].relations[r], Under(w, r))
  {
  }

  lemma {:induction false} KindedUpdate(s: Schema, e: string, w: Where, k: string, v: Val)
    requires Kinded(s, e, w)
    requires if v.Obj? then k in s[e].relations && Kinded(s, s[e].relations[k], v.where) else k in s[e].columns
    ensures Kinded(s, e, Where(w.m[k := v]))
  {
    var r := Where(w.m[k := v]);
    assert forall j :: j in r.m && j != k ==> r.m[j] == w.m[j];
  }

  lemma {:induction false} SetKinded(s: Schema, e: string, w: Where, path: Path, v: Val)
    requires Separated(s) && Kinded(s, e, w) && ValidPath(s, e, path) && !v.Obj?
    ensures Kinded(s, e, SetNested(w, path, v))
    decreases |path|
  {
    if |path| == 1 {
      KindedUpdate(s, e, w, path[0], v);
    } else {
      KindedUnder(s, e, w, path[0]);
      SetKinded(s, s[e].relations[path[0]], Under(w, path[0]), path[1..], v);
      KindedUpdate(s, e, w, path[0], Obj(SetNested(Under(w, path[0]), path[1..], v)));
    }
  }

  lemma {:induction false} LeafUpdate(w: Where, k: string, v: Val, p: Path)
    ensures LeafAt(Where(w.m[k := v]), p) ==
            if p == [] || p[0] != k then LeafAt(w, p)
            else if v.Obj? then LeafAt(v.where, p[1..])
            else if |p| == 1 then Some(v) else None
  {
  }

  lemma {:induction false} LeafUnder(w: Where, r: string, p: Path)
    requires p != [] && p[0] == r && (r in w.m ==> w.m[r].Obj?)
    ensures LeafAt(w, p) == LeafAt(Under(w, r), p[1..])
  {
  }

  lemma {:induction false} LeafOfColumn(s: Schema, e: string, w: Where, p: Path)
    requires Separated(s) && Kinded(s, e, w) && |p| > 1 && p[0] in s[e].columns
    ensures LeafAt(w, p) == None
  {
  }

  /** Setting a path sets that leaf and leaves the others. */
  lemma {:induction false} SetLeaf(s: Schema, e: string, w: Where, path: Path, v: Val, p: Path)
    requires Separated(s) && Kinded(s, e, w) && ValidPath(s, e, path) && !v.Obj?
    ensures LeafAt(SetNested(w, path, v), p) == if p == path then Some(v) else LeafAt(w, p)
    decreases |path|
  {
    var under := Under(w, path[0]);
    LeafUpdate(w, path[0], if |path| == 1 then v else Obj(SetNested(under, path[1..], v)), p);
    if p != [] && p[0] == path[0] {
      assert p == [p[0]] + p[1..] && path == [path[0]] + path[1..];
      if |path| > 1 {
        KindedUnder(s, e, w, path[0]);
        LeafUnder(w, path[0], p);
        SetLeaf(s, s[e].relations[path[0]], under, path[1..], v, p[1..]);
      } else if |p| > 1 {
        LeafOfColumn(s, e, w, p);
      }
    }
  }

  // ---------------------------------------------------------------- null-like values

  function Lower(s: string): string {
    if s == "" then ""
    else [if 'A' <= s[0] <= 'Z' then ((s[0] as int) + 32) as char else s[0]] + Lower(s[1..])
  }

  predicate IsNullishLiteral(s: string) {
    var t := Lower(FilterStrings.Trim(s));
    t == "null" || t == "undefined"
  }

  /** Letter by letter the same, capitals or not. */
  ghost predicate SameLetters(s: string, lower: string) {
    |s| == |lower| && forall i :: 0 <= i < |s| ==>
      s[i] == lower[i] || ('A' <= s[i] <= 'Z' && (s[i] as int) + 32 == lower[i] as int)
  }

  lemma {:induction false} LowerIs(s: string, lower: string)
    requires forall i :: 0 <= i < |lower| ==> !('A' <= lower[i] <= 'Z')
    ensures Lower(s) == lower <==> SameLetters(s, lower)
    decreases |s|
  {
    if s != "" && lower != "" {
      LowerIs(s[1..], lower[1..]);
      assert s == [s[0]] + s[1..] && lower == [lower[0]] + lower[1..];
      assert SameLetters(s, lower) ==> SameLetters(s[1..], lower[1..]);
      assert SameLetters(s[1..], lower[1..]) ==> forall i :: 1 <= i < |s| ==> s[i] == s[1..][i - 1];
      assert forall i :: 1 <= i < |lower| ==> lower[i] == lower[1..][i - 1];
    }
  }

  /** The literals null and undefined, in any case, with blanks around them. */
  lemma {:induction false} NullishIff(s: string)
    ensures IsNullishLiteral(s) <==>
            SameLetters(FilterStrings.Trim(s), "null") || SameLetters(FilterStrings.Trim(s), "undefined")
  {
    LowerIs(FilterStrings.Trim(s), "null");
    LowerIs(FilterStrings.Trim(s), "undefined");
  }

  /** A value that is turned into an IS NULL test when it stands alone. */
  predicate NullLike(v: Val) {
    v.Undef? || (v.Raw? && v.value.Text? && (v.value.s == "" || IsNullishLiteral(v.value.s)))
  }

  function Normal(v: Val): Val {
    if NullLike(v) then Op(Single(IsNull)) else v
  }

  function TransformNull(w: Where): Where
    decreases w
  {
    Where(map k | k in w.m :: if w.m[k].Obj? then Obj(TransformNull(w.m[k].where)) else Normal(w.m[k]))
  }

  lemma {:induction false} TransformLeaf(w: Where, p: Path)
    ensures LeafAt(TransformNull(w), p) == if LeafAt(w, p).Some? then Some(Normal(LeafAt(w, p).value)) else None
    decreases |p|
  {
    if p != [] && p[0] in w.m && w.m[p[0]].Obj? {
      TransformLeaf(w.m[p[0]].where, p[1..]);
    }
  }

  lemma {:induction false} TransformKinded(s: Schema, e: string, w: Where)
    requires Kinded(s, e, w)
    ensures Kinded(s, e, TransformNull(w)) && Defined(TransformNull(w))
    decreases w
  {
    forall k | k in w.m && w.m[k].Obj? ensures Kinded(s, s[e].relations[k], TransformNull(w.m[k].where)) {
      TransformKinded(s, s[e].relations[k], w.m[k].where);
    }
    forall p: Path ensures LeafAt(TransformNull(w), p) != Some(Undef) {
      TransformLeaf(w, p);
    }
  }
}
