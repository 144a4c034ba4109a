/** What the compiled where clause selects. */
module QueryMeaning {
  import opened Options
  import opened Schema
  import opened WhereTree
  import opened QueryCompiler
  import FilterStrings

  // ---------------------------------------------------------------- the meaning of conditions

  /** A condition on its own: null-like values ask for NULL, a bare JSON column asks nothing. */
  ghost predicate LeafHolds(holds: Holds, leaf: Leaf, row: Row) {
    leaf.At? && leaf.path != [] ==> MeetsVal(holds, Normal(leaf.val), CellAt(row, leaf.path))
  }

  ghost predicate AllHold(holds: Holds, leaves: seq<Leaf>, row: Row) {
    forall i :: 0 <= i < |leaves| ==> LeafHolds(holds, leaves[i], row)
  }

  /** No path carries a null-like value together with another condition. */
  ghost predicate NoNullOverlap(leaves: seq<Leaf>) {
    forall i, j, p :: i != j && IsAt(leaves, i, p) && IsAt(leaves, j, p) ==> !NullLike(leaves[i].val)
  }

  ghost predicate NoUndef(leaves: seq<Leaf>) {
    forall i :: 0 <= i < |leaves| && leaves[i].At? ==> !leaves[i].val.Undef?
  }

  // ---------------------------------------------------------------- one path

  /** `f` says at `p` what the conditions at `p` say together. */
  ghost predicate Sums(holds: Holds, leaves: seq<Leaf>, p: Path, cell: Cell, f: Option<Val>) {
    && (f.None? <==> forall i :: !IsAt(leaves, i, p))
    && (f.Some? ==> !f.value.Obj?)
    && (f.Some? ==> (MeetsVal(holds, Normal(f.value), cell) <==>
                     forall i :: IsAt(leaves, i, p) ==> MeetsVal(holds, Normal(leaves[i].val), cell)))
    && (f.Some? && NullLike(f.value) ==> exists i :: IsAt(leaves, i, p) && NullLike(leaves[i].val))
  }

  lemma {:induction false} AtConcat(a: seq<Leaf>, b: seq<Leaf>, p: Path)
    ensures forall i :: 0 <= i < |a| ==> (a + b)[i] == a[i]
    ensures forall i :: 0 <= i < |b| ==> (a + b)[|a| + i] == b[i]
    ensures forall i :: IsAt(a, i, p) ==> IsAt(a + b, i, p)
    ensures forall i :: IsAt(b, i, p) ==> IsAt(a + b, |a| + i, p)
    ensures forall i :: IsAt(a + b, i, p) ==> if i < |a| then IsAt(a, i, p) else IsAt(b, i - |a|, p)
  {
  }

  ghost predicate AllAt(holds: Holds, leaves: seq<Leaf>, p: Path, cell: Cell) {
    forall i :: IsAt(leaves, i, p) ==> MeetsVal(holds, Normal(leaves[i].val), cell)
  }

  lemma {:induction false} AllAtConcat(holds: Holds, a: seq<Leaf>, b: seq<Leaf>, p: Path, cell: Cell)
    ensures AllAt(holds, a + b, p, cell) <==> AllAt(holds, a, p, cell) && AllAt(holds, b, p, cell)
  {
    AtConcat(a, b, p);
    if AllAt(holds, a + b, p, cell) {
      forall i | IsAt(a, i, p) ensures MeetsVal(holds, Normal(a[i].val), cell) {
        assert IsAt(a + b, i, p);
      }
      forall i | IsAt(b, i, p) ensures MeetsVal(holds, Normal(b[i].val), cell) {
        assert IsAt(a + b, |a| + i, p);
      }
    }
  }

  lemma {:induction false} SumsMerge(
    holds: Holds, a: seq<Leaf>, b: seq<Leaf>, p: Path, cell: Cell, f: Option<Val>, g: Option<Val>)
    requires NoNullOverlap(a + b) && Sums(holds, a, p, cell, f) && Sums(holds, b, p, cell, g)
    ensures Sums(holds, a + b, p, cell, MergedLeaf(f, g))
  {
    AtConcat(a, b, p);
    AllAtConcat(holds, a, b, p, cell);
    if f.Some? && g.Some? {
      var i :| IsAt(a, i, p);
      var j :| IsAt(b, j, p);
      BothPlain(a, b, p, i, j);
      MergedLeafMeans(holds, f, g, cell);
      assert IsAt(a + b, i, p);
    } else if f.Some? && NullLike(f.value) {
      var i :| IsAt(a, i, p) && NullLike(a[i].val);
      assert IsAt(a + b, i, p) && (a + b)[i] == a[i];
    } else if g.Some? && NullLike(g.value) {
      var j :| IsAt(b, j, p) && NullLike(b[j].val);
      assert IsAt(a + b, |a| + j, p) && (a + b)[|a| + j] == b[j];
    }
    assert f.Some? ==> exists i :: IsAt(a + b, i, p) by {
      if f.Some? { var i :| IsAt(a, i, p); assert IsAt(a + b, i, p); }
    }
    assert g.Some? ==> exists i :: IsAt(a + b, i, p) by {
      if g.Some? { var j :| IsAt(b, j, p); assert IsAt(a + b, |a| + j, p); }
    }
  }

  /** Where both lists have a condition, none of them is null-like. */
  lemma {:induction false} BothPlain(a: seq<Leaf>, b: seq<Leaf>, p: Path, i: int, j: int)
    requires NoNullOverlap(a + b) && IsAt(a, i, p) && IsAt(b, j, p)
    ensures forall k :: IsAt(a, k, p) ==> !NullLike(a[k].val)
    ensures forall k :: IsAt(b, k, p) ==> !NullLike(b[k].val)
  {
    AtConcat(a, b, p);
    assert IsAt(a + b, i, p) && IsAt(a + b, |a| + j, p);
    forall k | IsAt(a, k, p) ensures !NullLike(a[k].val) {
      assert IsAt(a + b, k, p) && (a + b)[k] == a[k];
    }
    forall k | IsAt(b, k, p) ensures !NullLike(b[k].val) {
      assert IsAt(a + b, |a| + k, p) && (a + b)[|a| + k] == b[k];
    }
  }

  lemma {:induction false} OverlapOfPart(a: seq<Leaf>, b: seq<Leaf>)
    requires NoNullOverlap(a + b)
    ensures NoNullOverlap(a) && NoNullOverlap(b)
  {
    forall i, j, p | i != j && IsAt(a, i, p) && IsAt(a, j, p) ensures !NullLike(a[i].val) {
      assert IsAt(a + b, i, p) && IsAt(a + b, j, p);
    }
    forall i, j, p | i != j && IsAt(b, i, p) && IsAt(b, j, p) ensures !NullLike(b[i].val) {
      assert IsAt(a + b, |a| + i, p) && IsAt(a + b, |a| + j, p);
      assert (a + b)[|a| + i] == b[i];
    }
  }

  lemma {:induction false} SumsOne(s: Schema, e: string, holds: Holds, leaf: Leaf, p: Path, cell: Cell)
    requires GoodLeaf(s, e, leaf)
    ensures Sums(holds, [leaf], p, cell, LeafVal(leaf, p))
  {
    assert IsAt([leaf], 0, p) <==> leaf.At? && leaf.path == p;
  }

  lemma {:induction false} FoldSums(s: Schema, e: string, holds: Holds, leaves: seq<Leaf>, p: Path, cell: Cell)
    requires Good(s, e, leaves) && NoNullOverlap(leaves)
    ensures Sums(holds, leaves, p, cell, FoldAt(leaves, p))
  {
    if leaves != [] {
      var n := |leaves| - 1;
      var a, b := leaves[..n], [leaves[n]];
      assert leaves == a + b;
      OverlapOfPart(a, b);
      FoldSums(s, e, holds, a, p, cell);
      SumsOne(s, e, holds, leaves[n], p, cell);
      SumsMerge(holds, a, b, p, cell, FoldAt(a, p), LeafVal(leaves[n], p));
    }
  }

  // ---------------------------------------------------------------- the conjunctive part

  lemma {:induction false} AndLeaf(
    s: Schema, e: string, search: Where, filter: Where, a: seq<Leaf>, b: seq<Leaf>, p: Path)
    requires Separated(s) && Compiled(s, e, search, a) && Compiled(s, e, filter, b)
    ensures Kinded(s, e, AndPart(search, filter)) && Defined(AndPart(search, filter))
    ensures var f := MergedLeaf(FoldAt(a, p), FoldAt(b, p));
            LeafAt(AndPart(search, filter), p) == if f.Some? then Some(Normal(f.value)) else None
  {
    MergeLeaves(s, e, search, filter, p);
    TransformKinded(s, e, DeepMerge(search, filter));
    TransformLeaf(DeepMerge(search, filter), p);
  }

  lemma {:induction false} HoldByPath(s: Schema, e: string, holds: Holds, leaves: seq<Leaf>, row: Row)
    requires Good(s, e, leaves)
    ensures AllHold(holds, leaves, row) <==> forall p: Path :: p != [] ==> AllAt(holds, leaves, p, CellAt(row, p))
  {
    if AllHold(holds, leaves, row) {
      forall p: Path | p != [] ensures AllAt(holds, leaves, p, CellAt(row, p)) {
        forall i | IsAt(leaves, i, p) ensures MeetsVal(holds, Normal(leaves[i].val), CellAt(row, p)) {
          assert LeafHolds(holds, leaves[i], row);
        }
      }
    } else {
      var i :| 0 <= i < |leaves| && !LeafHolds(holds, leaves[i], row);
      var p := leaves[i].path;
      assert p != [] && IsAt(leaves, i, p) && !MeetsVal(holds, Normal(leaves[i].val), CellAt(row, p));
      assert !AllAt(holds, leaves, p, CellAt(row, p));
    }
  }

  // ---------------------------------------------------------------- empty operator objects

  /** The conditions without the empty operator objects, which any other condition replaces. */
  ghost function Strip(leaves: seq<Leaf>): seq<Leaf> {
    seq(|leaves|, i requires 0 <= i < |leaves| =>
      if leaves[i].At? && leaves[i].val.Undef? then Nothing else leaves[i])
  }

  ghost predicate HasUndef(leaves: seq<Leaf>, p: Path) {
    exists i :: IsAt(leaves, i, p) && leaves[i].val.Undef?
  }

  /** An empty operator object is the first condition on its path: only `s` has them, once per path. */
  ghost predicate UndefFirst(leaves: seq<Leaf>) {
    forall i, j, p :: i < j && IsAt(leaves, i, p) && IsAt(leaves, j, p) ==> !leaves[j].val.Undef?
  }

  lemma {:induction false} StripAt(leaves: seq<Leaf>, p: Path)
    ensures |Strip(leaves)| == |leaves| && NoUndef(Strip(leaves))
    ensures forall i :: IsAt(Strip(leaves), i, p) <==> IsAt(leaves, i, p) && !leaves[i].val.Undef?
    ensures forall i :: IsAt(Strip(leaves), i, p) ==> Strip(leaves)[i] == leaves[i]
  {
  }

  lemma {:induction false} StripGood(s: Schema, e: string, leaves: seq<Leaf>)
    requires Good(s, e, leaves)
    ensures Good(s, e, Strip(leaves))
  {
  }

  lemma {:induction false} StripConcat(a: seq<Leaf>, b: seq<Leaf>)
    requires NoUndef(b)
    ensures Strip(a + b) == Strip(a) + b
  {
    assert forall i :: 0 <= i < |b| ==> (a + b)[|a| + i] == b[i];
  }

  lemma {:induction false} UndefConcat(a: seq<Leaf>, b: seq<Leaf>, p: Path)
    requires NoUndef(b)
    ensures HasUndef(a + b, p) <==> HasUndef(a, p)
  {
    AtConcat(a, b, p);
    if i :| IsAt(a, i, p) && a[i].val.Undef? { assert IsAt(a + b, i, p); }
    if i :| IsAt(a + b, i, p) && (a + b)[i].val.Undef? {
      assert i < |a| && IsAt(a, i, p);
    }
  }

  /** What the fold leaves at a path with an empty operator object on it. */
  ghost function OrUndef(f: Option<Val>, undef: bool): Option<Val> {
    if f.Some? then f else if undef then Some(Undef) else None
  }

  lemma {:induction false} UndefNext(leaves: seq<Leaf>, n: nat, p: Path)
    requires |leaves| == n + 1
    ensures HasUndef(leaves, p) <==> HasUndef(leaves[..n], p) || LeafVal(leaves[n], p) == Some(Undef)
  {
    var before := leaves[..n];
    assert forall i :: IsAt(before, i, p) ==> IsAt(leaves, i, p);
    assert forall i :: IsAt(leaves, i, p) && i != n ==> IsAt(before, i, p);
    assert LeafVal(leaves[n], p).Some? <==> IsAt(leaves, n, p);
  }

  lemma {:induction false} StripFold(s: Schema, e: string, leaves: seq<Leaf>, p: Path)
    requires Good(s, e, leaves) && UndefFirst(leaves)
    ensures FoldAt(leaves, p) == OrUndef(FoldAt(Strip(leaves), p), HasUndef(leaves, p))
  {
    if leaves != [] {
      var n := |leaves| - 1;
      var before := leaves[..n];
      assert forall i, q :: IsAt(before, i, q) ==> IsAt(leaves, i, q) && before[i] == leaves[i];
      StripFold(s, e, before, p);
      assert Strip(leaves)[..n] == Strip(before);
      UndefNext(leaves, n, p);
      FoldIsDefined(s, e, Strip(before), p);
      if LeafVal(leaves[n], p) == Some(Undef) {
        assert IsAt(leaves, n, p);
        assert forall i :: !IsAt(before, i, p);
        FoldSome(before, p);
      }
    }
  }

  lemma {:induction false} FoldIsDefined(s: Schema, e: string, leaves: seq<Leaf>, p: Path)
    requires Good(s, e, leaves) && NoUndef(leaves)
    ensures FoldAt(leaves, p) != Some(Undef)
  {
    if leaves != [] {
      FoldIsDefined(s, e, leaves[..|leaves| - 1], p);
    }
  }

  lemma {:induction false} FoldSome(leaves: seq<Leaf>, p: Path)
    ensures FoldAt(leaves, p).Some? <==> exists i :: IsAt(leaves, i, p)
  {
    if leaves != [] {
      var n := |leaves| - 1;
      var before := leaves[..n];
      FoldSome(before, p);
      assert LeafVal(leaves[n], p).Some? <==> IsAt(leaves, n, p);
      assert forall i :: IsAt(before, i, p) ==> IsAt(leaves, i, p);
      assert forall i :: IsAt(leaves, i, p) ==> i == n || IsAt(before, i, p);
    }
  }

  // ---------------------------------------------------------------- when the conjunctive part is faithful

  /** The operator holds only of NULL, whatever its other tests are. */
  ghost predicate MentionsNull(op: Operator) {
    match op
    case Single(t) => t.IsNull?
    case And(ops) => exists i :: 0 <= i < |ops| && MentionsNull(ops[i])
  }

  ghost predicate DemandsNull(v: Val) {
    Normal(v).Op? && MentionsNull(Normal(v).operator)
  }

  ghost predicate SomeAt(leaves: seq<Leaf>, p: Path) {
    exists i :: IsAt(leaves, i, p)
  }

  ghost predicate SomeDemands(leaves: seq<Leaf>, p: Path) {
    exists i :: IsAt(leaves, i, p) && DemandsNull(leaves[i].val)
  }

  /** Where other conditions replace an empty operator object, one of them asks for NULL as well. */
  ghost predicate UndefBacked(leaves: seq<Leaf>) {
    forall p :: HasUndef(leaves, p) && SomeAt(Strip(leaves), p) ==> SomeDemands(Strip(leaves), p)
  }

  /** No condition loses its meaning by standing beside another. */
  ghost predicate Harmless(leaves: seq<Leaf>) {
    NoNullOverlap(Strip(leaves)) && UndefBacked(leaves)
  }

  /** The conditions of `s` and of the filters, as they come. */
  ghost predicate FromQuery(s: Schema, e: string, a: seq<Leaf>, b: seq<Leaf>) {
    Good(s, e, a) && Good(s, e, b) && UndefFirst(a) && NoUndef(b)
  }

  lemma {:induction false} MentionedHolds(holds: Holds, op: Operator, cell: Cell)
    requires MentionsNull(op) && Meets(holds, op, cell)
    ensures holds(IsNull, cell)
  {
    match op
    case Single(_) =>
    case And(ops) =>
      var i :| 0 <= i < |ops| && MentionsNull(ops[i]);
      MentionedHolds(holds, ops[i], cell);
  }

  /** The leaf of the conjunctive part: what the other conditions leave, or the empty object. */
  lemma {:induction false} AndLeafStripped(
    s: Schema, e: string, search: Where, filter: Where, a: seq<Leaf>, b: seq<Leaf>, p: Path)
    requires Separated(s) && Compiled(s, e, search, a) && Compiled(s, e, filter, b) && FromQuery(s, e, a, b)
    ensures var f := OrUndef(MergedLeaf(FoldAt(Strip(a), p), FoldAt(b, p)), HasUndef(a, p));
            LeafAt(AndPart(search, filter), p) == if f.Some? then Some(Normal(f.value)) else None
  {
    AndLeaf(s, e, search, filter, a, b, p);
    StripFold(s, e, a, p);
    StripGood(s, e, a);
    StripAt(a, p);
    FoldIsDefined(s, e, Strip(a), p);
  }

  /** All conditions at a path: the others, and NULL for an empty object. */
  lemma {:induction false} AllAtStripped(holds: Holds, a: seq<Leaf>, b: seq<Leaf>, p: Path, cell: Cell)
    requires NoUndef(b)
    ensures AllAt(holds, a + b, p, cell) <==>
            AllAt(holds, Strip(a) + b, p, cell) && (HasUndef(a, p) ==> holds(IsNull, cell))
  {
    var all, others := a + b, Strip(a) + b;
    StripConcat(a, b);
    StripAt(all, p);
    UndefConcat(a, b, p);
    assert forall i :: IsAt(all, i, p) && all[i].val.Undef? ==>
             (MeetsVal(holds, Normal(all[i].val), cell) <==> holds(IsNull, cell));
  }

  lemma {:induction false} StrippedSums(
    s: Schema, e: string, holds: Holds, a: seq<Leaf>, b: seq<Leaf>, p: Path, cell: Cell)
    requires FromQuery(s, e, a, b) && NoNullOverlap(Strip(a + b))
    ensures Sums(holds, Strip(a) + b, p, cell, MergedLeaf(FoldAt(Strip(a), p), FoldAt(b, p)))
  {
    StripConcat(a, b);
    StripGood(s, e, a);
    OverlapOfPart(Strip(a), b);
    FoldSums(s, e, holds, Strip(a), p, cell);
    FoldSums(s, e, holds, b, p, cell);
    SumsMerge(holds, Strip(a), b, p, cell, FoldAt(Strip(a), p), FoldAt(b, p));
  }

  lemma {:induction false} PathMeans(
    s: Schema, e: string, holds: Holds, search: Where, filter: Where, a: seq<Leaf>, b: seq<Leaf>, p: Path, cell: Cell)
    requires Separated(s) && Compiled(s, e, search, a) && Compiled(s, e, filter, b) && FromQuery(s, e, a, b)
    requires Harmless(a + b)
    ensures LeafMeets(holds, LeafAt(AndPart(search, filter), p), cell) <==> AllAt(holds, a + b, p, cell)
  {
    AndLeafStripped(s, e, search, filter, a, b, p);
    StrippedSums(s, e, holds, a, b, p, cell);
    AllAtStripped(holds, a, b, p, cell);
    StripConcat(a, b);
    UndefConcat(a, b, p);
    var others := Strip(a) + b;
    if HasUndef(a, p) && SomeAt(others, p) && AllAt(holds, others, p, cell) {
      var i :| IsAt(others, i, p) && DemandsNull(others[i].val);
      MentionedHolds(holds, Normal(others[i].val).operator, cell);
    }
  }

  /** Where no condition loses its meaning, the conjunctive part selects what every condition selects. */
  lemma {:induction false} AndMeans(
    s: Schema, e: string, holds: Holds, search: Where, filter: Where, a: seq<Leaf>, b: seq<Leaf>, row: Row)
    requires Separated(s) && Compiled(s, e, search, a) && Compiled(s, e, filter, b) && FromQuery(s, e, a, b)
    requires Harmless(a + b)
    ensures Denotes(holds, AndPart(search, filter), row) <==> AllHold(holds, a + b, row)
  {
    var w := AndPart(search, filter);
    forall p: Path | p != []
      ensures LeafMeets(holds, LeafAt(w, p), CellAt(row, p)) <==> AllAt(holds, a + b, p, CellAt(row, p))
    {
      PathMeans(s, e, holds, search, filter, a, b, p, CellAt(row, p));
    }
    MeaningIsLeaves(holds, w, row);
    HoldByPath(s, e, holds, a + b, row);
  }

  // ---------------------------------------------------------------- the overlap really matters

  /** The raw reading of a fold: null-like values as plain equality, and several values as an operator. */
  ghost predicate RawSums(holds: Holds, leaves: seq<Leaf>, p: Path, cell: Cell, f: Option<Val>) {
    && (f.Some? ==> !f.value.Obj? && !f.value.Undef?)
    && (f.None? ==> forall i :: !IsAt(leaves, i, p))
    && (f.Some? && MeetsVal(holds, f.value, cell) ==>
          forall i :: IsAt(leaves, i, p) ==> MeetsVal(holds, leaves[i].val, cell))
    && (forall i, j :: i != j && IsAt(leaves, i, p) && IsAt(leaves, j, p) ==> f.Some? && f.value.Op?)
  }

  lemma {:induction false} RawSumsMerge(
    holds: Holds, a: seq<Leaf>, b: seq<Leaf>, p: Path, cell: Cell, f: Option<Val>, g: Option<Val>)
    requires RawSums(holds, a, p, cell, f) && RawSums(holds, b, p, cell, g)
    ensures RawSums(holds, a + b, p, cell, MergedLeaf(f, g))
  {
    AtConcat(a, b, p);
    MergedLeafMeans(holds, f, g, cell);
    forall i, j | i != j && IsAt(a + b, i, p) && IsAt(a + b, j, p)
      ensures MergedLeaf(f, g).Some? && MergedLeaf(f, g).value.Op?
    {
    }
  }

  lemma {:induction false} FoldRawSums(s: Schema, e: string, holds: Holds, leaves: seq<Leaf>, p: Path, cell: Cell)
    requires Good(s, e, leaves) && NoUndef(leaves)
    ensures RawSums(holds, leaves, p, cell, FoldAt(leaves, p))
  {
    if leaves != [] {
      var n := |leaves| - 1;
      var a, b := leaves[..n], [leaves[n]];
      assert leaves == a + b;
      FoldRawSums(s, e, holds, a, p, cell);
      assert RawSums(holds, b, p, cell, LeafVal(leaves[n], p));
      RawSumsMerge(holds, a, b, p, cell, FoldAt(a, p), LeafVal(leaves[n], p));
    }
  }

  /** Two conditions on one path, one of them a null-like value. */
  ghost predicate Overlap(leaves: seq<Leaf>, i: int, j: int, p: Path) {
    && i != j && IsAt(leaves, i, p) && IsAt(leaves, j, p)
    && !leaves[i].val.Undef? && !leaves[j].val.Undef? && NullLike(leaves[i].val)
  }

  /** At an overlap, the compiled tree compares the null-like value literally. */
  lemma {:induction false} OverlapIsLiteral(
    s: Schema, e: string, holds: Holds, search: Where, filter: Where, a: seq<Leaf>, b: seq<Leaf>,
    i: int, j: int, p: Path, row: Row)
    requires Separated(s) && Compiled(s, e, search, a) && Compiled(s, e, filter, b) && FromQuery(s, e, a, b)
    requires Overlap(a + b, i, j, p) && Denotes(holds, AndPart(search, filter), row)
    ensures p != [] && (a + b)[i].val.Raw? && holds(Equals((a + b)[i].val.value), CellAt(row, p))
  {
    StripGood(s, e, a);
    StripConcat(a, b);
    StripAt(a, p);
    StripAt(a + b, p);
    AtConcat(a, b, p);
    assert p != [];
    var cell := CellAt(row, p);
    FoldRawSums(s, e, holds, Strip(a), p, cell);
    FoldRawSums(s, e, holds, b, p, cell);
    RawSumsMerge(holds, Strip(a), b, p, cell, FoldAt(Strip(a), p), FoldAt(b, p));
    AndLeafStripped(s, e, search, filter, a, b, p);
    DenotesLeaf(holds, AndPart(search, filter), row, p);
    assert IsAt(Strip(a + b), i, p) && IsAt(Strip(a + b), j, p);
  }

  /** Reads every test as true except equality with `v`. */
  ghost function AllBut(v: Value): Holds {
    (t: Test, c: Cell) => t != Equals(v)
  }

  lemma {:induction false} EqualsFreeMeets(v: Value, op: Operator, cell: Cell)
    requires EqualsFree(op)
    ensures Meets(AllBut(v), op, cell)
  {
    match op
    case Single(_) =>
    case And(ops) =>
      forall i | 0 <= i < |ops| ensures Meets(AllBut(v), ops[i], cell) {
        EqualsFreeMeets(v, ops[i], cell);
      }
  }

  lemma {:induction false} AllButHolds(s: Schema, e: string, leaves: seq<Leaf>, v: Value, row: Row)
    requires Good(s, e, leaves) && NullLike(Raw(v))
    ensures AllHold(AllBut(v), leaves, row)
  {
    forall i | 0 <= i < |leaves| && leaves[i].At? ensures LeafHolds(AllBut(v), leaves[i], row) {
      if leaves[i].val.Op? {
        EqualsFreeMeets(v, leaves[i].val.operator, CellAt(row, leaves[i].path));
      }
    }
  }

  /** An overlap makes the compiled tree reject a row that satisfies every condition. */
  lemma {:induction false} OverlapBreaks(
    s: Schema, e: string, search: Where, filter: Where, a: seq<Leaf>, b: seq<Leaf>, i: int, j: int, p: Path, row: Row)
    requires Separated(s) && Compiled(s, e, search, a) && Compiled(s, e, filter, b) && FromQuery(s, e, a, b)
    requires Overlap(a + b, i, j, p)
    ensures (a + b)[i].val.Raw?
    ensures var holds := AllBut((a + b)[i].val.value);
            AllHold(holds, a + b, row) && !Denotes(holds, AndPart(search, filter), row)
  {
    var v := (a + b)[i].val.value;
    GoodConcat(s, e, a, b);
    AllButHolds(s, e, a + b, v, row);
    if Denotes(AllBut(v), AndPart(search, filter), row) {
      OverlapIsLiteral(s, e, AllBut(v), search, filter, a, b, i, j, p, row);
    }
  }

  lemma {:induction false} GoodConcat(s: Schema, e: string, a: seq<Leaf>, b: seq<Leaf>)
    requires Good(s, e, a) && Good(s, e, b)
    ensures Good(s, e, a + b)
  {
  }

  /** Nothing equals NULL, and exactly NULL is null. */
  ghost predicate OrdinaryNull(holds: Holds) {
    (forall c :: holds(IsNull, c) <==> c.None?) && forall v :: !holds(Equals(v), None)
  }

  /** With the ordinary reading of NULL, an overlap loses every row: what the tree selects and what
      the conditions ask for have nothing in common. */
  lemma {:induction false} OverlapLosesAll(
    s: Schema, e: string, holds: Holds, search: Where, filter: Where, a: seq<Leaf>, b: seq<Leaf>,
    i: int, j: int, p: Path, row: Row)
    requires Separated(s) && Compiled(s, e, search, a) && Compiled(s, e, filter, b) && FromQuery(s, e, a, b)
    requires OrdinaryNull(holds) && Overlap(a + b, i, j, p) && AllHold(holds, a + b, row)
    ensures !Denotes(holds, AndPart(search, filter), row)
  {
    assert LeafHolds(holds, (a + b)[i], row);
    if Denotes(holds, AndPart(search, filter), row) {
      OverlapIsLiteral(s, e, holds, search, filter, a, b, i, j, p, row);
    }
  }

  /** `""` in `s` beside `$isnull` in a filter: both ask for NULL, and a row with NULL is not selected. */
  lemma {:induction false} EmptyBesideIsNull(
    s: Schema, e: string, holds: Holds, search: Where, filter: Where, c: string, row: Row)
    requires Separated(s) && e in s && c in s[e].columns && c !in s[e].jsonColumns
    requires Compiled(s, e, search, SearchLeaves(s, e, [SearchCond([c], Plain(Text("")))]))
    requires Compiled(s, e, filter, FilterLeaves(s, e, [FilterCond([c], FilterStrings.IsNull, "")]))
    requires OrdinaryNull(holds) && CellOf(row, c).None?
    ensures AllHold(holds, [At([c], Raw(Text(""))), At([c], Op(Single(IsNull)))], row)
    ensures !Denotes(holds, AndPart(search, filter), row)
  {
    var a, b := [At([c], Raw(Text("")))], [At([c], Op(Single(IsNull)))];
    var all := [At([c], Raw(Text(""))), At([c], Op(Single(IsNull)))];
    assert SearchLeaves(s, e, [SearchCond([c], Plain(Text("")))]) == a;
    assert Lower("") == "";
    assert FilterLeaves(s, e, [FilterCond([c], FilterStrings.IsNull, "")]) == b;
    assert a + b == all;
    assert IsAt(all, 0, [c]) && IsAt(all, 1, [c]);
    assert CellAt(row, [c]) == CellOf(row, c);
    OverlapLosesAll(s, e, holds, search, filter, a, b, 0, 1, [c], row);
  }

  // ---------------------------------------------------------------- an empty object that is replaced

  /** Exactly NULL is null, and every other test holds. */
  ghost function NullOnly(): Holds {
    (t: Test, c: Cell) => t.IsNull? ==> c.None?
  }

  /** A row with a value at one path only. */
  ghost function RowAt(p: Path): Row
    requires p != []
    decreases |p|
  {
    if |p| == 1 then Row(map[p[0] := 0], map[]) else Row(map[], map[p[0] := RowAt(p[1..])])
  }

  lemma {:induction false} CellOfNoRow(p: Path)
    requires p != []
    ensures CellAt(NoRow, p) == None
    decreases |p|
  {
    if |p| > 1 { CellOfNoRow(p[1..]); }
  }

  lemma {:induction false} CellOfBareRow(cells: map<string, int>, p: Path)
    requires |p| > 1
    ensures CellAt(Row(cells, map[]), p) == None
  {
    CellOfNoRow(p[1..]);
  }

  lemma {:induction false} OnlyCell(p: Path, q: Path)
    requires p != [] && q != []
    ensures CellAt(RowAt(p), q).Some? <==> q == p
    decreases |p|
  {
    assert p == [p[0]] + p[1..] && q == [q[0]] + q[1..];
    if |q| > 1 {
      if |p| > 1 && q[0] == p[0] {
        OnlyCell(p[1..], q[1..]);
      } else if |p| == 1 {
        CellOfBareRow(map[p[0] := 0], q);
      } else {
        CellOfNoRow(q[1..]);
      }
    }
  }

  lemma {:induction false} UnmentionedMeets(op: Operator, cell: Cell)
    requires cell.None? || !MentionsNull(op)
    ensures Meets(NullOnly(), op, cell)
  {
    match op
    case Single(_) =>
    case And(ops) =>
      forall i | 0 <= i < |ops| ensures Meets(NullOnly(), ops[i], cell) {
        UnmentionedMeets(ops[i], cell);
      }
  }

  lemma {:induction false} UndemandedMeets(v: Val, cell: Cell)
    requires cell.None? || !DemandsNull(v)
    ensures MeetsVal(NullOnly(), Normal(v), cell)
  {
    if Normal(v).Op? {
      UnmentionedMeets(Normal(v).operator, cell);
    }
  }

  /** An empty object replaced by conditions none of which asks for NULL: the tree selects a row whose
      cell is not NULL. */
  lemma {:induction false} UnbackedBreaks(
    s: Schema, e: string, search: Where, filter: Where, a: seq<Leaf>, b: seq<Leaf>, p: Path)
    requires Separated(s) && Compiled(s, e, search, a) && Compiled(s, e, filter, b) && FromQuery(s, e, a, b)
    requires NoNullOverlap(Strip(a + b))
    requires HasUndef(a + b, p) && SomeAt(Strip(a + b), p) && !SomeDemands(Strip(a + b), p)
    ensures p != []
    ensures !AllHold(NullOnly(), a + b, RowAt(p)) && Denotes(NullOnly(), AndPart(search, filter), RowAt(p))
  {
    GoodConcat(s, e, a, b);
    var i :| IsAt(a + b, i, p) && (a + b)[i].val.Undef?;
    assert p != [];
    var row := RowAt(p);
    OnlyCell(p, p);
    assert !LeafHolds(NullOnly(), (a + b)[i], row);
    forall q: Path | q != []
      ensures LeafMeets(NullOnly(), LeafAt(AndPart(search, filter), q), CellAt(row, q))
    {
      OnlyCell(p, q);
      if q == p {
        UnbackedLeaf(s, e, search, filter, a, b, p, CellAt(row, p));
      } else {
        LeafIsNotObj(AndPart(search, filter), q);
        AnyMeetsNull(LeafAt(AndPart(search, filter), q));
      }
    }
    MeaningIsLeaves(NullOnly(), AndPart(search, filter), row);
  }

  lemma {:induction false} AnyMeetsNull(f: Option<Val>)
    ensures LeafMeets(NullOnly(), f, None)
  {
    if f.Some? && f.value.Op? {
      UnmentionedMeets(f.value.operator, None);
    }
  }

  lemma {:induction false} UnbackedLeaf(
    s: Schema, e: string, search: Where, filter: Where, a: seq<Leaf>, b: seq<Leaf>, p: Path, cell: Cell)
    requires Separated(s) && Compiled(s, e, search, a) && Compiled(s, e, filter, b) && FromQuery(s, e, a, b)
    requires NoNullOverlap(Strip(a + b)) && SomeAt(Strip(a + b), p) && !SomeDemands(Strip(a + b), p)
    ensures LeafMeets(NullOnly(), LeafAt(AndPart(search, filter), p), cell)
  {
    StripConcat(a, b);
    AndLeafStripped(s, e, search, filter, a, b, p);
    StrippedSums(s, e, NullOnly(), a, b, p, cell);
    var others := Strip(a) + b;
    forall i | IsAt(others, i, p) ensures MeetsVal(NullOnly(), Normal(others[i].val), cell) {
      UndemandedMeets(others[i].val, cell);
    }
  }

  ghost predicate AndIsFaithful(search: Where, filter: Where, leaves: seq<Leaf>) {
    forall holds: Holds, row: Row :: Denotes(holds, AndPart(search, filter), row) <==> AllHold(holds, leaves, row)
  }

  /** The conjunctive part is faithful for every operator semantics and every row exactly when no
      condition loses its meaning by standing beside another: no null-like value has company on its
      path, and an empty operator object only company that asks for NULL itself. */
  lemma {:induction false} AndIsFaithfulIff(
    s: Schema, e: string, search: Where, filter: Where, a: seq<Leaf>, b: seq<Leaf>)
    requires Separated(s) && Compiled(s, e, search, a) && Compiled(s, e, filter, b) && FromQuery(s, e, a, b)
    ensures AndIsFaithful(search, filter, a + b) <==> Harmless(a + b)
  {
    if Harmless(a + b) {
      forall holds: Holds, row: Row
        ensures Denotes(holds, AndPart(search, filter), row) <==> AllHold(holds, a + b, row)
      {
        AndMeans(s, e, holds, search, filter, a, b, row);
      }
    } else if !NoNullOverlap(Strip(a + b)) {
      var i, j, p :| i != j && IsAt(Strip(a + b), i, p) && IsAt(Strip(a + b), j, p) && NullLike(Strip(a + b)[i].val);
      StripAt(a + b, p);
      OverlapBreaks(s, e, search, filter, a, b, i, j, p, NoRow);
    } else {
      var p :| HasUndef(a + b, p) && SomeAt(Strip(a + b), p) && !SomeDemands(Strip(a + b), p);
      UnbackedBreaks(s, e, search, filter, a, b, p);
    }
  }

  /** The conditions of a query are as `FromQuery` says. */
  lemma {:induction false} QueryLeaves(s: Schema, e: string, q: Query)
    requires Separated(s) && e in s && DistinctPaths(q.search)
    ensures FromQuery(s, e, SearchLeaves(s, e, q.search), FilterLeaves(s, e, q.filters))
  {
    LeavesGood(s, e, q);
    var a, b := SearchLeaves(s, e, q.search), FilterLeaves(s, e, q.filters);
    forall i, j, p | i < j && IsAt(a, i, p) && IsAt(a, j, p) ensures !a[j].val.Undef? {
      assert a[i] == SearchLeaf(s, e, q.search[i]) && a[j] == SearchLeaf(s, e, q.search[j]);
    }
    forall i | 0 <= i < |b| && b[i].At? ensures !b[i].val.Undef? {
      assert b[i] == FilterLeaf(s, e, q.filters[i]);
      LeavesAreGood(s, e, SearchCond([], Plain(Junk)), q.filters[i]);
    }
  }

  // ---------------------------------------------------------------- the whole clause

  ghost predicate ClauseHolds(holds: Holds, c: Clause, row: Row) {
    match c
    case One(w) => Denotes(holds, w, row)
    case Any(ws) => exists i :: 0 <= i < |ws| && Denotes(holds, ws[i], row)
  }

  /** An alternative means its condition; one on a bare JSON column is always true. */
  lemma {:induction false} OrBranchMeans(s: Schema, e: string, holds: Holds, leaf: Leaf, row: Row)
    requires Separated(s) && e in s && GoodLeaf(s, e, leaf)
    ensures Kinded(s, e, OrBranch(leaf)) && Defined(OrBranch(leaf))
    ensures Denotes(holds, OrBranch(leaf), row) <==> LeafHolds(holds, leaf, row)
  {
    var u, w := SingleCondition(leaf), OrBranch(leaf);
    SingleLeaf(s, e, leaf, []);
    TransformKinded(s, e, u);
    forall p: Path ensures LeafAt(w, p) == if leaf.At? && leaf.path == p then Some(Normal(leaf.val)) else None {
      SingleLeaf(s, e, leaf, p);
      TransformLeaf(u, p);
    }
    MeaningIsLeaves(holds, w, row);
    if leaf.At? && LeavesMeet(holds, w, row) {
      assert LeafMeets(holds, LeafAt(w, leaf.path), CellAt(row, leaf.path));
    }
  }

  /** One branch of the combined clause: the conjunctive part and, if any, one alternative. */
  ghost function Branch(and_: Where, ors: seq<Where>, i: nat): Where
    requires ors != [] ==> i < |ors|
  {
    if ors == [] then and_ else if and_.m == map[] then ors[i] else DeepMerge(and_, ors[i])
  }

  lemma {:induction false} BranchMeans(
    s: Schema, e: string, holds: Holds, and_: Where, ors: seq<Where>, i: nat, row: Row)
    requires Separated(s) && Kinded(s, e, and_) && (ors != [] ==> i < |ors| && Kinded(s, e, ors[i]) && Defined(ors[i]))
    ensures Kinded(s, e, Branch(and_, ors, i))
    ensures Denotes(holds, Branch(and_, ors, i), row) <==>
            Denotes(holds, and_, row) && (ors == [] || Denotes(holds, ors[i], row))
  {
    if ors != [] {
      MergeIsConjunction(s, e, holds, and_, ors[i], row);
    }
  }

  /** The soft-delete guard under a condition that keeps its own keys. */
  ghost predicate GuardHolds(holds: Holds, names: set<string>, row: Row) {
    && (IS_DELETED !in names ==> holds(Equals(FALSE), CellOf(row, IS_DELETED)))
    && (DELETED_AT !in names ==> holds(IsNull, CellOf(row, DELETED_AT)))
  }

  lemma {:induction false} GuardMeans(holds: Holds, w: Where, row: Row)
    ensures Denotes(holds, Guarded(w), row) <==> Denotes(holds, w, row) && GuardHolds(holds, w.m.Keys, row)
  {
    var g := Guarded(w);
    assert forall k :: k in w.m ==> k in g.m && g.m[k] == w.m[k];
    assert IS_DELETED != DELETED_AT;
    if Denotes(holds, g, row) {
      assert IS_DELETED in g.m && DELETED_AT in g.m;
    }
  }

  /** Excluded ids are excluded from every branch. */
  lemma {:induction false} ExclusionMeans(
    s: Schema, e: string, holds: Holds, w: Where, key: string, ids: seq<string>, row: Row)
    requires Separated(s) && Kinded(s, e, w) && key in s[e].columns
    ensures var u := DeepMerge(w, Exclusion(key, ids));
            && (Denotes(holds, u, row) <==> Denotes(holds, w, row) && holds(NotIn(ids), CellOf(row, key)))
            && u.m.Keys == w.m.Keys + {key}
  {
    var x := Exclusion(key, ids);
    assert Kinded(s, e, x);
    assert Defined(x);
    assert Denotes(holds, x, row) <==> MeetsVal(holds, x.m[key], CellOf(row, key));
    MergeIsConjunction(s, e, holds, w, x, row);
  }

  /** The exclusion and the guard, applied to one branch. */
  ghost function Finished(s: Schema, e: string, ids: seq<string>, w: Where): Where
    requires e in s
  {
    Guarded(if ids == [] || s[e].primaryColumns == [] then w else DeepMerge(w, Exclusion(s[e].primaryColumns[0], ids)))
  }

  ghost function ExtraNames(s: Schema, e: string, ids: seq<string>): set<string>
    requires e in s
  {
    if ids == [] || s[e].primaryColumns == [] then {} else {s[e].primaryColumns[0]}
  }

  ghost predicate NotExcluded(holds: Holds, s: Schema, e: string, ids: seq<string>, row: Row)
    requires e in s
  {
    ids == [] || s[e].primaryColumns == [] || holds(NotIn(ids), CellOf(row, s[e].primaryColumns[0]))
  }

  lemma {:induction false} FinishedMeans(s: Schema, e: string, holds: Holds, ids: seq<string>, w: Where, row: Row)
    requires Separated(s) && Kinded(s, e, w)
    ensures Denotes(holds, Finished(s, e, ids, w), row) <==>
            && Denotes(holds, w, row) && NotExcluded(holds, s, e, ids, row)
            && GuardHolds(holds, w.m.Keys + ExtraNames(s, e, ids), row)
  {
    if ids == [] || s[e].primaryColumns == [] {
      GuardMeans(holds, w, row);
      assert w.m.Keys + {} == w.m.Keys;
    } else {
      var key := s[e].primaryColumns[0];
      ExclusionMeans(s, e, holds, w, key, ids, row);
      GuardMeans(holds, DeepMerge(w, Exclusion(key, ids)), row);
    }
  }

  /** Columns that some condition of the list names at the top. */
  ghost predicate Names(leaves: seq<Leaf>, c: string) {
    exists i :: IsAt(leaves, i, [c])
  }

  // ---------------------------------------------------------------- which columns a branch names

  lemma {:induction false} ColumnKey(s: Schema, e: string, w: Where, c: string)
    requires Separated(s) && Kinded(s, e, w) && c in s[e].columns
    ensures c in w.m <==> LeafAt(w, [c]).Some?
  {
  }

  lemma {:induction false} AndNames(
    s: Schema, e: string, search: Where, filter: Where, a: seq<Leaf>, b: seq<Leaf>, c: string)
    requires Separated(s) && Compiled(s, e, search, a) && Compiled(s, e, filter, b) && c in s[e].columns
    ensures c in AndPart(search, filter).m <==> Names(a + b, c)
  {
    AndLeaf(s, e, search, filter, a, b, [c]);
    ColumnKey(s, e, AndPart(search, filter), c);
    FoldSome(a, [c]);
    FoldSome(b, [c]);
    AtConcat(a, b, [c]);
    if i :| IsAt(a, i, [c]) { assert IsAt(a + b, i, [c]); }
    if i :| IsAt(b, i, [c]) { assert IsAt(a + b, |a| + i, [c]); }
  }

  lemma {:induction false} OrNames(s: Schema, e: string, leaf: Leaf, c: string)
    requires Separated(s) && e in s && GoodLeaf(s, e, leaf) && c in s[e].columns
    ensures Kinded(s, e, OrBranch(leaf)) && Defined(OrBranch(leaf))
    ensures c in OrBranch(leaf).m <==> LeafVal(leaf, [c]).Some?
  {
    SingleLeaf(s, e, leaf, [c]);
    TransformKinded(s, e, SingleCondition(leaf));
    TransformLeaf(SingleCondition(leaf), [c]);
    ColumnKey(s, e, OrBranch(leaf), c);
  }

  lemma {:induction false} NamesMore(leaves: seq<Leaf>, leaf: Leaf, c: string)
    ensures Names(leaves + [leaf], c) <==> Names(leaves, c) || LeafVal(leaf, [c]).Some?
  {
    AtConcat(leaves, [leaf], [c]);
    if i :| IsAt(leaves, i, [c]) { assert IsAt(leaves + [leaf], i, [c]); }
    if LeafVal(leaf, [c]).Some? { assert IsAt(leaves + [leaf], |leaves|, [c]); }
  }

  /** Not soft-deleted, as far as neither the conditions nor the excluded key speak about it. */
  ghost predicate LiveUnlessNamed(holds: Holds, leaves: seq<Leaf>, extra: set<string>, row: Row) {
    && (!Names(leaves, IS_DELETED) && IS_DELETED !in extra ==> holds(Equals(FALSE), CellOf(row, IS_DELETED)))
    && (!Names(leaves, DELETED_AT) && DELETED_AT !in extra ==> holds(IsNull, CellOf(row, DELETED_AT)))
  }

  // ---------------------------------------------------------------- the theorem

  /** The conditions a row has to meet all of. */
  ghost function Ands(s: Schema, e: string, q: Query): seq<Leaf>
    requires e in s
  {
    SearchLeaves(s, e, q.search) + FilterLeaves(s, e, q.filters)
  }

  ghost predicate GuardColumns(s: Schema, e: string) {
    e in s && IS_DELETED in s[e].columns && DELETED_AT in s[e].columns
  }

  lemma {:induction false} LeavesGood(s: Schema, e: string, q: Query)
    requires Separated(s) && e in s
    ensures Good(s, e, SearchLeaves(s, e, q.search)) && Good(s, e, FilterLeaves(s, e, q.filters)) &&
            Good(s, e, FilterLeaves(s, e, q.ors))
  {
    var any := FilterCond([], FilterStrings.Eq, "");
    forall c: SearchCond ensures GoodLeaf(s, e, SearchLeaf(s, e, c)) { LeavesAreGood(s, e, c, any); }
    forall f: FilterCond ensures GoodLeaf(s, e, FilterLeaf(s, e, f)) {
      LeavesAreGood(s, e, SearchCond([], Plain(Junk)), f);
    }
  }

  /** The clause is the finished branches, one for each alternative. */
  lemma {:induction false} ClauseIsBranches(
    s: Schema, e: string, q: Query, search: Where, filter: Where, c: Clause)
    requires Separated(s) && e in s && CompiledFrom(s, e, q, search, filter, c)
    ensures var and_, ors := AndPart(search, filter), OrBranches(s, e, q.ors);
            if q.ors == [] then c == One(Finished(s, e, q.excludeIds, and_))
            else c.Any? && |c.ws| == |q.ors| && forall i :: 0 <= i < |q.ors| ==>
              c.ws[i] == Finished(s, e, q.excludeIds, Branch(and_, ors, i))
  {
  }

  lemma {:induction false} FinishedSelects(
    s: Schema, e: string, holds: Holds, ids: seq<string>, w: Where, leaves: seq<Leaf>, row: Row)
    requires Separated(s) && Kinded(s, e, w)
    requires (IS_DELETED in w.m <==> Names(leaves, IS_DELETED)) && (DELETED_AT in w.m <==> Names(leaves, DELETED_AT))
    ensures Denotes(holds, Finished(s, e, ids, w), row) <==>
            && Denotes(holds, w, row) && NotExcluded(holds, s, e, ids, row)
            && LiveUnlessNamed(holds, leaves, ExtraNames(s, e, ids), row)
  {
    FinishedMeans(s, e, holds, ids, w, row);
  }

  /** A query without alternatives. */
  lemma {:induction false} ConjunctionSelects(
    s: Schema, e: string, q: Query, holds: Holds, search: Where, filter: Where, row: Row)
    requires Separated(s) && GuardColumns(s, e)
    requires Compiled(s, e, search, SearchLeaves(s, e, q.search)) &&
             Compiled(s, e, filter, FilterLeaves(s, e, q.filters))
    requires DistinctPaths(q.search) && Harmless(Ands(s, e, q))
    ensures Denotes(holds, Finished(s, e, q.excludeIds, AndPart(search, filter)), row) <==>
            && AllHold(holds, Ands(s, e, q), row) && NotExcluded(holds, s, e, q.excludeIds, row)
            && LiveUnlessNamed(holds, Ands(s, e, q), ExtraNames(s, e, q.excludeIds), row)
  {
    var a, b := SearchLeaves(s, e, q.search), FilterLeaves(s, e, q.filters);
    QueryLeaves(s, e, q);
    AndMeans(s, e, holds, search, filter, a, b, row);
    AndLeaf(s, e, search, filter, a, b, []);
    AndNames(s, e, search, filter, a, b, IS_DELETED);
    AndNames(s, e, search, filter, a, b, DELETED_AT);
    FinishedSelects(s, e, holds, q.excludeIds, AndPart(search, filter), a + b, row);
  }

  lemma {:induction false} BranchNames(
    s: Schema, e: string, search: Where, filter: Where, a: seq<Leaf>, b: seq<Leaf>,
    ors: seq<Where>, i: nat, leaf: Leaf, c: string)
    requires Separated(s) && Compiled(s, e, search, a) && Compiled(s, e, filter, b) && c in s[e].columns
    requires i < |ors| && GoodLeaf(s, e, leaf) && ors[i] == OrBranch(leaf)
    ensures c in Branch(AndPart(search, filter), ors, i).m <==> Names(a + b + [leaf], c)
  {
    AndNames(s, e, search, filter, a, b, c);
    OrNames(s, e, leaf, c);
    NamesMore(a + b, leaf, c);
  }

  lemma {:induction false} BranchHolds(
    s: Schema, e: string, holds: Holds, search: Where, filter: Where, a: seq<Leaf>, b: seq<Leaf>,
    ors: seq<Where>, i: nat, leaf: Leaf, row: Row)
    requires Separated(s) && Compiled(s, e, search, a) && Compiled(s, e, filter, b)
    requires FromQuery(s, e, a, b) && Harmless(a + b)
    requires i < |ors| && GoodLeaf(s, e, leaf) && ors[i] == OrBranch(leaf)
    ensures Kinded(s, e, Branch(AndPart(search, filter), ors, i))
    ensures Denotes(holds, Branch(AndPart(search, filter), ors, i), row) <==>
            AllHold(holds, a + b, row) && LeafHolds(holds, leaf, row)
  {
    AndMeans(s, e, holds, search, filter, a, b, row);
    AndLeaf(s, e, search, filter, a, b, []);
    OrBranchMeans(s, e, holds, leaf, row);
    BranchMeans(s, e, holds, AndPart(search, filter), ors, i, row);
  }

  lemma {:induction false} BranchSelects(
    s: Schema, e: string, holds: Holds, search: Where, filter: Where, a: seq<Leaf>, b: seq<Leaf>,
    ors: seq<Where>, i: nat, leaf: Leaf, ids: seq<string>, row: Row)
    requires Separated(s) && GuardColumns(s, e) && Compiled(s, e, search, a) && Compiled(s, e, filter, b)
    requires FromQuery(s, e, a, b) && Harmless(a + b)
    requires i < |ors| && GoodLeaf(s, e, leaf) && ors[i] == OrBranch(leaf)
    ensures Denotes(holds, Finished(s, e, ids, Branch(AndPart(search, filter), ors, i)), row) <==>
            && AllHold(holds, a + b, row) && NotExcluded(holds, s, e, ids, row)
            && LeafHolds(holds, leaf, row) && LiveUnlessNamed(holds, a + b + [leaf], ExtraNames(s, e, ids), row)
  {
    var w := Branch(AndPart(search, filter), ors, i);
    BranchHolds(s, e, holds, search, filter, a, b, ors, i, leaf, row);
    BranchNames(s, e, search, filter, a, b, ors, i, leaf, IS_DELETED);
    BranchNames(s, e, search, filter, a, b, ors, i, leaf, DELETED_AT);
    FinishedSelects(s, e, holds, ids, w, a + b + [leaf], row);
  }

  /** One alternative of a query. */
  lemma {:induction false} AlternativeSelects(
    s: Schema, e: string, q: Query, holds: Holds, search: Where, filter: Where, i: nat, row: Row)
    requires Separated(s) && GuardColumns(s, e) && i < |q.ors|
    requires Compiled(s, e, search, SearchLeaves(s, e, q.search)) &&
             Compiled(s, e, filter, FilterLeaves(s, e, q.filters))
    requires DistinctPaths(q.search) && Harmless(Ands(s, e, q))
    ensures var branch := Branch(AndPart(search, filter), OrBranches(s, e, q.ors), i);
            Denotes(holds, Finished(s, e, q.excludeIds, branch), row) <==>
            && AllHold(holds, Ands(s, e, q), row) && NotExcluded(holds, s, e, q.excludeIds, row)
            && AlternativeHolds(s, e, q, holds, i, row)
  {
    LeavesAreGood(s, e, SearchCond([], Plain(Junk)), q.ors[i]);
    QueryLeaves(s, e, q);
    BranchSelects(s, e, holds, search, filter, SearchLeaves(s, e, q.search), FilterLeaves(s, e, q.filters),
                  OrBranches(s, e, q.ors), i, FilterLeaf(s, e, q.ors[i]), q.excludeIds, row);
  }

  /** The alternative's own condition, and live unless it or a common condition names the columns. */
  ghost predicate AlternativeHolds(s: Schema, e: string, q: Query, holds: Holds, i: nat, row: Row)
    requires e in s && i < |q.ors|
  {
    var leaf := FilterLeaf(s, e, q.ors[i]);
    LeafHolds(holds, leaf, row) && LiveUnlessNamed(holds, Ands(s, e, q) + [leaf], ExtraNames(s, e, q.excludeIds), row)
  }

  /** The compiled clause selects exactly the rows that meet every search condition and filter, are
      not excluded, meet some alternative if there are any, and are live unless conditions say otherwise. */
  lemma {:induction false} QuerySelects(s: Schema, e: string, q: Query, holds: Holds, c: Clause, row: Row)
    requires Separated(s) && GuardColumns(s, e) && CompiledQuery(s, e, q, c)
    requires DistinctPaths(q.search) && Harmless(Ands(s, e, q))
    ensures ClauseHolds(holds, c, row) <==>
            && AllHold(holds, Ands(s, e, q), row) && NotExcluded(holds, s, e, q.excludeIds, row)
            && if q.ors == [] then LiveUnlessNamed(holds, Ands(s, e, q), ExtraNames(s, e, q.excludeIds), row)
               else exists i :: 0 <= i < |q.ors| && AlternativeHolds(s, e, q, holds, i, row)
  {
    var search, filter :| CompiledFrom(s, e, q, search, filter, c);
    ClauseIsBranches(s, e, q, search, filter, c);
    if q.ors == [] {
      ConjunctionSelects(s, e, q, holds, search, filter, row);
    } else {
      forall i | 0 <= i < |q.ors|
        ensures Denotes(holds, c.ws[i], row) <==>
                && AllHold(holds, Ands(s, e, q), row) && NotExcluded(holds, s, e, q.excludeIds, row)
                && AlternativeHolds(s, e, q, holds, i, row)
      {
        AlternativeSelects(s, e, q, holds, search, filter, i, row);
      }
    }
  }

  /** Some condition of the query is about one of the soft-delete columns. */
  ghost predicate AsksAboutDeletion(s: Schema, e: string, q: Query)
    requires e in s
  {
    var all := Ands(s, e, q) + FilterLeaves(s, e, q.ors);
    || Names(all, IS_DELETED) || Names(all, DELETED_AT)
    || !(ExtraNames(s, e, q.excludeIds) !! {IS_DELETED, DELETED_AT})
  }

  ghost predicate Live(holds: Holds, row: Row) {
    holds(Equals(FALSE), CellOf(row, IS_DELETED)) && holds(IsNull, CellOf(row, DELETED_AT))
  }

  lemma {:induction false} UnnamedIsLive(s: Schema, e: string, q: Query, holds: Holds, row: Row)
    requires e in s && !AsksAboutDeletion(s, e, q)
    ensures LiveUnlessNamed(holds, Ands(s, e, q), ExtraNames(s, e, q.excludeIds), row) <==> Live(holds, row)
    ensures forall i :: 0 <= i < |q.ors| ==>
              (AlternativeHolds(s, e, q, holds, i, row) <==>
                LeafHolds(holds, FilterLeaf(s, e, q.ors[i]), row) && Live(holds, row))
  {
    var a, b := Ands(s, e, q), FilterLeaves(s, e, q.ors);
    forall c | !Names(a + b, c)
      ensures !Names(a, c) && forall i :: 0 <= i < |q.ors| ==> LeafVal(FilterLeaf(s, e, q.ors[i]), [c]).None?
    {
      AtConcat(a, b, [c]);
      forall i | 0 <= i < |q.ors| ensures LeafVal(FilterLeaf(s, e, q.ors[i]), [c]).None? {
        assert b[i] == FilterLeaf(s, e, q.ors[i]);
        assert !IsAt(a + b, |a| + i, [c]);
      }
    }
    forall i | 0 <= i < |q.ors|
      ensures AlternativeHolds(s, e, q, holds, i, row) <==>
              LeafHolds(holds, FilterLeaf(s, e, q.ors[i]), row) && Live(holds, row)
    {
      NamesMore(a, FilterLeaf(s, e, q.ors[i]), IS_DELETED);
      NamesMore(a, FilterLeaf(s, e, q.ors[i]), DELETED_AT);
    }
  }

  // ---------------------------------------------------------------- in the client's terms

  /** A search condition as the client reads it: the value itself, or all its operators; null-like
      values and empty operator objects ask for NULL; a bare JSON column asks nothing. */
  ghost predicate SearchAsks(s: Schema, e: string, holds: Holds, c: SearchCond, row: Row)
    requires e in s && c.path != []
  {
    var cell := CellAt(row, c.path);
    if c.path[0] in s[e].jsonColumns then
      |c.path| > 1 ==> JsonAsks(holds, c.path[1..], c.condition, CellOf(row, c.path[0]))
    else
      match c.condition
      case Plain(v) => holds(if NullLike(Raw(v)) then IsNull else Equals(v), cell)
      case Operators(ops) =>
        && (ops == [] ==> holds(IsNull, cell))
        && forall i :: 0 <= i < |ops| ==> holds(Compares(SearchText(ops[i].0), ops[i].1), cell)
  }

  ghost predicate JsonAsks(holds: Holds, inside: Path, c: Condition, cell: Cell) {
    match c
    case Plain(v) => holds(JsonCompares(inside, "eq", v), cell)
    case Operators(ops) => forall i :: 0 <= i < |ops| ==>
      holds(JsonCompares(inside, SearchText(ops[i].0), ops[i].1), cell)
  }

  /** The filters that ask for NULL, and those that ask for anything but NULL. */
  predicate AsksNull(op: FilterStrings.FilterOperator, value: string) {
    || (op.Eq? && (value == "" || IsNullishLiteral(value)))
    || (op.IsNull? && Lower(value) != "false")
    || (op.NotNull? && Lower(value) == "false")
  }

  predicate AsksNotNull(op: FilterStrings.FilterOperator, value: string) {
    || (op.Ne? && IsNullishLiteral(value))
    || (op.IsNull? && Lower(value) == "false")
    || (op.NotNull? && Lower(value) != "false")
  }

  /** A filter as the client reads it. */
  ghost predicate FilterAsks(s: Schema, e: string, holds: Holds, f: FilterCond, row: Row)
    requires e in s && f.path != []
  {
    var text := FilterStrings.OperatorText(f.operator);
    var cell := CellAt(row, f.path);
    if f.path[0] in s[e].jsonColumns then
      |f.path| > 1 ==> holds(JsonCompares(f.path[1..], text, Text(f.value)), CellOf(row, f.path[0]))
    else if AsksNull(f.operator, f.value) then holds(IsNull, cell)
    else if AsksNotNull(f.operator, f.value) then holds(NotNull, cell)
    else if f.operator.Eq? then holds(Equals(Text(f.value)), cell)
    else holds(Compares(text, Text(f.value)), cell)
  }

  lemma {:induction false} ConjunctionMeets(holds: Holds, tests: seq<Test>, cell: Cell)
    requires tests != []
    ensures Meets(holds, Conjunction(tests), cell) <==> forall i :: 0 <= i < |tests| ==> holds(tests[i], cell)
  {
    if |tests| > 1 {
      var both := Conjunction(tests);
      assert forall i :: 0 <= i < |tests| ==> both.operators[i] == Single(tests[i]);
      assert forall i :: 0 <= i < |tests| ==> (Meets(holds, both.operators[i], cell) <==> holds(tests[i], cell));
    }
  }

  lemma {:induction false} OperatorsMeet(holds: Holds, ops: seq<(SearchOperator, Value)>, cell: Cell)
    requires ops != []
    ensures MeetsVal(holds, Normal(ConditionValue(Operators(ops))), cell) <==>
            forall i :: 0 <= i < |ops| ==> holds(Compares(SearchText(ops[i].0), ops[i].1), cell)
  {
    var tests := seq(|ops|, i requires 0 <= i < |ops| => Compares(SearchText(ops[i].0), ops[i].1));
    assert ConditionValue(Operators(ops)) == Op(Conjunction(tests));
    ConjunctionMeets(holds, tests, cell);
    assert forall i :: 0 <= i < |ops| ==> tests[i] == Compares(SearchText(ops[i].0), ops[i].1);
  }

  lemma {:induction false} JsonMeets(
    holds: Holds, column: string, inside: Path, ops: seq<(SearchOperator, Value)>, cell: Cell)
    requires ops != [] && JsonCondition(column, inside, Operators(ops)).At?
    ensures MeetsVal(holds, Normal(JsonCondition(column, inside, Operators(ops)).val), cell) <==>
            JsonAsks(holds, inside, Operators(ops), cell)
  {
    var tests := seq(|ops|, i requires 0 <= i < |ops| => JsonCompares(inside, SearchText(ops[i].0), ops[i].1));
    assert JsonCondition(column, inside, Operators(ops)).val == Op(Conjunction(tests));
    ConjunctionMeets(holds, tests, cell);
    assert forall i :: 0 <= i < |ops| ==> tests[i] == JsonCompares(inside, SearchText(ops[i].0), ops[i].1);
  }

  lemma {:induction false} SearchLeafAsks(s: Schema, e: string, holds: Holds, c: SearchCond, row: Row)
    requires e in s && !SearchLeaf(s, e, c).Refused?
    ensures c.path != []
    ensures LeafHolds(holds, SearchLeaf(s, e, c), row) <==> SearchAsks(s, e, holds, c, row)
  {
    if c.condition.Operators? && c.condition.ops != [] {
      var ops := c.condition.ops;
      if !IsJsonPath(s, e, c.path) {
        OperatorsMeet(holds, ops, CellAt(row, c.path));
      } else if |c.path| > 1 {
        JsonMeets(holds, c.path[0], c.path[1..], ops, CellOf(row, c.path[0]));
      }
    }
  }

  lemma {:induction false} FilterLeafAsks(s: Schema, e: string, holds: Holds, f: FilterCond, row: Row)
    requires e in s && !FilterLeaf(s, e, f).Refused?
    ensures f.path != []
    ensures LeafHolds(holds, FilterLeaf(s, e, f), row) <==> FilterAsks(s, e, holds, f, row)
  {
  }

  /** Every condition of an accepted query names something. */
  lemma {:induction false} AcceptedPaths(s: Schema, e: string, q: Query)
    requires e in s && Accepted(s, e, q)
    ensures PathsGiven(q)
  {
    AcceptedLeaves(s, e, q);
    assert forall i :: 0 <= i < |q.search| ==> SearchLeaves(s, e, q.search)[i] == SearchLeaf(s, e, q.search[i]);
    assert forall i :: 0 <= i < |q.filters| ==> FilterLeaves(s, e, q.filters)[i] == FilterLeaf(s, e, q.filters[i]);
    assert forall i :: 0 <= i < |q.ors| ==> FilterLeaves(s, e, q.ors)[i] == FilterLeaf(s, e, q.ors[i]);
  }

  predicate PathsGiven(q: Query) {
    && (forall i :: 0 <= i < |q.search| ==> q.search[i].path != [])
    && (forall i :: 0 <= i < |q.filters| ==> q.filters[i].path != [])
    && (forall i :: 0 <= i < |q.ors| ==> q.ors[i].path != [])
  }

  ghost predicate EveryAsked(s: Schema, e: string, holds: Holds, q: Query, row: Row)
    requires e in s && PathsGiven(q)
  {
    && (forall i :: 0 <= i < |q.search| ==> SearchAsks(s, e, holds, q.search[i], row))
    && (forall i :: 0 <= i < |q.filters| ==> FilterAsks(s, e, holds, q.filters[i], row))
  }

  ghost predicate SomeAlternative(s: Schema, e: string, holds: Holds, q: Query, row: Row)
    requires e in s && PathsGiven(q)
  {
    exists i :: 0 <= i < |q.ors| && FilterAsks(s, e, holds, q.ors[i], row)
  }

  lemma {:induction false} AllHoldConcat(holds: Holds, a: seq<Leaf>, b: seq<Leaf>, row: Row)
    ensures AllHold(holds, a + b, row) <==> AllHold(holds, a, row) && AllHold(holds, b, row)
  {
    assert forall i :: 0 <= i < |a| ==> a[i] == (a + b)[i];
    assert forall i :: 0 <= i < |b| ==> b[i] == (a + b)[|a| + i];
  }

  lemma {:induction false} AndsAreAsked(s: Schema, e: string, q: Query, holds: Holds, row: Row)
    requires e in s && Accepted(s, e, q) && PathsGiven(q)
    ensures AllHold(holds, Ands(s, e, q), row) <==> EveryAsked(s, e, holds, q, row)
  {
    AcceptedLeaves(s, e, q);
    var a, b := SearchLeaves(s, e, q.search), FilterLeaves(s, e, q.filters);
    AllHoldConcat(holds, a, b, row);
    forall i | 0 <= i < |q.search| ensures LeafHolds(holds, a[i], row) <==> SearchAsks(s, e, holds, q.search[i], row) {
      assert a[i] == SearchLeaf(s, e, q.search[i]);
      SearchLeafAsks(s, e, holds, q.search[i], row);
    }
    forall i | 0 <= i < |q.filters|
      ensures LeafHolds(holds, b[i], row) <==> FilterAsks(s, e, holds, q.filters[i], row)
    {
      assert b[i] == FilterLeaf(s, e, q.filters[i]);
      FilterLeafAsks(s, e, holds, q.filters[i], row);
    }
  }

  /** If no condition is about the soft-delete columns, the clause selects exactly the live rows that
      meet every search condition and filter, some alternative if there are any, and are not excluded. */
  lemma {:induction false} QuerySelectsLive(s: Schema, e: string, q: Query, holds: Holds, c: Clause, row: Row)
    requires Separated(s) && GuardColumns(s, e) && CompiledQuery(s, e, q, c) && Accepted(s, e, q)
    requires DistinctPaths(q.search) && Harmless(Ands(s, e, q)) && !AsksAboutDeletion(s, e, q)
    ensures PathsGiven(q)
    ensures ClauseHolds(holds, c, row) <==>
            && EveryAsked(s, e, holds, q, row) && (q.ors == [] || SomeAlternative(s, e, holds, q, row))
            && NotExcluded(holds, s, e, q.excludeIds, row) && Live(holds, row)
  {
    AcceptedPaths(s, e, q);
    AcceptedLeaves(s, e, q);
    QuerySelects(s, e, q, holds, c, row);
    UnnamedIsLive(s, e, q, holds, row);
    AndsAreAsked(s, e, q, holds, row);
    forall i | 0 <= i < |q.ors|
      ensures AlternativeHolds(s, e, q, holds, i, row) <==> FilterAsks(s, e, holds, q.ors[i], row) && Live(holds, row)
    {
      assert FilterLeaves(s, e, q.ors)[i] == FilterLeaf(s, e, q.ors[i]);
      FilterLeafAsks(s, e, holds, q.ors[i], row);
    }
  }

  // ---------------------------------------------------------------- alternatives on a bare JSON column

  /** A condition that names a JSON column and no path inside it, which the compiler passes over. */
  ghost predicate IsBare(s: Schema, e: string, f: FilterCond)
    requires e in s
  {
    |f.path| == 1 && f.path[0] in s[e].jsonColumns
  }

  /** The alternatives as they would read if those were left out of the list. */
  ghost predicate SomeOther(s: Schema, e: string, holds: Holds, q: Query, row: Row)
    requires e in s && PathsGiven(q)
  {
    || (forall i :: 0 <= i < |q.ors| ==> IsBare(s, e, q.ors[i]))
    || exists i :: 0 <= i < |q.ors| && !IsBare(s, e, q.ors[i]) && FilterAsks(s, e, holds, q.ors[i], row)
  }

  ghost predicate BareIsLeftOut(s: Schema, e: string, q: Query)
    requires e in s && PathsGiven(q)
  {
    forall holds: Holds, row: Row :: SomeAlternative(s, e, holds, q, row) <==> SomeOther(s, e, holds, q, row)
  }

  /** Passing over an alternative on a bare JSON column leaves a branch that matches every row. That is
      the same as leaving it out of the list exactly when none, or all, of the alternatives are such. */
  lemma {:induction false} BareIsLeftOutIff(s: Schema, e: string, q: Query)
    requires e in s && PathsGiven(q) && q.ors != []
    ensures BareIsLeftOut(s, e, q) <==>
            || (forall i :: 0 <= i < |q.ors| ==> IsBare(s, e, q.ors[i]))
            || (forall i :: 0 <= i < |q.ors| ==> !IsBare(s, e, q.ors[i]))
  {
    if i, j :| 0 <= i < |q.ors| && 0 <= j < |q.ors| && IsBare(s, e, q.ors[i]) && !IsBare(s, e, q.ors[j]) {
      var holds: Holds := (t: Test, c: Cell) => false;
      assert FilterAsks(s, e, holds, q.ors[i], NoRow);
      assert SomeAlternative(s, e, holds, q, NoRow) && !SomeOther(s, e, holds, q, NoRow);
    } else if forall i :: 0 <= i < |q.ors| ==> IsBare(s, e, q.ors[i]) {
      forall holds: Holds, row: Row ensures SomeAlternative(s, e, holds, q, row) {
        assert FilterAsks(s, e, holds, q.ors[0], row);
      }
    }
  }
}
