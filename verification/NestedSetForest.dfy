/**
 Nested-set numbering of a parent table, on values.

 `Rows` is what the walk reads: ids and parent ids, in input order. A `Forest`
 is the first-child / next-sibling shape the walk unfolds, and `Number` is the
 left/right numbering of that shape. The theorems relate the numbering to the
 ancestor relation of the parent table, which is defined without any forest.
 */
module NestedSetForest {
  import opened Options

  type Id = string

  datatype Row = Row(id: Id, parent: Option<Id>)

  datatype Span = Span(lft: int, rgt: int)

  datatype Forest = Nil | Cons(id: Id, kids: Forest, rest: Forest)

  // ---------------------------------------------------------------- the parent table

  ghost predicate DistinctIds(rows: seq<Row>) {
    forall i, j :: 0 <= i < j < |rows| ==> rows[i].id != rows[j].id
  }

  ghost function IdsOf(rows: seq<Row>): set<Id> {
    set i | 0 <= i < |rows| :: rows[i].id
  }

  ghost predicate HasParent(rows: seq<Row>, id: Id, p: Option<Id>) {
    Row(id, p) in rows
  }

  /** `a` is reached from `b` by following exactly `k + 1` parent references. */
  ghost predicate Above(rows: seq<Row>, a: Id, b: Id, k: nat)
    decreases k
  {
    if k == 0 then HasParent(rows, b, Some(a))
    else exists p :: HasParent(rows, b, Some(p)) && Above(rows, a, p, k - 1)
  }

  ghost predicate Ancestor(rows: seq<Row>, a: Id, b: Id) {
    exists k: nat :: Above(rows, a, b, k)
  }

  /** The parent chain of `id` ends in a root after `k` steps. */
  ghost predicate Rooted(rows: seq<Row>, id: Id, k: nat)
    decreases k
  {
    if k == 0 then HasParent(rows, id, None)
    else exists p :: HasParent(rows, id, Some(p)) && Rooted(rows, p, k - 1)
  }

  ghost predicate ReachesRoot(rows: seq<Row>, id: Id) {
    exists k: nat :: Rooted(rows, id, k)
  }

  ghost predicate AllRooted(rows: seq<Row>) {
    forall id :: id in IdsOf(rows) ==> ReachesRoot(rows, id)
  }

  /** Ids of the rows whose parent is `p`, in input order. */
  ghost function ChildIds(rows: seq<Row>, p: Option<Id>): (r: seq<Id>)
    ensures forall id :: id in r <==> HasParent(rows, id, p)
  {
    if rows == [] then []
    else
      var init := ChildIds(rows[..|rows| - 1], p);
      assert rows == rows[..|rows| - 1] + [rows[|rows| - 1]];
      if rows[|rows| - 1].parent == p then init + [rows[|rows| - 1].id] else init
  }

  lemma {:induction false} ChildIdsDistinct(rows: seq<Row>, p: Option<Id>, i: nat, j: nat)
    requires DistinctIds(rows) && i < j < |ChildIds(rows, p)|
    ensures ChildIds(rows, p)[i] != ChildIds(rows, p)[j]
  {
    var last := rows[|rows| - 1];
    var prev := rows[..|rows| - 1];
    if j < |ChildIds(prev, p)| {
      ChildIdsDistinct(prev, p, i, j);
    } else {
      assert HasParent(prev, ChildIds(prev, p)[i], p);
    }
  }

  // ---------------------------------------------------------------- forests

  ghost function Ids(f: Forest): set<Id> {
    match f
    case Nil => {}
    case Cons(id, kids, rest) => {id} + Ids(kids) + Ids(rest)
  }

  ghost function Size(f: Forest): nat {
    match f
    case Nil => 0
    case Cons(_, kids, rest) => 1 + Size(kids) + Size(rest)
  }

  ghost predicate Distinct(f: Forest) {
    match f
    case Nil => true
    case Cons(id, kids, rest) =>
      id !in Ids(kids) && id !in Ids(rest) && Ids(kids) !! Ids(rest) && Distinct(kids) && Distinct(rest)
  }

  /** The forest unfolds the table below the listed ids: same ids, same order, all children. */
  ghost predicate Unfolds(rows: seq<Row>, ids: seq<Id>, f: Forest)
    decreases f
  {
    match f
    case Nil => ids == []
    case Cons(id, kids, rest) =>
      && ids != [] && ids[0] == id
      && Unfolds(rows, ChildIds(rows, Some(id)), kids)
      && Unfolds(rows, ids[1..], rest)
  }

  ghost function Append(f: Forest, g: Forest): Forest {
    match f
    case Nil => g
    case Cons(id, kids, rest) => Cons(id, kids, Append(rest, g))
  }

  /** The children of `a` wherever it sits in the forest. */
  ghost function Below(f: Forest, a: Id): Forest {
    match f
    case Nil => Nil
    case Cons(id, kids, rest) =>
      if id == a then kids
      else if a in Ids(kids) then Below(kids, a)
      else Below(rest, a)
  }

  /** Pre-order numbering from `c`: a node opens at the counter and closes after its children. */
  ghost function SpanIn(f: Forest, c: int, a: Id): Span
    requires a in Ids(f)
  {
    var close := c + 1 + 2 * Size(f.kids);
    if f.id == a then Span(c, close)
    else if a in Ids(f.kids) then SpanIn(f.kids, c + 1, a)
    else SpanIn(f.rest, close + 1, a)
  }

  lemma {:induction false} AppendShape(f: Forest, g: Forest)
    ensures Ids(Append(f, g)) == Ids(f) + Ids(g)
    ensures Size(Append(f, g)) == Size(f) + Size(g)
    ensures Distinct(f) && Distinct(g) && Ids(f) !! Ids(g) ==> Distinct(Append(f, g))
  {
    match f
    case Nil =>
    case Cons(_, _, rest) => AppendShape(rest, g);
  }

  lemma {:induction false} AppendSpan(f: Forest, g: Forest, c: int, a: Id)
    requires a in Ids(f) || a in Ids(g)
    ensures a in Ids(Append(f, g))
    ensures SpanIn(Append(f, g), c, a) == if a in Ids(f) then SpanIn(f, c, a) else SpanIn(g, c + 2 * Size(f), a)
  {
    AppendShape(f, g);
    match f
    case Nil =>
    case Cons(id, kids, rest) =>
      if a != id && a !in Ids(kids) {
        AppendSpan(rest, g, c + 2 + 2 * Size(kids), a);
      }
  }

  lemma {:induction false} AppendUnfolds(rows: seq<Row>, ids: seq<Id>, f: Forest, id: Id, kids: Forest)
    requires Unfolds(rows, ids, f) && Unfolds(rows, ChildIds(rows, Some(id)), kids)
    ensures Unfolds(rows, ids + [id], Append(f, Cons(id, kids, Nil)))
  {
    match f
    case Nil =>
    case Cons(_, _, rest) =>
      AppendUnfolds(rows, ids[1..], rest, id, kids);
      assert (ids + [id])[1..] == ids[1..] + [id];
  }

  /** The table and the input order determine the forest. */
  lemma {:induction false} UnfoldsUnique(rows: seq<Row>, ids: seq<Id>, f: Forest, g: Forest)
    requires Unfolds(rows, ids, f) && Unfolds(rows, ids, g)
    ensures f == g
    decreases f
  {
    if f.Cons? && g.Cons? {
      UnfoldsUnique(rows, ChildIds(rows, Some(f.id)), f.kids, g.kids);
      UnfoldsUnique(rows, ids[1..], f.rest, g.rest);
    }
  }

  // ---------------------------------------------------------------- numbering of a forest

  /** Every value of a numbering lies in `[c, c + 2n)`, and each interval closes after it opens. */
  lemma {:induction false} SpanRange(f: Forest, c: int, a: Id)
    requires a in Ids(f)
    ensures c <= SpanIn(f, c, a).lft < SpanIn(f, c, a).rgt < c + 2 * Size(f)
  {
    if a != f.id {
      if a in Ids(f.kids) { SpanRange(f.kids, c + 1, a); }
      else { SpanRange(f.rest, c + 2 + 2 * Size(f.kids), a); }
    }
  }

  /** Interval nesting is exactly tree descent. */
  lemma {:induction false} SpanNests(f: Forest, c: int, a: Id, b: Id)
    requires Distinct(f) && a in Ids(f) && b in Ids(f)
    ensures b in Ids(Below(f, a)) <==>
            SpanIn(f, c, a).lft < SpanIn(f, c, b).lft && SpanIn(f, c, b).rgt < SpanIn(f, c, a).rgt
  {
    var next := c + 2 + 2 * Size(f.kids);
    BelowInside(f.kids, a);
    BelowInside(f.rest, a);
    if a in Ids(f.kids) && b in Ids(f.kids) {
      SpanNests(f.kids, c + 1, a, b);
    } else if a in Ids(f.rest) && b in Ids(f.rest) {
      SpanNests(f.rest, next, a, b);
    } else {
      SpanSides(f, c, a);
      SpanSides(f, c, b);
    }
  }

  /** Where the interval of a node lies, by the part of the forest it is in. */
  lemma {:induction false} SpanSides(f: Forest, c: int, a: Id)
    requires a in Ids(f)
    ensures var x, close := SpanIn(f, c, a), c + 1 + 2 * Size(f.kids);
            if a == f.id then x == Span(c, close)
            else if a in Ids(f.kids) then c < x.lft < x.rgt < close
            else close < x.lft < x.rgt
  {
    if a != f.id {
      if a in Ids(f.kids) { SpanRange(f.kids, c + 1, a); }
      else { SpanRange(f.rest, c + 2 + 2 * Size(f.kids), a); }
    }
  }

  /** Two intervals never cross. */
  lemma {:induction false} SpanLaminar(f: Forest, c: int, a: Id, b: Id)
    requires Distinct(f) && a in Ids(f) && b in Ids(f) && a != b
    ensures var x, y := SpanIn(f, c, a), SpanIn(f, c, b);
            || (x.lft < y.lft && y.rgt < x.rgt) || (y.lft < x.lft && x.rgt < y.rgt)
            || x.rgt < y.lft || y.rgt < x.lft
  {
    if a in Ids(f.kids) && b in Ids(f.kids) {
      SpanLaminar(f.kids, c + 1, a, b);
    } else if a in Ids(f.rest) && b in Ids(f.rest) {
      SpanLaminar(f.rest, c + 2 + 2 * Size(f.kids), a, b);
    } else {
      SpanSides(f, c, a);
      SpanSides(f, c, b);
    }
  }

  lemma {:induction false} BelowInside(f: Forest, a: Id)
    ensures Ids(Below(f, a)) <= Ids(f)
    ensures Distinct(f) ==> a !in Ids(Below(f, a))
    ensures a !in Ids(f) ==> Below(f, a) == Nil
  {
    match f
    case Nil =>
    case Cons(id, kids, rest) =>
      BelowInside(kids, a);
      BelowInside(rest, a);
  }

  /** The width of an interval counts the nodes below. */
  lemma {:induction false} SpanWidth(f: Forest, c: int, a: Id)
    requires Distinct(f) && a in Ids(f)
    ensures SpanIn(f, c, a).rgt == SpanIn(f, c, a).lft + 2 * Size(Below(f, a)) + 1
  {
    if a == f.id {
    } else if a in Ids(f.kids) {
      SpanWidth(f.kids, c + 1, a);
    } else {
      SpanWidth(f.rest, c + 2 + 2 * Size(f.kids), a);
    }
  }

  lemma {:induction false} SizeCountsIds(f: Forest)
    requires Distinct(f)
    ensures Size(f) == |Ids(f)|
  {
    match f
    case Nil =>
    case Cons(id, kids, rest) =>
      SizeCountsIds(kids);
      SizeCountsIds(rest);
      assert |{id} + Ids(kids)| == 1 + |Ids(kids)|;
      assert |({id} + Ids(kids)) + Ids(rest)| == |{id} + Ids(kids)| + |Ids(rest)|;
  }

  /** Every value in the range opens or closes some node. */
  lemma {:induction false} SpanCovers(f: Forest, c: int, v: int) returns (a: Id)
    requires Distinct(f) && c <= v < c + 2 * Size(f)
    ensures a in Ids(f) && (SpanIn(f, c, a).lft == v || SpanIn(f, c, a).rgt == v)
  {
    var close := c + 1 + 2 * Size(f.kids);
    if v == c || v == close {
      a := f.id;
    } else if v < close {
      a := SpanCovers(f.kids, c + 1, v);
    } else {
      a := SpanCovers(f.rest, close + 1, v);
    }
  }

  lemma {:induction false} UnfoldsIds(rows: seq<Row>, ids: seq<Id>, f: Forest)
    requires Unfolds(rows, ids, f)
    ensures forall k :: 0 <= k < |ids| ==> ids[k] in Ids(f)
    decreases f
  {
    match f
    case Nil =>
    case Cons(_, _, rest) =>
      UnfoldsIds(rows, ids[1..], rest);
      assert forall k :: 1 <= k < |ids| ==> ids[k] == ids[1..][k - 1];
  }

  /** An earlier listed node closes before a later one opens. */
  lemma {:induction false} ListedInOrder(rows: seq<Row>, ids: seq<Id>, f: Forest, c: int, i: nat, j: nat)
    requires Unfolds(rows, ids, f) && Distinct(f) && i < j < |ids|
    ensures ids[i] in Ids(f) && ids[j] in Ids(f)
    ensures SpanIn(f, c, ids[i]).rgt < SpanIn(f, c, ids[j]).lft
    decreases f
  {
    var next := c + 2 + 2 * Size(f.kids);
    UnfoldsIds(rows, ids, f);
    UnfoldsIds(rows, ids[1..], f.rest);
    assert ids[j] == ids[1..][j - 1];
    if i > 0 {
      assert ids[i] == ids[1..][i - 1];
      ListedInOrder(rows, ids[1..], f.rest, next, i - 1, j - 1);
    } else {
      SpanRange(f.rest, next, ids[j]);
    }
  }

  /** The nodes below `a` are numbered as if the walk had started inside `a`. */
  lemma {:induction false} SpanBelow(f: Forest, c: int, a: Id) returns (d: int)
    requires Distinct(f) && a in Ids(f)
    ensures Distinct(Below(f, a)) && Ids(Below(f, a)) <= Ids(f)
    ensures forall b :: b in Ids(Below(f, a)) ==> SpanIn(f, c, b) == SpanIn(Below(f, a), d, b)
  {
    if a == f.id {
      d := c + 1;
    } else if a in Ids(f.kids) {
      d := SpanBelow(f.kids, c + 1, a);
    } else {
      d := SpanBelow(f.rest, c + 2 + 2 * Size(f.kids), a);
    }
  }

  // ---------------------------------------------------------------- forest against table

  lemma {:induction false} UnfoldsBelow(rows: seq<Row>, ids: seq<Id>, f: Forest, a: Id)
    requires Unfolds(rows, ids, f) && a in Ids(f)
    ensures Unfolds(rows, ChildIds(rows, Some(a)), Below(f, a))
    decreases f
  {
    if a == f.id {
    } else if a in Ids(f.kids) {
      UnfoldsBelow(rows, ChildIds(rows, Some(f.id)), f.kids, a);
    } else {
      UnfoldsBelow(rows, ids[1..], f.rest, a);
    }
  }

  /** Tree descent implies a parent chain. */
  lemma {:induction false} DescentIsChain(rows: seq<Row>, ids: seq<Id>, f: Forest, a: Id, b: Id)
    requires Unfolds(rows, ids, f) && b in Ids(Below(f, a))
    ensures Ancestor(rows, a, b)
    decreases f
  {
    if a == f.id {
      ListedOrChained(rows, ChildIds(rows, Some(a)), f.kids, b);
      if b in ChildIds(rows, Some(a)) {
        assert Above(rows, a, b, 0);
      } else {
        var r, k: nat :| r in ChildIds(rows, Some(a)) && Above(rows, r, b, k);
        AboveExtend(rows, a, r, b, k);
      }
    } else if a in Ids(f.kids) {
      DescentIsChain(rows, ChildIds(rows, Some(f.id)), f.kids, a, b);
    } else {
      DescentIsChain(rows, ids[1..], f.rest, a, b);
    }
  }

  /** A node of an unfolding is listed, or has a listed ancestor. */
  lemma {:induction false} ListedOrChained(rows: seq<Row>, ids: seq<Id>, f: Forest, b: Id)
    requires Unfolds(rows, ids, f) && b in Ids(f)
    ensures b in ids || exists r, k: nat :: r in ids && Above(rows, r, b, k)
    decreases f
  {
    if b == f.id {
    } else if b in Ids(f.kids) {
      ListedOrChained(rows, ChildIds(rows, Some(f.id)), f.kids, b);
      if b in ChildIds(rows, Some(f.id)) {
        assert Above(rows, f.id, b, 0);
      } else {
        var r, k: nat :| r in ChildIds(rows, Some(f.id)) && Above(rows, r, b, k);
        AboveExtend(rows, f.id, r, b, k);
        assert f.id in ids && Above(rows, f.id, b, k + 1);
      }
    } else {
      ListedOrChained(rows, ids[1..], f.rest, b);
    }
  }

  lemma {:induction false} AboveExtend(rows: seq<Row>, a: Id, r: Id, b: Id, k: nat)
    requires HasParent(rows, r, Some(a)) && Above(rows, r, b, k)
    ensures Above(rows, a, b, k + 1)
    decreases k
  {
    if k == 0 {
      assert HasParent(rows, b, Some(r)) && Above(rows, a, r, 0);
    } else {
      var p :| HasParent(rows, b, Some(p)) && Above(rows, r, p, k - 1);
      AboveExtend(rows, a, r, p, k - 1);
    }
  }

  /** A parent chain implies tree descent. */
  lemma {:induction false} ChainIsDescent(rows: seq<Row>, ids: seq<Id>, f: Forest, a: Id, b: Id, k: nat)
    requires DistinctIds(rows) && Unfolds(rows, ids, f) && Distinct(f) && a in Ids(f) && Above(rows, a, b, k)
    ensures b in Ids(Below(f, a))
    decreases k
  {
    UnfoldsBelow(rows, ids, f, a);
    if k == 0 {
      UnfoldsIds(rows, ChildIds(rows, Some(a)), Below(f, a));
    } else {
      var p :| HasParent(rows, b, Some(p)) && Above(rows, a, p, k - 1);
      ChainIsDescent(rows, ids, f, a, p, k - 1);
      ClosedBelow(rows, ChildIds(rows, Some(a)), Below(f, a), p, b);
    }
  }

  /** An unfolding contains the children of each of its nodes. */
  lemma {:induction false} ClosedBelow(rows: seq<Row>, ids: seq<Id>, f: Forest, p: Id, b: Id)
    requires Unfolds(rows, ids, f) && p in Ids(f) && HasParent(rows, b, Some(p))
    ensures b in Ids(f)
    decreases f
  {
    if p == f.id {
      UnfoldsIds(rows, ChildIds(rows, Some(p)), f.kids);
    } else if p in Ids(f.kids) {
      ClosedBelow(rows, ChildIds(rows, Some(f.id)), f.kids, p, b);
    } else {
      ClosedBelow(rows, ids[1..], f.rest, p, b);
    }
  }

  // ---------------------------------------------------------------- the walk from the roots

  /** `f` is what the walk from the roots visits. */
  ghost predicate WalkOf(rows: seq<Row>, f: Forest) {
    Unfolds(rows, ChildIds(rows, None), f) && Distinct(f)
  }

  /** The walk visits exactly the ids whose parent chain ends in a root. */
  lemma {:induction false} WalkVisitsRooted(rows: seq<Row>, f: Forest, id: Id)
    requires WalkOf(rows, f)
    ensures id in Ids(f) <==> ReachesRoot(rows, id)
  {
    var roots := ChildIds(rows, None);
    if id in Ids(f) {
      ListedOrChained(rows, roots, f, id);
      if id in roots {
        assert Rooted(rows, id, 0);
      } else {
        var r, k: nat :| r in roots && Above(rows, r, id, k);
        ChainToRoot(rows, r, id, k);
      }
    }
    if ReachesRoot(rows, id) {
      var k: nat :| Rooted(rows, id, k);
      RootedIsVisited(rows, f, id, k);
    }
  }

  lemma {:induction false} ChainToRoot(rows: seq<Row>, r: Id, id: Id, k: nat)
    requires HasParent(rows, r, None) && Above(rows, r, id, k)
    ensures Rooted(rows, id, k + 1)
    decreases k
  {
    if k == 0 {
      assert HasParent(rows, id, Some(r)) && Rooted(rows, r, 0);
    } else {
      var p :| HasParent(rows, id, Some(p)) && Above(rows, r, p, k - 1);
      ChainToRoot(rows, r, p, k - 1);
    }
  }

  lemma {:induction false} RootedIsVisited(rows: seq<Row>, f: Forest, id: Id, k: nat)
    requires WalkOf(rows, f) && Rooted(rows, id, k)
    ensures id in Ids(f)
    decreases k
  {
    if k == 0 {
      UnfoldsIds(rows, ChildIds(rows, None), f);
    } else {
      var p :| HasParent(rows, id, Some(p)) && Rooted(rows, p, k - 1);
      RootedIsVisited(rows, f, p, k - 1);
      ClosedBelow(rows, ChildIds(rows, None), f, p, id);
    }
  }

  // ---------------------------------------------------------------- the theorems

  /** `m` is the numbering a successful rebuild leaves on the rows. */
  ghost predicate Numbered(rows: seq<Row>, m: map<Id, Span>) {
    m.Keys == IdsOf(rows) && exists f :: NumberedBy(rows, m, f)
  }

  ghost predicate NumberedBy(rows: seq<Row>, m: map<Id, Span>, f: Forest) {
    WalkOf(rows, f) && Ids(f) == m.Keys && forall a :: a in m ==> m[a] == SpanIn(f, 1, a)
  }

  /** Rows and input order determine the numbering, so a rebuild of rebuilt rows changes nothing. */
  lemma {:induction false} NumberedUnique(rows: seq<Row>, m: map<Id, Span>, n: map<Id, Span>)
    requires Numbered(rows, m) && Numbered(rows, n)
    ensures m == n
  {
    var f :| NumberedBy(rows, m, f);
    var g :| NumberedBy(rows, n, g);
    UnfoldsUnique(rows, ChildIds(rows, None), f, g);
  }

  /** Containment of intervals is exactly ancestry in the parent table; intervals never cross. */
  lemma {:induction false} NumberedAncestry(rows: seq<Row>, m: map<Id, Span>, a: Id, b: Id)
    requires DistinctIds(rows) && Numbered(rows, m) && a in m && b in m
    ensures Ancestor(rows, a, b) <==> m[a].lft < m[b].lft && m[b].rgt < m[a].rgt
    ensures a != b && !Ancestor(rows, a, b) && !Ancestor(rows, b, a) ==>
              m[a].rgt < m[b].lft || m[b].rgt < m[a].lft
  {
    var f :| NumberedBy(rows, m, f);
    SpanNests(f, 1, a, b);
    SpanNests(f, 1, b, a);
    if a != b { SpanLaminar(f, 1, a, b); }
    DescentIffAncestor(rows, f, a, b);
    DescentIffAncestor(rows, f, b, a);
  }

  lemma {:induction false} DescentIffAncestor(rows: seq<Row>, f: Forest, a: Id, b: Id)
    requires DistinctIds(rows) && WalkOf(rows, f) && a in Ids(f)
    ensures b in Ids(Below(f, a)) <==> Ancestor(rows, a, b)
  {
    if b in Ids(Below(f, a)) {
      DescentIsChain(rows, ChildIds(rows, None), f, a, b);
    }
    if Ancestor(rows, a, b) {
      var k: nat :| Above(rows, a, b, k);
      ChainIsDescent(rows, ChildIds(rows, None), f, a, b, k);
    }
  }

  ghost function Descendants(rows: seq<Row>, a: Id): set<Id> {
    set b | b in IdsOf(rows) && Ancestor(rows, a, b)
  }

  lemma {:induction false} BelowIsDescendants(rows: seq<Row>, f: Forest, a: Id)
    requires DistinctIds(rows) && WalkOf(rows, f) && Ids(f) == IdsOf(rows) && a in Ids(f)
    ensures Ids(Below(f, a)) == Descendants(rows, a)
  {
    forall b ensures b in Ids(Below(f, a)) <==> b in Descendants(rows, a) {
      BelowInside(f, a);
      DescentIffAncestor(rows, f, a, b);
    }
  }

  /** The interval of a node is as wide as its number of descendants requires. */
  lemma {:induction false} NumberedWidth(rows: seq<Row>, m: map<Id, Span>, a: Id)
    requires DistinctIds(rows) && Numbered(rows, m) && a in m
    ensures m[a].rgt == m[a].lft + 2 * |Descendants(rows, a)| + 1
  {
    var f :| NumberedBy(rows, m, f);
    SpanWidth(f, 1, a);
    var _ := SpanBelow(f, 1, a);
    SizeCountsIds(Below(f, a));
    BelowIsDescendants(rows, f, a);
  }

  ghost predicate Uses(m: map<Id, Span>, v: int) {
    exists a :: a in m && (m[a].lft == v || m[a].rgt == v)
  }

  /** The values used are exactly 1..2n. */
  lemma {:induction false} NumberedCovers(rows: seq<Row>, m: map<Id, Span>, v: int)
    requires DistinctIds(rows) && Numbered(rows, m)
    ensures Uses(m, v) <==> 1 <= v <= 2 * |rows|
  {
    var f :| NumberedBy(rows, m, f);
    SizeCountsIds(f);
    IdsCount(rows);
    if 1 <= v <= 2 * |rows| {
      var a := SpanCovers(f, 1, v);
      assert a in m;
    }
    forall a | a in m ensures 1 <= m[a].lft < m[a].rgt <= 2 * |rows| {
      SpanRange(f, 1, a);
    }
  }

  /** No value is used twice. */
  lemma {:induction false} NumberedInjective(rows: seq<Row>, m: map<Id, Span>, a: Id, b: Id)
    requires Numbered(rows, m) && a in m && b in m
    ensures m[a].lft != m[b].rgt
    ensures a != b ==> m[a].lft != m[b].lft && m[a].rgt != m[b].rgt
  {
    var f :| NumberedBy(rows, m, f);
    if a != b { SpanLaminar(f, 1, a, b); }
    SpanRange(f, 1, a);
    SpanRange(f, 1, b);
  }

  lemma {:induction false} IdsCount(rows: seq<Row>)
    requires DistinctIds(rows)
    ensures |IdsOf(rows)| == |rows|
  {
    if rows != [] {
      var prev := rows[..|rows| - 1];
      IdsCount(prev);
      assert IdsOf(rows) == IdsOf(prev) + {rows[|rows| - 1].id};
    }
  }

  /** Siblings keep input order: the earlier one closes before the later one opens. */
  lemma {:induction false} NumberedSiblings(rows: seq<Row>, m: map<Id, Span>, i: nat, j: nat)
    requires DistinctIds(rows) && Numbered(rows, m) && i < j < |rows| && rows[i].parent == rows[j].parent
    ensures rows[i].id in m && rows[j].id in m && m[rows[i].id].rgt < m[rows[j].id].lft
  {
    var f :| NumberedBy(rows, m, f);
    assert rows[i].id in IdsOf(rows) && rows[j].id in IdsOf(rows);
    var p := rows[i].parent;
    var x, y := ChildPositions(rows, p, i, j);
    if p.None? {
      ListedInOrder(rows, ChildIds(rows, None), f, 1, x, y);
    } else {
      assert HasParent(rows, rows[i].id, p);
      ParentVisited(rows, f, p.value, rows[i].id);
      var d := SpanBelow(f, 1, p.value);
      UnfoldsBelow(rows, ChildIds(rows, None), f, p.value);
      ListedInOrder(rows, ChildIds(rows, p), Below(f, p.value), d, x, y);
    }
  }

  lemma {:induction false} ParentVisited(rows: seq<Row>, f: Forest, p: Id, b: Id)
    requires DistinctIds(rows) && WalkOf(rows, f) && b in Ids(f) && HasParent(rows, b, Some(p))
    ensures p in Ids(f)
  {
    WalkVisitsRooted(rows, f, b);
    var k: nat :| Rooted(rows, b, k);
    assert k != 0;
    var q :| HasParent(rows, b, Some(q)) && Rooted(rows, q, k - 1);
    assert q == p;
    WalkVisitsRooted(rows, f, p);
  }

  lemma {:induction false} ChildPositions(rows: seq<Row>, p: Option<Id>, i: nat, j: nat) returns (x: nat, y: nat)
    requires i < j < |rows| && rows[i].parent == p && rows[j].parent == p
    ensures x < y < |ChildIds(rows, p)|
    ensures ChildIds(rows, p)[x] == rows[i].id && ChildIds(rows, p)[y] == rows[j].id
  {
    var prev := rows[..|rows| - 1];
    if j < |prev| {
      x, y := ChildPositions(prev, p, i, j);
    } else {
      x := ChildPosition(prev, p, i);
      y := |ChildIds(prev, p)|;
    }
  }

  lemma {:induction false} ChildPosition(rows: seq<Row>, p: Option<Id>, i: nat) returns (x: nat)
    requires i < |rows| && rows[i].parent == p
    ensures x < |ChildIds(rows, p)| && ChildIds(rows, p)[x] == rows[i].id
  {
    var prev := rows[..|rows| - 1];
    if i < |prev| {
      x := ChildPosition(prev, p, i);
    } else {
      x := |ChildIds(prev, p)|;
    }
  }
}
