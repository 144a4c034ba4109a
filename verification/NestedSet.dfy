/**
 The nested-set rebuild: a recursive walk that shares a counter and a visited set and
 writes `lft`/`rgt` into the nodes while it runs, and the wrapper that works on mirrors.
 */
module NestedSet {
  import opened Options
  import opened NestedSetForest

  class Node {
    const id: Id
    const parentId: Option<Id>
    var lft: int
    var rgt: int

    constructor (id: Id, parentId: Option<Id>, lft: int, rgt: int)
      ensures this.id == id && this.parentId == parentId && this.lft == lft && this.rgt == rgt
    {
      this.id, this.parentId, this.lft, this.rgt := id, parentId, lft, rgt;
    }
  }

  /** What the rebuild reads of its nodes. */
  ghost function RowsOf(nodes: seq<Node>): seq<Row> {
    seq(|nodes|, i requires 0 <= i < |nodes| => Row(nodes[i].id, nodes[i].parentId))
  }

  /** The numbers the nodes carry, in input order. */
  ghost function Spans(nodes: seq<Node>): seq<Span>
    reads nodes
  {
    seq(|nodes|, i requires 0 <= i < |nodes| reads nodes => Span(nodes[i].lft, nodes[i].rgt))
  }

  /** `after` is `before` with the nodes of `f` numbered from `c` and the others left alone. */
  ghost predicate Painted(rows: seq<Row>, before: seq<Span>, after: seq<Span>, f: Forest, c: int) {
    && |before| == |after| == |rows|
    && forall i :: 0 <= i < |rows| ==>
         after[i] == if rows[i].id in Ids(f) then SpanIn(f, c, rows[i].id) else before[i]
  }

  lemma {:induction false} PaintedAppend(
    rows: seq<Row>, s: seq<Span>, t: seq<Span>, u: seq<Span>, f: Forest, g: Forest, c: int)
    requires Painted(rows, s, t, f, c) && Painted(rows, t, u, g, c + 2 * Size(f)) && Ids(f) !! Ids(g)
    ensures Painted(rows, s, u, Append(f, g), c)
  {
    AppendShape(f, g);
    forall i | 0 <= i < |rows|
      ensures u[i] == if rows[i].id in Ids(Append(f, g)) then SpanIn(Append(f, g), c, rows[i].id) else s[i]
    {
      if rows[i].id in Ids(Append(f, g)) {
        AppendSpan(f, g, c, rows[i].id);
      }
    }
  }

  /** Numbering a child is: open it, number its children, close it. */
  lemma {:induction false} PaintedChild(
    rows: seq<Row>, s: seq<Span>, t: seq<Span>, k: nat, g: Forest, c: int, open: Span)
    requires k < |rows| == |s| && DistinctIds(rows) && rows[k].id !in Ids(g)
    requires Painted(rows, s[k := open], t, g, c + 1)
    ensures Painted(rows, s, t[k := Span(c, c + 1 + 2 * Size(g))], Cons(rows[k].id, g, Nil), c)
  {
    var tree := Cons(rows[k].id, g, Nil);
    assert Ids(tree) == {rows[k].id} + Ids(g);
  }

  type Groups = map<Option<Id>, seq<Node>>

  function Group(groups: Groups, p: Option<Id>): seq<Node> {
    if p in groups then groups[p] else []
  }

  /** `groups` lists, under every parent, its children in input order. */
  ghost predicate Grouped(nodes: seq<Node>, groups: Groups, p: Option<Id>) {
    var g := Group(groups, p);
    && |g| == |ChildIds(RowsOf(nodes), p)|
    && forall k :: 0 <= k < |g| ==> g[k] in nodes && g[k].id == ChildIds(RowsOf(nodes), p)[k]
  }

  /** Pushing the next node onto its parent's list keeps every list right. */
  lemma {:induction false} GroupStep(nodes: seq<Node>, groups: Groups, node: Node, p: Option<Id>)
    requires Grouped(nodes, groups, p)
    ensures Grouped(nodes + [node], groups[node.parentId := Group(groups, node.parentId) + [node]], p)
  {
    var rows := RowsOf(nodes + [node]);
    assert rows[..|rows| - 1] == RowsOf(nodes);
    assert forall m :: m in nodes ==> m in nodes + [node];
    assert node in nodes + [node];
  }

  method GroupByParent(nodes: seq<Node>) returns (byParent: Groups)
    ensures forall p :: Grouped(nodes, byParent, p)
  {
    byParent := map[];
    for n := 0 to |nodes|
      invariant forall p :: Grouped(nodes[..n], byParent, p)
    {
      var node := nodes[n];
      ghost var before := byParent;
      var siblings := Group(byParent, node.parentId);
      byParent := byParent[node.parentId := siblings + [node]];
      ghost var done := nodes[..n + 1];
      assert nodes[..n] + [node] == done;
      forall p: Option<Id> ensures Grouped(done, byParent, p) {
        GroupStep(nodes[..n], before, node, p);
      }
    }
    assert nodes[..|nodes|] == nodes;
  }

  /** Visited ids are ids of the table, and a visited node that is not a root has a visited parent. */
  ghost predicate Consistent(rows: seq<Row>, visited: set<Id>) {
    && visited <= IdsOf(rows)
    && forall id, p :: id in visited && HasParent(rows, id, Some(p)) ==> p in visited
  }

  /** What a stretch of the walk did: it unfolded `ids` into `f`, visiting and numbering its nodes. */
  ghost predicate Walked(rows: seq<Row>, ids: seq<Id>, f: Forest, from: Progress, to: Progress) {
    match from
    case Progress(visited, counter, spans) =>
      && Unfolds(rows, ids, f) && Distinct(f)
      && to.visited == visited + Ids(f) && visited !! Ids(f)
      && to.counter == counter + 2 * Size(f)
      && Painted(rows, spans, to.spans, f, counter)
  }

  datatype Progress = Progress(visited: set<Id>, counter: int, spans: seq<Span>)

  lemma {:induction false} ListedOrHasParent(rows: seq<Row>, ids: seq<Id>, f: Forest, b: Id)
    requires Unfolds(rows, ids, f) && b in Ids(f)
    ensures b in ids || exists p :: p in Ids(f) && HasParent(rows, b, Some(p))
    decreases f
  {
    if b == f.id {
    } else if b in Ids(f.kids) {
      ListedOrHasParent(rows, ChildIds(rows, Some(f.id)), f.kids, b);
      assert b in ChildIds(rows, Some(f.id)) ==> HasParent(rows, b, Some(f.id));
    } else {
      ListedOrHasParent(rows, ids[1..], f.rest, b);
    }
  }

  /** A child not yet reached by its siblings' subtrees is not visited: this is why the walk ends. */
  lemma {:induction false} NextChildIsNew(
    rows: seq<Row>, p: Option<Id>, k: nat, f: Forest, from: Progress, to: Progress)
    requires DistinctIds(rows) && k < |ChildIds(rows, p)|
    requires Walked(rows, ChildIds(rows, p)[..k], f, from, to)
    requires p.Some? ==> p.value in from.visited
    requires forall id :: id in from.visited ==> !HasParent(rows, id, p)
    ensures ChildIds(rows, p)[k] !in to.visited && HasParent(rows, ChildIds(rows, p)[k], p)
  {
    var b := ChildIds(rows, p)[k];
    assert HasParent(rows, b, p);
    forall j | 0 <= j < k ensures ChildIds(rows, p)[j] != b {
      ChildIdsDistinct(rows, p, j, k);
    }
    if b in Ids(f) {
      ListedOrHasParent(rows, ChildIds(rows, p)[..k], f, b);
      assert false;
    }
  }

  lemma {:induction false} WalkedNext(rows: seq<Row>, ids: seq<Id>, k: nat, f: Forest, tree: Forest,
                   from: Progress, mid: Progress, to: Progress)
    requires k < |ids| && Walked(rows, ids[..k], f, from, mid)
    requires tree.Cons? && tree.rest == Nil && Walked(rows, [ids[k]], tree, mid, to)
    ensures Walked(rows, ids[..k + 1], Append(f, tree), from, to)
  {
    AppendShape(f, tree);
    AppendUnfolds(rows, ids[..k], f, ids[k], tree.kids);
    assert ids[..k] + [ids[k]] == ids[..k + 1];
    PaintedAppend(rows, from.spans, mid.spans, to.spans, f, tree, from.counter);
  }

  /** Opening a fresh child, walking its children and closing it walks the child. */
  lemma {:induction false} WalkedChild(rows: seq<Row>, k: nat, p: Option<Id>, g: Forest,
                                       from: Progress, entered: Span, mid: Progress, to: Progress)
    requires k < |rows| == |from.spans| && DistinctIds(rows) && rows[k].id !in from.visited
    requires Consistent(rows, from.visited) && HasParent(rows, rows[k].id, p)
    requires p.Some? ==> p.value in from.visited
    requires entered.lft == from.counter
    requires Walked(rows, ChildIds(rows, Some(rows[k].id)), g,
                    Progress(from.visited + {rows[k].id}, from.counter + 1, from.spans[k := entered]), mid)
    requires to == Progress(mid.visited, mid.counter + 1, mid.spans[k := Span(mid.spans[k].lft, mid.counter)])
    ensures Walked(rows, [rows[k].id], Cons(rows[k].id, g, Nil), from, to)
    ensures Consistent(rows, to.visited)
  {
    PaintedChild(rows, from.spans, mid.spans, k, g, from.counter, entered);
    WalkedConsistent(rows, rows[k].id, p, Cons(rows[k].id, g, Nil), from, to);
  }

  /** Marking a fresh child of a visited parent is consistent, and nothing visited hangs below it. */
  lemma {:induction false} OpenConsistent(rows: seq<Row>, visited: set<Id>, id: Id, p: Option<Id>)
    requires DistinctIds(rows) && Consistent(rows, visited) && HasParent(rows, id, p) && id !in visited
    requires p.Some? ==> p.value in visited
    ensures id in IdsOf(rows) && Consistent(rows, visited + {id})
    ensures forall b :: b in visited + {id} ==> !HasParent(rows, b, Some(id))
  {
    var i :| 0 <= i < |rows| && rows[i] == Row(id, p);
  }

  lemma {:induction false} WalkedConsistent(
    rows: seq<Row>, id: Id, p: Option<Id>, tree: Forest, from: Progress, to: Progress)
    requires DistinctIds(rows) && Consistent(rows, from.visited) && HasParent(rows, id, p)
    requires p.Some? ==> p.value in from.visited
    requires Walked(rows, [id], tree, from, to)
    ensures Consistent(rows, to.visited)
  {
    forall b | b in Ids(tree)
      ensures b in IdsOf(rows) && forall q :: HasParent(rows, b, Some(q)) ==> q in to.visited
    {
      ListedOrHasParent(rows, [id], tree, b);
    }
  }

  /** A write to one node changes one entry of the snapshot. */
  lemma {:induction false} NodeWrite(nodes: seq<Node>, k: nat, before: seq<Span>)
    requires DistinctIds(RowsOf(nodes)) && k < |nodes| && |before| == |nodes|
    requires forall i :: 0 <= i < |nodes| && nodes[i] != nodes[k] ==> before[i] == Span(nodes[i].lft, nodes[i].rgt)
    ensures Spans(nodes) == before[k := Span(nodes[k].lft, nodes[k].rgt)]
  {
    forall i | 0 <= i < |nodes| && i != k ensures nodes[i] != nodes[k] {
      assert RowsOf(nodes)[i].id == nodes[i].id && RowsOf(nodes)[k].id == nodes[k].id;
    }
  }

  class Walk {
    const nodes: seq<Node>
    const byParent: Groups
    var counter: int
    var visited: set<Id>

    ghost predicate Valid()
      reads this
    {
      && DistinctIds(RowsOf(nodes))
      && (forall p :: Grouped(nodes, byParent, p))
      && Consistent(RowsOf(nodes), visited)
    }

    ghost function At(): Progress
      reads this, nodes
    {
      Progress(visited, counter, Spans(nodes))
    }

    constructor (nodes: seq<Node>, byParent: Groups)
      requires DistinctIds(RowsOf(nodes)) && forall p :: Grouped(nodes, byParent, p)
      ensures Valid() && this.nodes == nodes && counter == 1 && visited == {}
    {
      this.nodes, this.byParent, this.counter, this.visited := nodes, byParent, 1, {};
    }

    method Open(child: Node, ghost k: nat)
      requires DistinctIds(RowsOf(nodes)) && k < |nodes| && nodes[k] == child
      modifies this, child
      ensures visited == old(visited) + {child.id} && counter == old(counter) + 1
      ensures child.lft == old(counter) && Spans(nodes) == old(Spans(nodes))[k := Span(child.lft, child.rgt)]
    {
      visited := visited + {child.id};
      child.lft := counter;
      counter := counter + 1;
      NodeWrite(nodes, k, old(Spans(nodes)));
    }

    method Close(child: Node, ghost k: nat)
      requires DistinctIds(RowsOf(nodes)) && k < |nodes| && nodes[k] == child
      modifies this, child
      ensures visited == old(visited) && counter == old(counter) + 1
      ensures Spans(nodes) == old(Spans(nodes))[k := Span(old(Spans(nodes))[k].lft, old(counter))]
    {
      child.rgt := counter;
      counter := counter + 1;
      NodeWrite(nodes, k, old(Spans(nodes)));
    }

    /** One turn of the sibling loop: number a child around the walk of its own children. */
    method VisitChild(child: Node, ghost k: nat, ghost parentId: Option<Id>) returns (ghost tree: Forest)
      requires Valid() && k < |nodes| && nodes[k] == child && child.id !in visited
      requires HasParent(RowsOf(nodes), child.id, parentId)
      requires parentId.Some? ==> parentId.value in visited
      modifies this, nodes
      ensures Valid()
      ensures tree.Cons? && tree.rest == Nil && Walked(RowsOf(nodes), [child.id], tree, old(At()), At())
      decreases IdsOf(RowsOf(nodes)) - visited, 0
    {
      ghost var rows := RowsOf(nodes);
      ghost var from := At();
      assert rows[k].id == child.id;
      OpenConsistent(rows, visited, child.id, parentId);
      Open(child, k);
      ghost var entered := Span(from.counter, child.rgt);
      assert At() == Progress(from.visited + {child.id}, from.counter + 1, from.spans[k := entered]);
      ghost var g := Visit(Some(child.id));
      ghost var mid := At();
      Close(child, k);
      tree := Cons(child.id, g, Nil);
      WalkedChild(rows, k, parentId, g, from, entered, mid, At());
    }

    method Visit(parentId: Option<Id>) returns (ghost f: Forest)
      requires Valid()
      requires parentId.Some? ==> parentId.value in visited
      requires forall id :: id in visited ==> !HasParent(RowsOf(nodes), id, parentId)
      modifies this, nodes
      ensures Valid()
      ensures Walked(RowsOf(nodes), ChildIds(RowsOf(nodes), parentId), f, old(At()), At())
      decreases IdsOf(RowsOf(nodes)) - visited, 1
    {
      ghost var rows := RowsOf(nodes);
      ghost var ids := ChildIds(rows, parentId);
      ghost var from := At();
      var children := Group(byParent, parentId);
      assert Grouped(nodes, byParent, parentId);
      f := Nil;
      var k := 0;
      while k < |children|
        invariant 0 <= k <= |children|
        invariant Valid()
        invariant Walked(rows, ids[..k], f, from, At())
      {
        var child := children[k];
        NextChildIsNew(rows, parentId, k, f, from, At());
        ghost var i :| 0 <= i < |nodes| && nodes[i] == child;
        ghost var mid := At();
        ghost var tree := VisitChild(child, i, parentId);
        WalkedNext(rows, ids, k, f, tree, from, mid, At());
        f := Append(f, tree);
        k := k + 1;
      }
      assert ids[..|ids|] == ids;
    }
  }

  /** The numbering as a map from ids. */
  ghost function SpanMap(rows: seq<Row>, spans: seq<Span>): map<Id, Span>
    requires DistinctIds(rows) && |rows| == |spans|
  {
    map i | 0 <= i < |rows| :: rows[i].id := spans[i]
  }

  lemma {:induction false} PaintedIsNumbered(rows: seq<Row>, before: seq<Span>, after: seq<Span>, f: Forest)
    requires DistinctIds(rows) && WalkOf(rows, f) && Ids(f) == IdsOf(rows) && Painted(rows, before, after, f, 1)
    ensures Numbered(rows, SpanMap(rows, after))
  {
    var m := SpanMap(rows, after);
    assert m.Keys == IdsOf(rows);
    forall a | a in m ensures m[a] == SpanIn(f, 1, a) {
      var i :| 0 <= i < |rows| && rows[i].id == a;
      assert m[rows[i].id] == after[i];
    }
    assert NumberedBy(rows, m, f);
  }

  ghost predicate ListsOrphans(rows: seq<Row>, orphans: seq<Id>) {
    forall id :: id in orphans <==> id in IdsOf(rows) && !ReachesRoot(rows, id)
  }

  method Unvisited(nodes: seq<Node>, visited: set<Id>) returns (orphans: seq<Id>)
    ensures forall id :: id in orphans <==> id in IdsOf(RowsOf(nodes)) - visited
  {
    ghost var rows := RowsOf(nodes);
    orphans := [];
    for n := 0 to |nodes|
      invariant forall id :: id in orphans <==> id in IdsOf(rows[..n]) - visited
    {
      assert IdsOf(rows[..n + 1]) == IdsOf(rows[..n]) + {nodes[n].id} by {
        assert rows[..n + 1] == rows[..n] + [rows[n]];
        assert forall i :: 0 <= i < n ==> rows[..n + 1][i] == rows[..n][i];
        assert rows[..n + 1][n].id == nodes[n].id;
      }
      if nodes[n].id !in visited {
        orphans := orphans + [nodes[n].id];
      }
    }
    assert rows[..|nodes|] == rows;
  }

  /** Rebuilds in place. The error lists the ids whose parent chain never reaches a root. */
  method RebuildNestedSet(nodes: seq<Node>) returns (r: Result<seq<Node>, seq<Id>>)
    requires DistinctIds(RowsOf(nodes))
    modifies nodes
    ensures r.Ok? <==> AllRooted(RowsOf(nodes))
    ensures r.Ok? ==> r.value == nodes && Numbered(RowsOf(nodes), SpanMap(RowsOf(nodes), Spans(nodes)))
    ensures r.Err? ==> r.error != [] && ListsOrphans(RowsOf(nodes), r.error)
  {
    ghost var rows := RowsOf(nodes);
    var byParent := GroupByParent(nodes);
    var walk := new Walk(nodes, byParent);
    ghost var f := walk.Visit(None);
    assert WalkOf(rows, f);
    var orphans := Unvisited(nodes, walk.visited);
    forall id: Id ensures id in Ids(f) <==> ReachesRoot(rows, id) {
      WalkVisitsRooted(rows, f, id);
    }
    if orphans != [] {
      assert orphans[0] in orphans && orphans[0] in IdsOf(rows);
      return Err(orphans);
    }
    forall id | id in IdsOf(rows) ensures id in walk.visited {
      assert id !in orphans;
    }
    assert Ids(f) == walk.visited == IdsOf(rows);
    PaintedIsNumbered(rows, old(Spans(nodes)), Spans(nodes), f);
    return Ok(nodes);
  }

  method MirrorOf(entities: seq<Node>) returns (mirrors: seq<Node>)
    ensures RowsOf(mirrors) == RowsOf(entities)
    ensures forall i :: 0 <= i < |mirrors| ==> fresh(mirrors[i])
  {
    mirrors := [];
    for n := 0 to |entities|
      invariant |mirrors| == n && RowsOf(mirrors) == RowsOf(entities)[..n]
      invariant forall i :: 0 <= i < n ==> fresh(mirrors[i])
    {
      var e := entities[n];
      var mirror := new Node(e.id, e.parentId, e.lft, e.rgt);
      mirrors := mirrors + [mirror];
    }
  }

  /** Copies the mirrors' numbers onto the entities, found by id. */
  method WriteBack(entities: seq<Node>, mirrors: seq<Node>)
    requires RowsOf(mirrors) == RowsOf(entities) && DistinctIds(RowsOf(entities))
    requires forall i, j :: 0 <= i < |entities| && 0 <= j < |mirrors| ==> entities[i] != mirrors[j]
    modifies entities
    ensures Spans(entities) == old(Spans(mirrors))
  {
    ghost var rows := RowsOf(entities);
    var byId := IndexById(mirrors);
    for n := 0 to |entities|
      invariant forall i :: 0 <= i < |mirrors| ==>
                mirrors[i].lft == old(mirrors[i].lft) && mirrors[i].rgt == old(mirrors[i].rgt)
      invariant forall i :: 0 <= i < n ==> entities[i].lft == mirrors[i].lft && entities[i].rgt == mirrors[i].rgt
    {
      var e := entities[n];
      assert e.id == rows[n].id;
      assert forall i :: 0 <= i < n ==> entities[i].id == rows[i].id;
      if e.id in byId {
        e.lft := byId[e.id].lft;
        e.rgt := byId[e.id].rgt;
      }
    }
  }

  method IndexById(mirrors: seq<Node>) returns (byId: map<Id, Node>)
    requires DistinctIds(RowsOf(mirrors))
    ensures forall i :: 0 <= i < |mirrors| ==>
            RowsOf(mirrors)[i].id in byId && byId[RowsOf(mirrors)[i].id] == mirrors[i]
  {
    ghost var rows := RowsOf(mirrors);
    byId := map[];
    for n := 0 to |mirrors|
      invariant forall i :: 0 <= i < n ==> rows[i].id in byId && byId[rows[i].id] == mirrors[i]
    {
      byId := byId[mirrors[n].id := mirrors[n]];
    }
  }

  /** Works on mirrors and writes back only after success: a failed rebuild changes no entity. */
  method RebuildNestedSetFor(entities: seq<Node>) returns (r: Result<seq<Node>, seq<Id>>)
    requires DistinctIds(RowsOf(entities))
    modifies entities
    ensures r.Ok? <==> AllRooted(RowsOf(entities))
    ensures r.Ok? ==> r.value == entities && Numbered(RowsOf(entities), SpanMap(RowsOf(entities), Spans(entities)))
    ensures r.Err? ==> ListsOrphans(RowsOf(entities), r.error) && Spans(entities) == old(Spans(entities))
  {
    ghost var rows := RowsOf(entities);
    var mirrors := MirrorOf(entities);
    var rebuilt := RebuildNestedSet(mirrors);
    if rebuilt.Err? {
      return Err(rebuilt.error);
    }
    WriteBack(entities, mirrors);
    return Ok(entities);
  }
}
