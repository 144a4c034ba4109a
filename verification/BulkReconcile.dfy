/**
 Bulk update as a reconcile to a desired state: items without an id are created, items with one
 are merged onto their row, and rows in scope that were not sent are soft-deleted. The loading
 of the rows to update runs concurrently with the soft-delete, so the schedule is an input.
 The deletion columns are columns like any other: an item or a filter may carry them.
 */
module BulkReconcile {
  import opened Options

  type Id = string

  datatype Value = Null | Flag(b: bool) | Time(at: int) | Text(s: string)

  /** The columns the reconcile itself writes or reads, and all the others. */
  datatype Name = IsDeleted | DeletedAt | DeletedBy | DeletedReason | CreatedBy | UpdatedBy | Other(name: string)

  /** Columns by name; a column that is missing was not given. */
  type Fields = map<Name, Value>
  type Row = Fields

  datatype Item = Item(id: Option<Id>, fields: Fields)

  type Table = map<Id, Row>

  const RECONCILE_REASON := "delete with bulk reconcile"

  /** The soft-delete filter: what a live row looks like, and what the columns default to. */
  const NOT_DELETED: Fields := map[IsDeleted := Flag(false), DeletedAt := Null]

  predicate Matches(row: Row, filter: Fields) {
    forall c :: c in filter ==> c in row && row[c] == filter[c]
  }

  predicate Live(row: Row) {
    Matches(row, NOT_DELETED)
  }

  function Audit(user: Option<string>, created: bool): Fields {
    if user.None? then map[]
    else if created then map[CreatedBy := Text(user.value), UpdatedBy := Text(user.value)]
    else map[UpdatedBy := Text(user.value)]
  }

  /** The filter overrides what the item says, and the audit columns override both. */
  function NewRow(data: Fields, filter: Fields, user: Option<string>): Row {
    NOT_DELETED + data + filter + Audit(user, true)
  }

  function Merged(row: Row, patch: Fields, user: Option<string>): Row {
    row + patch + Audit(user, false)
  }

  function Stamp(user: Option<string>, now: int): Fields {
    map[IsDeleted := Flag(true), DeletedAt := Time(now), DeletedReason := Text(RECONCILE_REASON)] +
    if user.Some? then map[DeletedBy := Text(user.value)] else map[]
  }

  function Stamped(row: Row, user: Option<string>, now: int): Row {
    row + Stamp(user, now)
  }

  function Lookup(t: Table, k: Id): Option<Row> {
    if k in t then Some(t[k]) else None
  }

  // ---------------------------------------------------------------- the desired state

  function SentIds(items: seq<Item>): set<Id> {
    set i | 0 <= i < |items| && items[i].id.Some? :: items[i].id.value
  }

  /** What the items say about an id; of several items with the same id, the last is saved last. */
  function Patch(items: seq<Item>, k: Id): (r: Option<Fields>)
    ensures r.Some? <==> k in SentIds(items)
  {
    if items == [] then None
    else
      var n := |items| - 1;
      SentNext(items, n);
      assert items[..n + 1] == items;
      if items[n].id == Some(k) then Some(items[n].fields) else Patch(items[..n], k)
  }

  lemma {:induction false} SentNext(items: seq<Item>, n: nat)
    requires n < |items|
    ensures SentIds(items[..n + 1]) == SentIds(items[..n]) + if items[n].id.Some? then {items[n].id.value} else {}
  {
    var a, b := items[..n + 1], items[..n];
    assert forall i :: 0 <= i < n ==> a[i] == b[i];
    assert a[n] == items[n];
  }

  function ToCreate(items: seq<Item>): seq<Fields> {
    if items == [] then []
    else
      var n := |items| - 1;
      ToCreate(items[..n]) + if items[n].id.None? then [items[n].fields] else []
  }

  /** One request: the items, the scope, who asks, and the ids the inserts will be given. */
  datatype Request = Request(
    items: seq<Item>, filter: Fields, user: Option<string>, skipDelete: bool, now: int, draws: seq<Id>)

  ghost predicate Drawable(t: Table, q: Request) {
    && |q.draws| == |ToCreate(q.items)|
    && (forall i, j :: 0 <= i < j < |q.draws| ==> q.draws[i] != q.draws[j])
    && forall i :: 0 <= i < |q.draws| ==> q.draws[i] !in t
  }

  /** What is fetched for the diff: the filter, overridden by the soft-delete filter. */
  function Scope(q: Request): Fields {
    q.filter + NOT_DELETED
  }

  predicate InScope(t: Table, q: Request, k: Id) {
    k in t && Matches(t[k], Scope(q))
  }

  /** In scope and not sent. */
  predicate Dropped(t: Table, q: Request, k: Id) {
    !q.skipDelete && InScope(t, q, k) && k !in SentIds(q.items)
  }

  /** The row every id ends with. */
  ghost predicate Reconciled(t: Table, t': Table, q: Request)
    requires |q.draws| == |ToCreate(q.items)|
  {
    && (forall i :: 0 <= i < |q.draws| ==>
          Lookup(t', q.draws[i]) == Some(NewRow(ToCreate(q.items)[i], q.filter, q.user)))
    && forall k :: k !in q.draws ==> Lookup(t', k) == RowAfter(t, q, k)
  }

  function RowAfter(t: Table, q: Request, k: Id): Option<Row> {
    if k !in t then None
    else if k in SentIds(q.items) then Some(Merged(t[k], Patch(q.items, k).value, q.user))
    else if Dropped(t, q, k) then Some(Stamped(t[k], q.user, q.now))
    else Some(t[k])
  }

  // ---------------------------------------------------------------- the repository

  /** A loaded row with an item merged onto it, ready to be saved. */
  datatype Preloaded = Preloaded(id: Id, row: Row)

  class Repository {
    var rows: Table

    constructor (rows: Table)
      ensures this.rows == rows
    {
      this.rows := rows;
    }

    /** `preload`: the row of the item with the item merged on; nothing if there is no such row. */
    function Preload(item: Item, user: Option<string>): Option<Preloaded>
      reads this
      requires item.id.Some?
    {
      if item.id.value in rows then Some(Preloaded(item.id.value, Merged(rows[item.id.value], item.fields, user)))
        else None
    }

    /** Soft-deletes the given ids, scoped to rows still live so that an old stamp survives. */
    method DeleteBulk(ids: set<Id>, user: Option<string>, now: int)
      modifies this
      ensures rows.Keys == old(rows.Keys)
      ensures forall k :: k in rows ==>
                rows[k] == if k in ids && Live(old(rows[k])) then Stamped(old(rows[k]), user, now) else old(rows[k])
    {
      rows := map k | k in rows :: if k in ids && Live(rows[k]) then Stamped(rows[k], user, now) else rows[k];
    }

    method SaveCreated(data: seq<Fields>, filter: Fields, user: Option<string>, draws: seq<Id>)
      requires |draws| == |data| && forall i, j :: 0 <= i < j < |draws| ==> draws[i] != draws[j]
      modifies this
      ensures forall i :: 0 <= i < |draws| ==> Lookup(rows, draws[i]) == Some(NewRow(data[i], filter, user))
      ensures forall k :: k !in draws ==> Lookup(rows, k) == Lookup(old(rows), k)
    {
      for n := 0 to |data|
        invariant forall i :: 0 <= i < n ==> Lookup(rows, draws[i]) == Some(NewRow(data[i], filter, user))
        invariant forall k :: k !in draws ==> Lookup(rows, k) == Lookup(old(rows), k)
      {
        ghost var before := rows;
        rows := rows[draws[n] := NewRow(data[n], filter, user)];
        assert forall k :: k != draws[n] ==> Lookup(rows, k) == Lookup(before, k);
      }
    }

    /** Saves what was loaded, in order; an item whose row did not exist was filtered out. */
    method SaveUpdated(ghost t: Table, toUpdate: seq<Item>, loaded: seq<Option<Preloaded>>, ghost user: Option<string>)
      requires |loaded| == |toUpdate| && forall i :: 0 <= i < |toUpdate| ==> LoadedFrom(t, toUpdate[i], user, loaded[i])
      modifies this
      ensures forall k :: Lookup(rows, k) == Overlaid(t, Lookup(old(rows), k), toUpdate, user, k)
    {
      for n := 0 to |toUpdate|
        invariant forall k :: Lookup(rows, k) == Overlaid(t, Lookup(old(rows), k), toUpdate[..n], user, k)
      {
        ghost var before := rows;
        if loaded[n].Some? {
          rows := rows[loaded[n].value.id := loaded[n].value.row];
        }
        ghost var upto := toUpdate[..n + 1];
        forall k ensures Lookup(rows, k) == Overlaid(t, Lookup(old(rows), k), upto, user, k) {
          OverlaidNext(t, Lookup(old(rows), k), toUpdate, n, user, loaded[n], k);
          assert Lookup(before, k) == Overlaid(t, Lookup(old(rows), k), toUpdate[..n], user, k);
        }
      }
      assert toUpdate[..|toUpdate|] == toUpdate;
    }

    /** Loads the items whose index is in `which` into their places. */
    method PreloadSome(toUpdate: seq<Item>, user: Option<string>, which: set<nat>, loaded: seq<Option<Preloaded>>)
      returns (r: seq<Option<Preloaded>>)
      requires |loaded| == |toUpdate| && forall i :: 0 <= i < |toUpdate| ==> toUpdate[i].id.Some?
      ensures |r| == |toUpdate|
      ensures forall i :: 0 <= i < |r| ==> r[i] == if i in which then Preload(toUpdate[i], user) else loaded[i]
    {
      r := loaded;
      for n := 0 to |toUpdate|
        invariant |r| == |toUpdate|
        invariant forall i :: 0 <= i < |r| ==>
                  r[i] == if i < n && i in which then Preload(toUpdate[i], user) else loaded[i]
      {
        if n in which {
          r := r[n := Preload(toUpdate[n], user)];
        }
      }
    }

    /** The rows to update are loaded and the dropped rows soft-deleted in either order, per item. */
    method LoadAndDelete(toUpdate: seq<Item>, user: Option<string>, idsToDelete: set<Id>, now: int, early: set<nat>)
      returns (loaded: seq<Option<Preloaded>>)
      requires forall i :: 0 <= i < |toUpdate| ==> toUpdate[i].id.Some? && toUpdate[i].id.value !in idsToDelete
      modifies this
      ensures |loaded| == |toUpdate|
      ensures forall i :: 0 <= i < |toUpdate| ==> LoadedFrom(old(rows), toUpdate[i], user, loaded[i])
      ensures rows.Keys == old(rows.Keys)
      ensures forall k :: k in rows ==>
                rows[k] == if k in idsToDelete && Live(old(rows[k])) then Stamped(old(rows[k]), user, now)
                  else old(rows[k])
    {
      ghost var t := rows;
      var late := set i: nat | i < |toUpdate| && i !in early;
      loaded := seq(|toUpdate|, _ => None);
      loaded := PreloadSome(toUpdate, user, early, loaded);
      if idsToDelete != {} {
        DeleteBulk(idsToDelete, user, now);
      }
      loaded := PreloadSome(toUpdate, user, late, loaded);
    }

    /** The whole reconcile. `early` picks the items whose row is loaded before the soft-delete runs. */
    method UpdateBulk(q: Request, early: set<nat>)
      requires Drawable(rows, q)
      modifies this
      ensures if q.items == [] then rows == old(rows) else Reconciled(old(rows), rows, q)
    {
      if q.items == [] {
        return;
      }
      ghost var t := rows;
      var existing := if q.skipDelete then {} else set k | k in rows && Matches(rows[k], Scope(q));
      var toCreate, toUpdate, incomingIds := CategorizeIncomingData(q.items);
      var idsToDelete := existing - incomingIds;
      SentByUpdates(q.items);
      assert forall k :: k in idsToDelete <==> Dropped(t, q, k);
      var loaded := LoadAndDelete(toUpdate, q.user, idsToDelete, q.now, early);
      ghost var afterDelete := rows;
      SaveCreated(toCreate, q.filter, q.user, q.draws);
      ghost var afterCreate := rows;
      SaveUpdated(t, toUpdate, loaded, q.user);
      StepsReconcile(t, afterDelete, afterCreate, rows, q);
    }
  }

  /** The three writes of a reconcile, together: the soft-delete, the inserts, the updates. */
  lemma {:induction false} StepsReconcile(t: Table, deleted: Table, created: Table, t': Table, q: Request)
    requires Drawable(t, q) && deleted.Keys == t.Keys
    requires forall k :: k in deleted ==>
               deleted[k] == if Dropped(t, q, k) && Live(t[k]) then Stamped(t[k], q.user, q.now) else t[k]
    requires forall i :: 0 <= i < |q.draws| ==>
               Lookup(created, q.draws[i]) == Some(NewRow(ToCreate(q.items)[i], q.filter, q.user))
    requires forall k :: k !in q.draws ==> Lookup(created, k) == Lookup(deleted, k)
    requires forall k :: Lookup(t', k) == Overlaid(t, Lookup(created, k), ToUpdate(q.items), q.user, k)
    ensures Reconciled(t, t', q)
  {
    PatchOfUpdates(q.items);
    forall i | 0 <= i < |q.draws|
      ensures Lookup(t', q.draws[i]) == Some(NewRow(ToCreate(q.items)[i], q.filter, q.user))
    {
      assert q.draws[i] !in t;
    }
    forall k | k !in q.draws ensures Lookup(t', k) == RowAfter(t, q, k) {
      if Dropped(t, q, k) {
        ScopeIsLive(t, q, k);
      }
    }
  }

  lemma {:induction false} ScopeIsLive(t: Table, q: Request, k: Id)
    requires InScope(t, q, k)
    ensures Live(t[k])
  {
    assert forall c :: c in NOT_DELETED ==> c in Scope(q) && Scope(q)[c] == NOT_DELETED[c];
  }

  ghost predicate LoadedFrom(t: Table, item: Item, user: Option<string>, r: Option<Preloaded>) {
    && item.id.Some?
    && r == if item.id.value in t then Some(Preloaded(item.id.value, Merged(t[item.id.value], item.fields, user)))
       else None
  }

  /** `base` with the rows of `t` that the items name replaced by their merge. */
  ghost function Overlaid(t: Table, base: Option<Row>, items: seq<Item>, user: Option<string>, k: Id): Option<Row> {
    if k in t && Patch(items, k).Some? then Some(Merged(t[k], Patch(items, k).value, user)) else base
  }

  lemma {:induction false} PatchNext(items: seq<Item>, n: nat)
    requires n < |items|
    ensures forall k :: Patch(items[..n + 1], k) ==
              if items[n].id == Some(k) then Some(items[n].fields) else Patch(items[..n], k)
  {
    assert items[..n + 1][..n] == items[..n];
  }

  lemma {:induction false} OverlaidNext(
    t: Table, base: Option<Row>, items: seq<Item>, n: nat, user: Option<string>, loaded: Option<Preloaded>, k: Id)
    requires n < |items| && LoadedFrom(t, items[n], user, loaded)
    ensures Overlaid(t, base, items[..n + 1], user, k) ==
            if loaded.Some? && loaded.value.id == k then Some(loaded.value.row)
              else Overlaid(t, base, items[..n], user, k)
  {
    PatchNext(items, n);
  }

  function ToUpdate(items: seq<Item>): seq<Item> {
    if items == [] then []
    else
      var n := |items| - 1;
      ToUpdate(items[..n]) + if items[n].id.Some? then [items[n]] else []
  }

  method CategorizeIncomingData(items: seq<Item>)
    returns (toCreate: seq<Fields>, toUpdate: seq<Item>, incomingIds: set<Id>)
    ensures toCreate == ToCreate(items) && toUpdate == ToUpdate(items) && incomingIds == SentIds(items)
  {
    toCreate, toUpdate, incomingIds := [], [], {};
    for n := 0 to |items|
      invariant toCreate == ToCreate(items[..n]) && toUpdate == ToUpdate(items[..n]) &&
                incomingIds == SentIds(items[..n])
    {
      var item := items[n];
      SentNext(items, n);
      assert items[..n + 1][..n] == items[..n];
      if item.id.Some? {
        incomingIds := incomingIds + {item.id.value};
        toUpdate := toUpdate + [item];
      } else {
        toCreate := toCreate + [item.fields];
      }
    }
    assert items[..|items|] == items;
  }

  lemma {:induction false} SentByUpdates(items: seq<Item>)
    ensures forall i :: 0 <= i < |ToUpdate(items)| ==>
              ToUpdate(items)[i].id.Some? && ToUpdate(items)[i].id.value in SentIds(items)
  {
    if items != [] {
      var n := |items| - 1;
      SentByUpdates(items[..n]);
      SentNext(items, n);
      assert items[..n + 1] == items;
    }
  }

  lemma {:induction false} PatchOfUpdates(items: seq<Item>)
    ensures forall k :: Patch(ToUpdate(items), k) == Patch(items, k)
  {
    if items != [] {
      var n := |items| - 1;
      var prev := ToUpdate(items[..n]);
      PatchOfUpdates(items[..n]);
      if items[n].id.Some? {
        assert ToUpdate(items) == prev + [items[n]] && (prev + [items[n]])[..|prev|] == prev;
      } else {
        assert ToUpdate(items) == prev + [] == prev;
      }
    }
  }

  // ---------------------------------------------------------------- what a reconcile leaves

  ghost function ScopeIds(t: Table, q: Request): set<Id> {
    set k | k in t && InScope(t, q, k)
  }

  ghost function DrawnIds(q: Request): set<Id> {
    set i | 0 <= i < |q.draws| :: q.draws[i]
  }

  /** The audit columns are not part of the scope. */
  ghost predicate FilterIsPlain(q: Request) {
    CreatedBy !in q.filter && UpdatedBy !in q.filter
  }

  lemma {:induction false} SentRow(t: Table, t': Table, q: Request, k: Id)
    requires Drawable(t, q) && Reconciled(t, t', q) && k in t
    ensures k !in q.draws && k in t'
    ensures t'[k] == if k in SentIds(q.items) then Merged(t[k], Patch(q.items, k).value, q.user)
                     else if Dropped(t, q, k) then Stamped(t[k], q.user, q.now) else t[k]
  {
    assert Lookup(t', k) == RowAfter(t, q, k);
  }

  lemma {:induction false} DrawnRow(t: Table, t': Table, q: Request, i: nat)
    requires Drawable(t, q) && Reconciled(t, t', q) && i < |q.draws|
    ensures q.draws[i] in t' && t'[q.draws[i]] == NewRow(ToCreate(q.items)[i], q.filter, q.user)
  {
    assert Lookup(t', q.draws[i]) == Some(NewRow(ToCreate(q.items)[i], q.filter, q.user));
  }

  /** The audit columns do not decide about a scope that leaves them out. */
  lemma {:induction false} AuditIsIrrelevant(row: Fields, q: Request, created: bool)
    requires FilterIsPlain(q)
    ensures Matches(row + Audit(q.user, created), Scope(q)) <==> Matches(row, Scope(q))
  {
    assert forall c :: c in Scope(q) ==> c !in Audit(q.user, created);
    assert forall c :: c in Scope(q) ==>
             (c in row + Audit(q.user, created) <==> c in row) &&
               (c in row ==> (row + Audit(q.user, created))[c] == row[c]);
  }

  /** A new row joins the scope exactly when neither its data nor the filter declares it deleted. */
  ghost predicate BornLive(q: Request, data: Fields) {
    forall c :: c in NOT_DELETED ==>
      if c in q.filter then q.filter[c] == NOT_DELETED[c] else c in data ==> data[c] == NOT_DELETED[c]
  }

  lemma {:induction false} BornInScope(q: Request, data: Fields)
    requires FilterIsPlain(q)
    ensures Matches(NewRow(data, q.filter, q.user), Scope(q)) <==> BornLive(q, data)
  {
    AuditIsIrrelevant(NOT_DELETED + data + q.filter, q, true);
    var row := NOT_DELETED + data + q.filter;
    assert forall c :: c in NOT_DELETED ==> c in Scope(q) && Scope(q)[c] == NOT_DELETED[c];
    assert forall c :: c in q.filter && c !in NOT_DELETED ==> row[c] == Scope(q)[c];
  }

  ghost predicate JoinsNew(q: Request, k: Id)
    requires |q.draws| == |ToCreate(q.items)|
  {
    exists i :: 0 <= i < |q.draws| && q.draws[i] == k && BornLive(q, ToCreate(q.items)[i])
  }

  /** A row, deleted or not, that what is sent for it puts in scope. */
  ghost predicate StaysSent(t: Table, q: Request, k: Id) {
    k in t && k in SentIds(q.items) && Matches(t[k] + Patch(q.items, k).value, Scope(q))
  }

  ghost predicate StaysUnsent(t: Table, q: Request, k: Id) {
    q.skipDelete && k !in SentIds(q.items) && InScope(t, q, k)
  }

  /** Which ids are live and in scope afterwards, for any items: new rows born live; sent rows, dead
      ones too, that what was sent puts in scope; and unsent rows where nothing is dropped. */
  lemma {:induction false} ScopeAfter(t: Table, t': Table, q: Request, k: Id)
    requires Drawable(t, q) && Reconciled(t, t', q) && FilterIsPlain(q)
    ensures InScope(t', q, k) <==> JoinsNew(q, k) || StaysSent(t, q, k) || StaysUnsent(t, q, k)
  {
    if k in t {
      ScopeAfterKnown(t, t', q, k);
    } else {
      ScopeAfterUnknown(t, t', q, k);
    }
  }

  lemma {:induction false} ScopeAfterUnknown(t: Table, t': Table, q: Request, k: Id)
    requires Drawable(t, q) && Reconciled(t, t', q) && FilterIsPlain(q) && k !in t
    ensures InScope(t', q, k) <==> JoinsNew(q, k)
  {
    if k in q.draws {
      var i :| 0 <= i < |q.draws| && q.draws[i] == k;
      ScopeAfterDrawn(t, t', q, i);
      JoinsByDraw(t, q, i);
    } else {
      assert Lookup(t', k) == RowAfter(t, q, k);
    }
  }

  lemma {:induction false} ScopeAfterDrawn(t: Table, t': Table, q: Request, i: nat)
    requires Drawable(t, q) && Reconciled(t, t', q) && FilterIsPlain(q) && i < |q.draws|
    ensures InScope(t', q, q.draws[i]) <==> BornLive(q, ToCreate(q.items)[i])
  {
    DrawnRow(t, t', q, i);
    BornInScope(q, ToCreate(q.items)[i]);
  }

  lemma {:induction false} JoinsByDraw(t: Table, q: Request, i: nat)
    requires Drawable(t, q) && i < |q.draws|
    ensures JoinsNew(q, q.draws[i]) <==> BornLive(q, ToCreate(q.items)[i])
  {
    if JoinsNew(q, q.draws[i]) {
      var j :| 0 <= j < |q.draws| && q.draws[j] == q.draws[i] && BornLive(q, ToCreate(q.items)[j]);
      assert j == i;
    }
  }

  lemma {:induction false} ScopeAfterKnown(t: Table, t': Table, q: Request, k: Id)
    requires Drawable(t, q) && Reconciled(t, t', q) && FilterIsPlain(q) && k in t
    ensures k !in q.draws
    ensures InScope(t', q, k) <==> StaysSent(t, q, k) || StaysUnsent(t, q, k)
  {
    SentRow(t, t', q, k);
    if k in SentIds(q.items) {
      AuditIsIrrelevant(t[k] + Patch(q.items, k).value, q, false);
    } else if Dropped(t, q, k) {
      assert IsDeleted in Scope(q) && Scope(q)[IsDeleted] == Flag(false) && t'[k][IsDeleted] == Flag(true);
    }
  }

  /** The items with an id leave the columns of the scope alone. */
  ghost predicate LeavesFilterAlone(q: Request) {
    forall i, c :: 0 <= i < |q.items| && q.items[i].id.Some? && c in q.items[i].fields ==> c !in q.filter
  }

  /** Neither the items nor the filter carry the columns that say whether a row is deleted. */
  ghost predicate LeavesDeletionAlone(q: Request) {
    && (forall c :: c in NOT_DELETED ==> c !in q.filter)
    && forall i, c :: 0 <= i < |q.items| && c in NOT_DELETED ==> c !in q.items[i].fields
  }

  lemma {:induction false} PatchIsSent(items: seq<Item>, k: Id)
    requires k in SentIds(items)
    ensures exists i :: 0 <= i < |items| && items[i].id == Some(k) && items[i].fields == Patch(items, k).value
  {
    var n := |items| - 1;
    if items[n].id != Some(k) {
      SentNext(items, n);
      assert items[..n + 1] == items;
      PatchIsSent(items[..n], k);
      var i :| 0 <= i < n && items[..n][i].id == Some(k) && items[..n][i].fields == Patch(items[..n], k).value;
      assert items[i] == items[..n][i];
    }
  }

  lemma {:induction false} CreatedIsSent(items: seq<Item>, i: nat)
    requires i < |ToCreate(items)|
    ensures exists j :: 0 <= j < |items| && items[j].id.None? && items[j].fields == ToCreate(items)[i]
  {
    var n := |items| - 1;
    if i < |ToCreate(items[..n])| {
      CreatedIsSent(items[..n], i);
      var j :| 0 <= j < n && items[..n][j].id.None? && items[..n][j].fields == ToCreate(items[..n])[i];
      assert items[j] == items[..n][j];
    }
  }

  /** What is sent for a row does not move it in or out of scope. */
  lemma {:induction false} PatchKeepsScope(q: Request, k: Id, row: Row)
    requires LeavesFilterAlone(q) && LeavesDeletionAlone(q) && k in SentIds(q.items)
    ensures Matches(row + Patch(q.items, k).value, Scope(q)) <==> Matches(row, Scope(q))
  {
    PatchIsSent(q.items, k);
    var patch := Patch(q.items, k).value;
    assert forall c :: c in Scope(q) ==> c !in patch;
    assert forall c :: c in Scope(q) ==> (c in row + patch <==> c in row) && (c in row ==> (row + patch)[c] == row[c]);
  }

  /** Nothing that is sent creates a dead row, or moves a row in or out of scope. */
  ghost predicate MovesNothing(t: Table, q: Request)
    requires |q.draws| == |ToCreate(q.items)|
  {
    && (forall i :: 0 <= i < |q.draws| ==> BornLive(q, ToCreate(q.items)[i]))
    && forall k :: k in t && k in SentIds(q.items) ==> (StaysSent(t, q, k) <==> InScope(t, q, k))
  }

  ghost function DesiredIds(t: Table, q: Request): set<Id> {
    ScopeIds(t, q) * SentIds(q.items) + DrawnIds(q)
  }

  lemma {:induction false} DesiredIffScope(t: Table, t': Table, q: Request, k: Id)
    requires Drawable(t, q) && Reconciled(t, t', q) && FilterIsPlain(q) && !q.skipDelete
    ensures k in t ==> ((k in ScopeIds(t', q) <==> k in DesiredIds(t, q)) <==>
                        (k in SentIds(q.items) ==> (StaysSent(t, q, k) <==> InScope(t, q, k))))
    ensures k !in t ==> (k in ScopeIds(t', q) <==> JoinsNew(q, k)) && (k in DesiredIds(t, q) <==> k in q.draws)
  {
    if k in t {
      ScopeAfterKnown(t, t', q, k);
    } else {
      ScopeAfterUnknown(t, t', q, k);
    }
  }

  /** The reconcile: what was in scope and sent stays, what is new joins, everything else is gone,
      exactly when nothing that is sent creates a dead row or moves a row in or out of scope. */
  lemma {:induction false} ReconcilesScopeIff(t: Table, t': Table, q: Request)
    requires Drawable(t, q) && Reconciled(t, t', q) && FilterIsPlain(q) && !q.skipDelete
    ensures ScopeIds(t', q) == DesiredIds(t, q) <==> MovesNothing(t, q)
  {
    if MovesNothing(t, q) {
      forall k ensures k in ScopeIds(t', q) <==> k in DesiredIds(t, q) {
        DesiredIffScope(t, t', q, k);
        if i :| 0 <= i < |q.draws| && q.draws[i] == k { JoinsByDraw(t, q, i); }
      }
    } else if i :| 0 <= i < |q.draws| && !BornLive(q, ToCreate(q.items)[i]) {
      DesiredIffScope(t, t', q, q.draws[i]);
      JoinsByDraw(t, q, i);
    } else {
      var k :| k in t && k in SentIds(q.items) && !(StaysSent(t, q, k) <==> InScope(t, q, k));
      DesiredIffScope(t, t', q, k);
    }
  }

  /** In particular when the items leave the filter columns and the deletion columns alone. */
  lemma {:induction false} ReconcilesScope(t: Table, t': Table, q: Request)
    requires Drawable(t, q) && Reconciled(t, t', q) && FilterIsPlain(q) && !q.skipDelete
    requires LeavesFilterAlone(q) && LeavesDeletionAlone(q)
    ensures ScopeIds(t', q) == ScopeIds(t, q) * SentIds(q.items) + DrawnIds(q)
  {
    forall k | k in t && k in SentIds(q.items) ensures StaysSent(t, q, k) <==> InScope(t, q, k) {
      PatchKeepsScope(q, k, t[k]);
    }
    forall i | 0 <= i < |q.draws| ensures BornLive(q, ToCreate(q.items)[i]) {
      CreatedIsSent(q.items, i);
    }
    ReconcilesScopeIff(t, t', q);
  }

  // ---------------------------------------------------------------- rows that are not sent

  /** The row is not deleted. */
  predicate IsUndeleted(row: Row) {
    Column(row, IsDeleted) == Some(Flag(false)) && Column(row, DeletedAt) == Some(Null)
  }

  /** The row has the values of the filter, deletion columns aside. */
  ghost predicate FitsFilter(row: Row, filter: Fields) {
    forall c :: c in filter && !c.IsDeleted? && !c.DeletedAt? ==> Column(row, c) == Some(filter[c])
  }

  lemma {:induction false} LiveIff(row: Row)
    ensures Live(row) <==> IsUndeleted(row)
  {
    assert forall c :: c in NOT_DELETED <==> c.IsDeleted? || c.DeletedAt?;
  }

  /** To be in scope is to be undeleted and to fit the filter. */
  lemma {:induction false} InScopeIff(t: Table, q: Request, k: Id)
    ensures InScope(t, q, k) <==> k in t && IsUndeleted(t[k]) && FitsFilter(t[k], q.filter)
  {
    var scope := Scope(q);
    assert forall c :: c in scope <==> c in q.filter || c.IsDeleted? || c.DeletedAt?;
    assert scope[IsDeleted] == Flag(false) && scope[DeletedAt] == Null;
    assert forall c :: c in q.filter && !c.IsDeleted? && !c.DeletedAt? ==> scope[c] == q.filter[c];
    if k in t && IsUndeleted(t[k]) && FitsFilter(t[k], q.filter) {
      forall c | c in scope ensures c in t[k] && t[k][c] == scope[c] {
        assert c.IsDeleted? || c.DeletedAt? || Column(t[k], c) == Some(q.filter[c]);
      }
    }
  }

  /** A row that is not sent changes exactly when deletions are reconciled, it is undeleted and it fits
      the filter; then it ends deleted. A row that misses the filter in one column stays as it is. */
  lemma {:induction false} UnsentChangesIff(t: Table, t': Table, q: Request, k: Id)
    requires Drawable(t, q) && Reconciled(t, t', q) && k in t && k !in SentIds(q.items)
    ensures k in t'
    ensures t'[k] != t[k] <==> !q.skipDelete && IsUndeleted(t[k]) && FitsFilter(t[k], q.filter)
    ensures t'[k] != t[k] ==>
              Column(t'[k], IsDeleted) == Some(Flag(true)) && Column(t'[k], DeletedAt) == Some(Time(q.now))
  {
    SentRow(t, t', q, k);
    InScopeIff(t, q, k);
    if Dropped(t, q, k) {
      assert t'[k][IsDeleted] == Flag(true) && t'[k][DeletedAt] == Time(q.now);
    }
  }

  /** Of several items for one id, the last decides. */
  lemma {:induction false} LastItemDecides(items: seq<Item>, k: Id, i: nat)
    requires i < |items| && items[i].id == Some(k) && forall j :: i < j < |items| ==> items[j].id != Some(k)
    ensures Patch(items, k) == Some(items[i].fields)
  {
    var n := |items| - 1;
    if i < n {
      LastItemDecides(items[..n], k, i);
    }
  }

  /** Every item without an id is created, in the order in which they were sent. */
  lemma {:induction false} EachIsCreated(items: seq<Item>, i: nat)
    requires i < |items| && items[i].id.None?
    ensures var at := |ToCreate(items[..i])|; at < |ToCreate(items)| && ToCreate(items)[at] == items[i].fields
  {
    var n := |items| - 1;
    if i < n {
      EachIsCreated(items[..n], i);
      assert items[..n][..i] == items[..i];
    }
  }

  // ---------------------------------------------------------------- deletion stamps

  function Column(row: Row, c: Name): Option<Value> {
    if c in row then Some(row[c]) else None
  }

  predicate IsStampColumn(c: Name) {
    c.IsDeleted? || c.DeletedAt? || c.DeletedBy? || c.DeletedReason?
  }

  ghost predicate SameStamp(a: Row, b: Row) {
    forall c :: IsStampColumn(c) ==> Column(a, c) == Column(b, c)
  }

  /** What is sent says nothing new about the deletion of a row. */
  ghost predicate KeepsStamp(row: Row, patch: Fields) {
    forall c :: IsStampColumn(c) && c in patch ==> Column(row, c) == Some(patch[c])
  }

  /** A row already deleted keeps its first stamp exactly when nothing sent for it changes the stamp. */
  lemma {:induction false} KeepsFirstStampIff(t: Table, t': Table, q: Request, k: Id)
    requires Drawable(t, q) && Reconciled(t, t', q) && k in t && !Live(t[k])
    ensures k in t'
    ensures SameStamp(t[k], t'[k]) <==> (k in SentIds(q.items) ==> KeepsStamp(t[k], Patch(q.items, k).value))
  {
    SentRow(t, t', q, k);
    DeadIsNotDropped(t, q, k);
    if k in SentIds(q.items) {
      var patch := Patch(q.items, k).value;
      assert forall c :: IsStampColumn(c) ==>
             Column(t'[k], c) == if c in patch then Some(patch[c]) else Column(t[k], c);
    }
  }

  lemma {:induction false} DeadIsNotDropped(t: Table, q: Request, k: Id)
    requires k in t && !Live(t[k])
    ensures !InScope(t, q, k) && !Dropped(t, q, k)
  {
    var c :| c in NOT_DELETED && !(c in t[k] && t[k][c] == NOT_DELETED[c]);
    assert c in Scope(q) && Scope(q)[c] == NOT_DELETED[c];
  }

  /** A deleted row comes back exactly when what is sent for it says so. */
  lemma {:induction false} RevivedIff(t: Table, t': Table, q: Request, k: Id)
    requires Drawable(t, q) && Reconciled(t, t', q) && k in t && !Live(t[k])
    ensures k in t' && (Live(t'[k]) <==> k in SentIds(q.items) && Live(t[k] + Patch(q.items, k).value))
  {
    SentRow(t, t', q, k);
    DeadIsNotDropped(t, q, k);
    if k in SentIds(q.items) {
      var row := t[k] + Patch(q.items, k).value;
      assert forall c :: c in NOT_DELETED ==> Column(row + Audit(q.user, false), c) == Column(row, c);
    }
  }

  /** Where nothing sent carries the deletion columns: rows already deleted keep their stamp, no row
      disappears, and a live row dies exactly by being in scope and not sent. */
  lemma {:induction false} KeepsFirstStamp(t: Table, t': Table, q: Request, k: Id)
    requires Drawable(t, q) && Reconciled(t, t', q) && k in t
    requires forall i, c :: 0 <= i < |q.items| && IsStampColumn(c) ==> c !in q.items[i].fields
    ensures k in t'
    ensures !Live(t[k]) ==> SameStamp(t[k], t'[k]) && !Live(t'[k])
    ensures Live(t[k]) && !Live(t'[k]) <==> Live(t[k]) && Dropped(t, q, k)
  {
    SentRow(t, t', q, k);
    if k in SentIds(q.items) {
      PatchIsSent(q.items, k);
      PlainPatchKeeps(t[k], Patch(q.items, k).value, q.user);
    } else if !Live(t[k]) {
      DeadIsNotDropped(t, q, k);
    } else if Dropped(t, q, k) {
      assert t'[k][IsDeleted] == Flag(true) && NOT_DELETED[IsDeleted] == Flag(false);
    }
  }

  lemma {:induction false} PlainPatchKeeps(row: Row, patch: Fields, user: Option<string>)
    requires forall c :: IsStampColumn(c) ==> c !in patch
    ensures SameStamp(row, Merged(row, patch, user)) && Live(Merged(row, patch, user)) == Live(row)
  {
    var after := Merged(row, patch, user);
    forall c | IsStampColumn(c) ensures Column(row, c) == Column(after, c) {
      Over(row, patch, c);
      Over(row + patch, Audit(user, false), c);
    }
    assert forall c :: c in NOT_DELETED ==> IsStampColumn(c);
    assert forall c :: c in NOT_DELETED ==> Column(row, c) == Column(after, c);
  }

  /** A row that is sent takes what was sent for it and keeps the rest, and who asked is written down. */
  lemma {:induction false} SentColumns(t: Table, t': Table, q: Request, k: Id, c: Name)
    requires Drawable(t, q) && Reconciled(t, t', q) && k in t && k in SentIds(q.items)
    ensures k in t' && (q.user.Some? ==> Column(t'[k], UpdatedBy) == Some(Text(q.user.value)))
    ensures c != UpdatedBy || q.user.None? ==>
              var sent := Patch(q.items, k).value;
              Column(t'[k], c) == if c in sent then Some(sent[c]) else Column(t[k], c)
  {
    SentRow(t, t', q, k);
  }

  /** A row that is not sent keeps its columns, except for the stamp if it is dropped. */
  lemma {:induction false} UnsentColumns(t: Table, t': Table, q: Request, k: Id, c: Name)
    requires Drawable(t, q) && Reconciled(t, t', q) && k in t && k !in SentIds(q.items)
    ensures k in t' && (Dropped(t, q, k) ==> Matches(t'[k], Stamp(q.user, q.now)))
    ensures !(Dropped(t, q, k) && IsStampColumn(c)) ==> Column(t'[k], c) == Column(t[k], c)
  {
    SentRow(t, t', q, k);
    assert !IsStampColumn(c) ==> c !in Stamp(q.user, q.now);
  }

  /** A created row has the filter's columns even where its data said otherwise, its data's columns
      else, and is signed by who asked. */
  lemma {:induction false} CreatedColumns(t: Table, t': Table, q: Request, i: nat, c: Name)
    requires Drawable(t, q) && Reconciled(t, t', q) && i < |q.draws|
    ensures q.draws[i] in t'
    ensures var row, data := t'[q.draws[i]], ToCreate(q.items)[i];
            if q.user.Some? && (c.CreatedBy? || c.UpdatedBy?) then Column(row, c) == Some(Text(q.user.value))
            else if c in q.filter then Column(row, c) == Some(q.filter[c])
            else if c in data then Column(row, c) == Some(data[c])
            else Column(row, c) == Column(NOT_DELETED, c)
  {
    DrawnRow(t, t', q, i);
    NewRowColumn(ToCreate(q.items)[i], q.filter, q.user, c);
  }

  lemma {:induction false} NewRowColumn(data: Fields, filter: Fields, user: Option<string>, c: Name)
    ensures Column(NewRow(data, filter, user), c) ==
            if user.Some? && (c.CreatedBy? || c.UpdatedBy?) then Some(Text(user.value))
            else if c in filter then Some(filter[c])
            else if c in data then Some(data[c]) else Column(NOT_DELETED, c)
  {
    Over(NOT_DELETED, data, c);
    Over(NOT_DELETED + data, filter, c);
    Over(NOT_DELETED + data + filter, Audit(user, true), c);
  }

  lemma {:induction false} Over(a: Fields, b: Fields, c: Name)
    ensures Column(a + b, c) == if c in b then Some(b[c]) else Column(a, c)
  {
  }

  /** It is live exactly when neither its data nor the filter declares it deleted. */
  lemma {:induction false} CreatedLiveIff(t: Table, t': Table, q: Request, i: nat)
    requires Drawable(t, q) && Reconciled(t, t', q) && i < |q.draws|
    ensures q.draws[i] in t' && (Live(t'[q.draws[i]]) <==> BornLive(q, ToCreate(q.items)[i]))
  {
    DrawnRow(t, t', q, i);
    CreatedColumns(t, t', q, i, IsDeleted);
    CreatedColumns(t, t', q, i, DeletedAt);
    var row := t'[q.draws[i]];
    assert Live(row) <==> Column(row, IsDeleted) == Some(Flag(false)) && Column(row, DeletedAt) == Some(Null);
  }

  /** Sending back just the surviving ids deletes nothing and moves nothing in or out of scope. */
  lemma {:induction false} ResendIsIdle(t: Table, t': Table, t'': Table, q: Request, again: Request, k: Id)
    requires Drawable(t, q) && Reconciled(t, t', q)
    requires Drawable(t', again) && Reconciled(t', t'', again) && FilterIsPlain(again)
    requires again.filter == q.filter && SentIds(again.items) == ScopeIds(t', q)
    requires forall i :: 0 <= i < |again.items| ==> again.items[i].id.Some? && again.items[i].fields == map[]
    ensures k in t' ==> k in t'' && SameStamp(t'[k], t''[k]) && Live(t''[k]) == Live(t'[k])
    ensures InScope(t'', q, k) <==> InScope(t', q, k)
  {
    NoCreates(again.items);
    assert Scope(again) == Scope(q);
    if k in t' {
      SentRow(t', t'', again, k);
      if k in SentIds(again.items) {
        PatchIsSent(again.items, k);
        AuditKeeps(t'[k], again);
      }
    } else {
      assert Lookup(t'', k) == RowAfter(t', again, k);
    }
  }

  lemma {:induction false} AuditKeeps(row: Row, q: Request)
    requires FilterIsPlain(q)
    ensures SameStamp(row, Merged(row, map[], q.user)) && Live(Merged(row, map[], q.user)) == Live(row)
    ensures Matches(Merged(row, map[], q.user), Scope(q)) == Matches(row, Scope(q))
  {
    assert row + map[] == row;
    AuditIsIrrelevant(row, q, false);
    PlainPatchKeeps(row, map[], q.user);
  }

  lemma {:induction false} NoCreates(items: seq<Item>)
    requires forall i :: 0 <= i < |items| ==> items[i].id.Some?
    ensures ToCreate(items) == []
  {
    if items != [] {
      NoCreates(items[..|items| - 1]);
    }
  }
}
