/**
 Syncing scanned permissions into the catalogue table, one plane after the other. A row is
 never dropped: a permission no longer declared is soft-deleted, and comes back when it is
 declared again. A row an administrator added by hand is never deleted and keeps its mark, but a
 scan that declares its key overwrites it, and revives it if it was deleted.
 */
module PermissionSync {
  import opened Options

  datatype Plane = Api | Ui

  /** `permission` is unique only within its service. */
  datatype Key = Key(service: string, permission: string)

  datatype Name = Name(th: string, en: string)

  datatype Scanned = Scanned(key: Key, resource: string, action: string, name: Option<Name>, placeholder: string)

  datatype Row = Row(
    plane: Plane, resource: string, action: string, name: Name,
    isDeleted: bool, deletedAt: Option<int>, deletedReason: Option<string>, isManual: bool, updatedAt: int)

  type Table = map<Key, Row>

  // ---------------------------------------------------------------- one row

  /** Insert, or on conflict update: the plane and the manual mark of an existing row stay. */
  function Upserted(old_: Option<Row>, plane: Plane, p: Scanned, now: int): Row {
    match old_
    case None =>
      var name := if p.name.Some? then p.name.value else Name(p.placeholder, p.placeholder);
      Row(plane, p.resource, p.action, name, false, None, None, false, now)
    case Some(row) =>
      var name := if p.name.Some? then p.name.value else row.name;
      row.(resource := p.resource, action := p.action, name := name,
           isDeleted := false, deletedAt := None, deletedReason := None, updatedAt := now)
  }

  /** The rows a plane's diff looks at. */
  predicate Existing(row: Row, plane: Plane) {
    !row.isDeleted && row.plane == plane && !row.isManual
  }

  function SoftDeleted(row: Row, reason: string, now: int): Row {
    row.(isDeleted := true, deletedAt := Some(now), deletedReason := Some(reason))
  }

  // ---------------------------------------------------------------- one plane

  ghost predicate DistinctKeys(scan: seq<Scanned>) {
    forall i, j :: 0 <= i < j < |scan| ==> scan[i].key != scan[j].key
  }

  function Keys(scan: seq<Scanned>): set<Key> {
    set i | 0 <= i < |scan| :: scan[i].key
  }

  /** What the scan says about a key. */
  function Hit(scan: seq<Scanned>, k: Key): (r: Option<Scanned>)
    ensures r.Some? <==> k in Keys(scan)
    ensures r.Some? ==> r.value in scan && r.value.key == k
  {
    if scan == [] then None
    else
      var n := |scan| - 1;
      assert Keys(scan) == Keys(scan[..n]) + {scan[n].key};
      if scan[n].key == k then Some(scan[n]) else Hit(scan[..n], k)
  }

  function Lookup(t: Table, k: Key): Option<Row> {
    if k in t then Some(t[k]) else None
  }

  /** What one plane's sync does to the row of one key. */
  function RowAfter(old_: Option<Row>, plane: Plane, hit: Option<Scanned>, reason: string, now: int): Option<Row> {
    if hit.Some? then Some(Upserted(old_, plane, hit.value, now))
    else if old_.Some? && Existing(old_.value, plane) then Some(SoftDeleted(old_.value, reason, now))
    else old_
  }

  ghost predicate Synced(t: Table, t': Table, plane: Plane, scan: seq<Scanned>, reason: string, now: int) {
    forall k :: Lookup(t', k) == RowAfter(Lookup(t, k), plane, Hit(scan, k), reason, now)
  }

  const API_REASON := "no longer declared via @RequirePermission()"
  const UI_REASON := "no longer declared via data-permission attribute"

  datatype Diff = Diff(added: seq<Key>, removed: set<Key>, kept: seq<Key>)

  /** The catalogue as the script changes it. */
  class Catalog {
    var rows: Table

    constructor (rows: Table)
      ensures this.rows == rows
    {
      this.rows := rows;
    }

    method UpsertAll(plane: Plane, scan: seq<Scanned>, now: int)
      requires DistinctKeys(scan)
      modifies this
      ensures forall k :: Lookup(rows, k) ==
                          if Hit(scan, k).Some?
                            then Some(Upserted(Lookup(old(rows), k), plane, Hit(scan, k).value, now))
                          else Lookup(old(rows), k)
    {
      for n := 0 to |scan|
        invariant forall k :: Lookup(rows, k) ==
                    if Hit(scan[..n], k).Some?
                      then Some(Upserted(Lookup(old(rows), k), plane, Hit(scan[..n], k).value, now))
                    else Lookup(old(rows), k)
      {
        var p := scan[n];
        ghost var before := rows;
        HitNext(scan, n);
        rows := rows[p.key := Upserted(Lookup(rows, p.key), plane, p, now)];
        assert forall k :: Lookup(rows, k) ==
                 if k == p.key then Some(Upserted(Lookup(before, k), plane, p, now)) else Lookup(before, k);
      }
      assert scan[..|scan|] == scan;
    }

    method DeleteAll(removed: set<Key>, reason: string, now: int)
      requires removed <= rows.Keys && forall k :: k in removed ==> !rows[k].isManual
      modifies this
      ensures rows.Keys == old(rows.Keys)
      ensures forall k :: k in rows ==>
              rows[k] == if k in removed then SoftDeleted(old(rows[k]), reason, now) else old(rows[k])
    {
      var todo := removed;
      while todo != {}
        invariant todo <= removed && rows.Keys == old(rows.Keys)
        invariant forall k :: k in rows ==>
                    rows[k] == if k in removed - todo then SoftDeleted(old(rows[k]), reason, now) else old(rows[k])
      {
        var k :| k in todo;
        if !rows[k].isManual {
          rows := rows[k := SoftDeleted(rows[k], reason, now)];
        }
        todo := todo - {k};
      }
    }

    method SyncPlane(plane: Plane, scan: seq<Scanned>, reason: string, now: int) returns (diff: Diff)
      requires DistinctKeys(scan)
      modifies this
      ensures Synced(old(rows), rows, plane, scan, reason, now)
      ensures forall k :: k in diff.removed <==> k in old(rows) && Existing(old(rows[k]), plane) && k !in Keys(scan)
      ensures forall k :: k in diff.added <==> k in Keys(scan) && !(k in old(rows) && Existing(old(rows[k]), plane))
      ensures forall k :: k in diff.kept <==> k in Keys(scan) && k in old(rows) && Existing(old(rows[k]), plane)
    {
      var existing := set k | k in rows && Existing(rows[k], plane);
      var scannedKeys := Keys(scan);
      var added, kept := Partition(scan, existing);
      var removed := existing - scannedKeys;
      UpsertAll(plane, scan, now);
      assert forall k :: k in removed ==> Lookup(rows, k) == Lookup(old(rows), k) && k in rows;
      DeleteAll(removed, reason, now);
      return Diff(added, removed, kept);
    }

    method Run(api: seq<Scanned>, ui: seq<Scanned>, now: int) returns (apiDiff: Diff, uiDiff: Diff)
      requires DistinctKeys(api) && DistinctKeys(ui)
      modifies this
      ensures Ran(old(rows), rows, api, ui, now)
    {
      apiDiff := SyncPlane(Api, api, API_REASON, now);
      uiDiff := SyncPlane(Ui, ui, UI_REASON, now);
    }
  }

  method Partition(scan: seq<Scanned>, existing: set<Key>) returns (added: seq<Key>, kept: seq<Key>)
    ensures forall k :: k in added <==> k in Keys(scan) && k !in existing
    ensures forall k :: k in kept <==> k in Keys(scan) && k in existing
  {
    added, kept := [], [];
    for n := 0 to |scan|
      invariant forall k :: k in added <==> k in Keys(scan[..n]) && k !in existing
      invariant forall k :: k in kept <==> k in Keys(scan[..n]) && k in existing
    {
      KeysNext(scan, n);
      if scan[n].key in existing {
        kept := kept + [scan[n].key];
      } else {
        added := added + [scan[n].key];
      }
    }
    assert scan[..|scan|] == scan;
  }

  lemma {:induction false} KeysNext(scan: seq<Scanned>, n: nat)
    requires n < |scan|
    ensures Keys(scan[..n + 1]) == Keys(scan[..n]) + {scan[n].key}
  {
    var a, b := scan[..n + 1], scan[..n];
    assert forall i :: 0 <= i < n ==> a[i] == b[i];
    assert a[n] == scan[n];
  }

  lemma {:induction false} HitNext(scan: seq<Scanned>, n: nat)
    requires DistinctKeys(scan) && n < |scan|
    ensures Hit(scan[..n], scan[n].key) == None
    ensures forall k :: Hit(scan[..n + 1], k) == if k == scan[n].key then Some(scan[n]) else Hit(scan[..n], k)
  {
    assert scan[..n + 1][..n] == scan[..n];
    assert forall i :: 0 <= i < n ==> scan[..n][i].key != scan[n].key;
  }

  // ---------------------------------------------------------------- one run, both planes

  /** What a whole run does to the row of one key: the api plane first, then the ui plane. */
  function AfterRun(old_: Option<Row>, api: Option<Scanned>, ui: Option<Scanned>, now: int): Option<Row> {
    RowAfter(RowAfter(old_, Api, api, API_REASON, now), Ui, ui, UI_REASON, now)
  }

  ghost predicate Ran(t: Table, t': Table, api: seq<Scanned>, ui: seq<Scanned>, now: int) {
    forall k :: Lookup(t', k) == AfterRun(Lookup(t, k), Hit(api, k), Hit(ui, k), now)
  }

  /** The live rows the code owns. */
  ghost function LiveAuto(t: Table): set<Key> {
    set k | k in t && !t[k].isDeleted && !t[k].isManual
  }

  ghost function Manual(t: Table): set<Key> {
    set k | k in t && t[k].isManual
  }

  /** No api-only permission already has a code-owned row on the ui plane. */
  ghost predicate NoCross(t: Table, api: seq<Scanned>, ui: seq<Scanned>) {
    forall k :: !Crossed(t, api, ui, k)
  }

  ghost predicate Crossed(t: Table, api: seq<Scanned>, ui: seq<Scanned>, k: Key) {
    k in Keys(api) && k !in Keys(ui) && k in t && !t[k].isManual && t[k].plane == Ui
  }

  /** Exactly then a run leaves the live code-owned rows equal to what the scans declare. */
  lemma {:induction false} RunIsExact(t: Table, t': Table, api: seq<Scanned>, ui: seq<Scanned>, now: int)
    requires Ran(t, t', api, ui, now)
    ensures LiveAuto(t') == Keys(api) + Keys(ui) - Manual(t) <==> NoCross(t, api, ui)
  {
    var wanted := Keys(api) + Keys(ui) - Manual(t);
    forall k ensures k in LiveAuto(t') <==> k in wanted && !Crossed(t, api, ui, k) {
      LiveKey(t, t', api, ui, now, k);
    }
    if !NoCross(t, api, ui) {
      var k :| Crossed(t, api, ui, k);
      assert k in wanted && k !in LiveAuto(t');
    } else {
      assert LiveAuto(t') == wanted;
    }
  }

  lemma {:induction false} LiveKey(t: Table, t': Table, api: seq<Scanned>, ui: seq<Scanned>, now: int, k: Key)
    requires Ran(t, t', api, ui, now)
    ensures k in LiveAuto(t') <==> k in Keys(api) + Keys(ui) - Manual(t) && !Crossed(t, api, ui, k)
  {
    assert Lookup(t', k) == AfterRun(Lookup(t, k), Hit(api, k), Hit(ui, k), now);
  }

  /** What a run never does, on any table and any scan. */
  lemma {:induction false} RunKeeps(t: Table, t': Table, api: seq<Scanned>, ui: seq<Scanned>, now: int, k: Key)
    requires Ran(t, t', api, ui, now)
    ensures k in t' <==> k in t || k in Keys(api) || k in Keys(ui)
    ensures k in t ==> t'[k].plane == t[k].plane && t'[k].isManual == t[k].isManual
    ensures k in t && t[k].isManual && t'[k].isDeleted ==> t'[k] == t[k]
    ensures k in Keys(api) + Keys(ui) && !Crossed(t, api, ui, k) ==> !t'[k].isDeleted
  {
    assert Lookup(t', k) == AfterRun(Lookup(t, k), Hit(api, k), Hit(ui, k), now);
  }

  /** A manual row is left alone exactly when no scan declares its key. */
  lemma {:induction false} ManualUntouchedIff(
    t: Table, t': Table, api: seq<Scanned>, ui: seq<Scanned>, now: int, k: Key)
    requires Ran(t, t', api, ui, now) && k in t && t[k].isManual && t[k].updatedAt < now
    ensures k in t' && (t'[k] == t[k] <==> k !in Keys(api) + Keys(ui))
  {
    assert Lookup(t', k) == AfterRun(Lookup(t, k), Hit(api, k), Hit(ui, k), now);
  }

  /** A deleted manual row comes back exactly when a scan declares its key; it stays manual. */
  lemma {:induction false} ManualRevivedIff(t: Table, t': Table, api: seq<Scanned>, ui: seq<Scanned>, now: int, k: Key)
    requires Ran(t, t', api, ui, now) && k in t && t[k].isManual && t[k].isDeleted
    ensures k in t' && t'[k].isManual && (!t'[k].isDeleted <==> k in Keys(api) + Keys(ui))
    ensures !t'[k].isDeleted ==> t'[k].deletedAt == None && t'[k].deletedReason == None
  {
    assert Lookup(t', k) == AfterRun(Lookup(t, k), Hit(api, k), Hit(ui, k), now);
  }

  /** The row says what the scan said; a name only where the scan gave one. */
  ghost predicate Records(row: Row, p: Scanned) {
    row.resource == p.resource && row.action == p.action && (p.name.Some? ==> row.name == p.name.value)
  }

  ghost predicate NamesIt(scan: seq<Scanned>, k: Key) {
    Hit(scan, k).Some? && Hit(scan, k).value.name.Some?
  }

  /** What a run writes into the rows of scanned keys: the ui scan has the last word, a row keeps its
      name unless a scan gives one, and a new row belongs to the code. */
  lemma {:induction false} RunRecords(t: Table, t': Table, api: seq<Scanned>, ui: seq<Scanned>, now: int, k: Key)
    requires Ran(t, t', api, ui, now) && k in Keys(api) + Keys(ui)
    ensures k in t' && Records(t'[k], if k in Keys(ui) then Hit(ui, k).value else Hit(api, k).value)
    ensures t'[k].updatedAt == now
    ensures k in t && !NamesIt(api, k) && !NamesIt(ui, k) ==> t'[k].name == t[k].name
    ensures k !in t ==> !t'[k].isManual && t'[k].plane == if k in Keys(api) then Api else Ui
  {
    assert Lookup(t', k) == AfterRun(Lookup(t, k), Hit(api, k), Hit(ui, k), now);
  }

  ghost function ReasonOf(plane: Plane): string {
    match plane
    case Api => "no longer declared via @RequirePermission()"
    case Ui => "no longer declared via data-permission attribute"
  }

  /** A key no scan declares: a live code-owned row is stamped with the date and the reason of its plane
      and keeps everything else; any other row stays as it is. */
  lemma {:induction false} UndeclaredRow(t: Table, t': Table, api: seq<Scanned>, ui: seq<Scanned>, now: int, k: Key)
    requires Ran(t, t', api, ui, now) && k in t && k !in Keys(api) && k !in Keys(ui)
    ensures k in t'
    ensures var row := t[k];
            if !row.isDeleted && !row.isManual
            then t'[k] == row.(isDeleted := true, deletedAt := Some(now), deletedReason := Some(ReasonOf(row.plane)))
            else t'[k] == row
  {
    assert Lookup(t', k) == AfterRun(Lookup(t, k), Hit(api, k), Hit(ui, k), now);
  }

  /** A key that is new: its row is live, dated now, and named as the scans say, or else by the
      placeholder of the scan that declared it first. */
  lemma {:induction false} NewRowIs(t: Table, t': Table, api: seq<Scanned>, ui: seq<Scanned>, now: int, k: Key)
    requires Ran(t, t', api, ui, now) && k !in t && k in Keys(api) + Keys(ui)
    ensures k in t'
    ensures var row, first := t'[k], if k in Keys(api) then Hit(api, k).value else Hit(ui, k).value;
            && !row.isDeleted && row.deletedAt == None && row.deletedReason == None && row.updatedAt == now
            && (NamesIt(ui, k) ==> row.name == Hit(ui, k).value.name.value)
            && (!NamesIt(ui, k) && NamesIt(api, k) ==> row.name == Hit(api, k).value.name.value)
            && (!NamesIt(ui, k) && !NamesIt(api, k) ==> row.name == Name(first.placeholder, first.placeholder))
  {
    assert Lookup(t', k) == AfterRun(Lookup(t, k), Hit(api, k), Hit(ui, k), now);
  }

  // ---------------------------------------------------------------- planes and prefixes

  predicate IsUiPermission(p: string) {
    "page:" <= p || "component:" <= p
  }

  function PlaneOf(k: Key): Plane {
    if IsUiPermission(k.permission) then Ui else Api
  }

  ghost predicate PlanesMatch(t: Table) {
    forall k :: k in t ==> t[k].plane == PlaneOf(k)
  }

  /** All keys of a scan have the prefixes of one plane. */
  ghost predicate OnPlane(scan: seq<Scanned>, plane: Plane) {
    forall k :: k in Keys(scan) ==> PlaneOf(k) == plane
  }

  /** With prefixes and planes in agreement a run is exact, and keeps them in agreement. */
  lemma {:induction false} PrefixesMakeRunExact(t: Table, t': Table, api: seq<Scanned>, ui: seq<Scanned>, now: int)
    requires Ran(t, t', api, ui, now) && PlanesMatch(t) && OnPlane(api, Api) && OnPlane(ui, Ui)
    ensures PlanesMatch(t')
    ensures LiveAuto(t') == Keys(api) + Keys(ui) - Manual(t)
    ensures forall k :: k in Keys(api) + Keys(ui) ==> k in t' && !t'[k].isDeleted
  {
    RunIsExact(t, t', api, ui, now);
    forall k ensures k in t' ==> t'[k].plane == PlaneOf(k)
             ensures k in Keys(api) + Keys(ui) ==> k in t' && !t'[k].isDeleted
    {
      assert Lookup(t', k) == AfterRun(Lookup(t, k), Hit(api, k), Hit(ui, k), now);
      RunKeeps(t, t', api, ui, now, k);
    }
  }

  // ---------------------------------------------------------------- the scan key

  predicate IsWordChar(c: char) {
    'a' <= c <= 'z' || 'A' <= c <= 'Z' || '0' <= c <= '9' || c == '_'
  }

  /** `<prefix>:<action>`: one colon, word characters around it. */
  ghost predicate IsPermission(p: string) {
    exists c :: 0 < c < |p| - 1 && p[c] == ':' && forall i :: 0 <= i < |p| && i != c ==> IsWordChar(p[i])
  }

  /** The text the diff compares. */
  function KeyText(k: Key): string {
    k.service + "::" + k.permission
  }

  /** Comparing key texts is comparing keys, whatever the service is called. */
  lemma {:induction false} KeyTextInjective(a: Key, b: Key)
    requires IsPermission(a.permission) && IsPermission(b.permission) && KeyText(a) == KeyText(b)
    ensures a == b
  {
    assert |a.service| == |b.service| by {
      if |a.service| < |b.service| { LongerServiceDiffers(a, b); }
      if |b.service| < |a.service| { LongerServiceDiffers(b, a); }
    }
    var n := |a.service|;
    assert a.service == KeyText(a)[..n] && b.service == KeyText(b)[..n];
    assert a.permission == KeyText(a)[n + 2..] && b.permission == KeyText(b)[n + 2..];
  }

  lemma {:induction false} LongerServiceDiffers(a: Key, b: Key)
    requires IsPermission(a.permission) && |a.service| < |b.service|
    ensures KeyText(a) != KeyText(b)
  {
    var s, t, n, m := KeyText(a), KeyText(b), |a.service|, |b.service|;
    assert t[m] == ':' && t[m + 1] == ':';
    if m + 1 < |s| {
      assert s[m + 1] == a.permission[m - n - 1];
      assert m > n + 1 ==> s[m] == a.permission[m - n - 2];
    }
  }

  // ---------------------------------------------------------------- running twice

  /** Two rows that differ only in their timestamps. */
  predicate SameButTimes(a: Row, b: Row) {
    a.(updatedAt := b.updatedAt, deletedAt := b.deletedAt) == b && (a.deletedAt.None? <==> b.deletedAt.None?)
  }

  /** A second run with the same scans changes nothing but timestamps. */
  lemma {:induction false} SecondRunIsIdle(
    t: Table, t': Table, t'': Table, api: seq<Scanned>, ui: seq<Scanned>, now: int, later: int)
    requires Ran(t, t', api, ui, now) && Ran(t', t'', api, ui, later)
    ensures t''.Keys == t'.Keys
    ensures forall k :: k in t' ==> SameButTimes(t'[k], t''[k])
  {
    forall k ensures k in t'' <==> k in t'
             ensures k in t' ==> SameButTimes(t'[k], t''[k])
    {
      assert Lookup(t', k) == AfterRun(Lookup(t, k), Hit(api, k), Hit(ui, k), now);
      assert Lookup(t'', k) == AfterRun(Lookup(t', k), Hit(api, k), Hit(ui, k), later);
    }
  }
}
