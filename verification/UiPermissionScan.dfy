/**
 The ui half of the permission scan: permission literals found in views, and the declarative
 manifest of a service. Both only ever yield permissions of the ui plane.
 */
module UiPermissionScan {
  import opened Options
  import opened PermissionSync
  import FilterStrings

  // ---------------------------------------------------------------- permission strings

  function FirstColon(p: string, i: nat): (r: Option<nat>)
    ensures r.Some? ==> i <= r.value < |p| && p[r.value] == ':' && forall j :: i <= j < r.value ==> p[j] != ':'
    ensures r.None? ==> forall j :: i <= j < |p| ==> p[j] != ':'
    decreases |p| - i
  {
    if i >= |p| then None else if p[i] == ':' then Some(i) else FirstColon(p, i + 1)
  }

  predicate IsWord(s: string) {
    s != "" && forall i :: 0 <= i < |s| ==> IsWordChar(s[i])
  }

  /** The two sides of a `<prefix>:<action>` pair, if the text is one. */
  function SplitPermission(p: string): (r: Option<(string, string)>)
    ensures r.Some? ==> p == r.value.0 + ":" + r.value.1 && IsWord(r.value.0) && IsWord(r.value.1)
  {
    match FirstColon(p, 0)
    case None => None
    case Some(c) => if IsWord(p[..c]) && IsWord(p[c + 1..]) then Some((p[..c], p[c + 1..])) else None
  }

  lemma {:induction false} SplitIsPermission(p: string)
    requires SplitPermission(p).Some?
    ensures IsPermission(p)
  {
    var (prefix, action) := SplitPermission(p).value;
    var c := |prefix|;
    assert p[c] == ':';
    forall i | 0 <= i < |p| && i != c ensures IsWordChar(p[i]) {
      assert p[i] == if i < c then prefix[i] else action[i - c - 1];
    }
  }

  lemma {:induction false} PermissionSplits(p: string)
    requires IsPermission(p)
    ensures SplitPermission(p).Some?
  {
    var c :| 0 < c < |p| - 1 && p[c] == ':' && forall i :: 0 <= i < |p| && i != c ==> IsWordChar(p[i]);
    assert FirstColon(p, 0) == Some(c);
    var prefix, action := p[..c], p[c + 1..];
    assert IsWord(prefix);
    forall i | 0 <= i < |action| ensures IsWordChar(action[i]) {
      assert action[i] == p[c + 1 + i];
    }
  }

  /** Splitting succeeds on exactly the well-formed permissions. */
  lemma {:induction false} SplitIff(p: string)
    ensures SplitPermission(p).Some? <==> IsPermission(p)
  {
    if SplitPermission(p).Some? { SplitIsPermission(p); }
    if IsPermission(p) { PermissionSplits(p); }
  }

  const VIEW := "view_"

  /** Every page is a group of its own, named after the page without `view_`. */
  function ResourceOf(prefix: string, action: string): string {
    if prefix != "page" then prefix
    else if VIEW < action then "page_" + action[|VIEW|..]
    else "page_" + action
  }

  function Upper(c: char): char {
    if 'a' <= c <= 'z' then ((c as int) - 32) as char else c
  }

  /** Underscores become blanks, and each part starts with a capital. */
  function Humanize(word: string): string {
    seq(|word|, i requires 0 <= i < |word| =>
      if word[i] == '_' then ' ' else if i == 0 || word[i - 1] == '_' then Upper(word[i]) else word[i])
  }

  function Derive(service: string, permission: string, name: Option<Name>): (r: Option<Scanned>)
    ensures r.Some? ==> r.value.key == Key(service, permission) && r.value.name == name
    ensures r.Some? <==> SplitPermission(permission).Some?
  {
    match SplitPermission(permission)
    case None => None
    case Some((prefix, action)) =>
      Some(Scanned(Key(service, permission), ResourceOf(prefix, action), action, name,
        Humanize(action) + " " + Humanize(prefix)))
  }

  // ---------------------------------------------------------------- sources

  /** A half of a manifest name that is not a string is missing. */
  datatype RawName = NoRecord | Halves(th: Option<string>, en: Option<string>)

  datatype RawEntry = NotARecord | Entry(permission: Option<string>, name: RawName)

  /** `components` is missing where the manifest gives something that is not a list. */
  datatype Page = Page(entry: RawEntry, components: seq<RawEntry>)

  /** One service: the quoted strings of its views, and the pages of its manifest. */
  datatype Service = Service(name: string, quoted: seq<string>, pages: seq<Page>)

  /** The literal pattern the views are searched for. */
  predicate IsUiLiteral(text: string) {
    ("page:" <= text && IsWord(text[|"page:"|..])) || ("component:" <= text && IsWord(text[|"component:"|..]))
  }

  predicate IsFilled(s: Option<string>) {
    s.Some? && FilterStrings.Trim(s.value) != ""
  }

  /** Only a name with both halves is honoured. */
  function ParseName(raw: RawName): Option<Name> {
    if raw.Halves? && IsFilled(raw.th) && IsFilled(raw.en) then Some(Name(raw.th.value, raw.en.value)) else None
  }

  /** A manifest entry counts where it is well formed and has the prefix of its place in the tree. */
  function ParseEntry(service: string, raw: RawEntry, prefix: string): (r: Option<Scanned>)
    ensures r.Some? ==> prefix <= r.value.key.permission && r.value.key.service == service
  {
    if raw.NotARecord? || !IsFilled(raw.permission) then None
    else if !(prefix <= raw.permission.value) then None
    else Derive(service, raw.permission.value, ParseName(raw.name))
  }

  function Listed(r: Option<Scanned>): seq<Scanned> {
    if r.Some? then [r.value] else []
  }

  /** A component is grouped with its page, unless the page itself was refused. */
  function Grouped(page: Option<Scanned>, component: Option<Scanned>): Option<Scanned> {
    if page.Some? && component.Some? then Some(component.value.(resource := page.value.resource)) else component
  }

  function FromComponents(service: string, page: Option<Scanned>, components: seq<RawEntry>): seq<Scanned> {
    if components == [] then []
    else
      var n := |components| - 1;
      FromComponents(service, page, components[..n]) +
      Listed(Grouped(page, ParseEntry(service, components[n], "component:")))
  }

  function FromPages(service: string, pages: seq<Page>): seq<Scanned> {
    if pages == [] then []
    else
      var n := |pages| - 1;
      var page := ParseEntry(service, pages[n].entry, "page:");
      FromPages(service, pages[..n]) + (Listed(page) + FromComponents(service, page, pages[n].components))
  }

  function FromViews(service: string, quoted: seq<string>): seq<Scanned> {
    if quoted == [] then []
    else
      var n := |quoted| - 1;
      FromViews(service, quoted[..n]) +
      (if IsUiLiteral(quoted[n]) then Listed(Derive(service, quoted[n], None)) else [])
  }

  /** All declarations, in the order in which the scan meets them. */
  function Declared(services: seq<Service>): seq<Scanned> {
    if services == [] then []
    else
      var n := |services| - 1;
      Declared(services[..n]) +
      (FromViews(services[n].name, services[n].quoted) + FromPages(services[n].name, services[n].pages))
  }

  // ---------------------------------------------------------------- the scan

  /** Setting a key that is there replaces its value in place; a new key goes to the end. */
  method Put(found: seq<Scanned>, x: Scanned) returns (r: seq<Scanned>)
    requires DistinctKeys(found)
    ensures DistinctKeys(r)
    ensures forall k :: Hit(r, k) == if k == x.key then Some(x) else Hit(found, k)
  {
    for n := 0 to |found|
      invariant forall i :: 0 <= i < n ==> found[i].key != x.key
    {
      if found[n].key == x.key {
        r := found[n := x];
        forall k ensures Hit(r, k) == if k == x.key then Some(x) else Hit(found, k) {
          HitReplaced(found, n, x, k);
        }
        return;
      }
    }
    r := found + [x];
    forall k ensures Hit(r, k) == if k == x.key then Some(x) else Hit(found, k) {
      HitAppend(found, [x], k);
    }
  }

  /** In a list of distinct keys every element is what its key hits. */
  lemma {:induction false} HitDistinct(scan: seq<Scanned>, i: nat)
    requires DistinctKeys(scan) && i < |scan|
    ensures Hit(scan, scan[i].key) == Some(scan[i])
  {
    var n := |scan| - 1;
    if i < n {
      HitDistinct(scan[..n], i);
    }
  }

  lemma {:induction false} HitReplaced(found: seq<Scanned>, n: nat, x: Scanned, k: Key)
    requires DistinctKeys(found) && n < |found| && found[n].key == x.key
    ensures Hit(found[n := x], k) == if k == x.key then Some(x) else Hit(found, k)
  {
    var r := found[n := x];
    assert DistinctKeys(r);
    if k == x.key {
      HitDistinct(r, n);
    } else if i :| 0 <= i < |found| && found[i].key == k {
      HitDistinct(found, i);
      HitDistinct(r, i);
      assert r[i] == found[i];
    } else {
      assert forall i :: 0 <= i < |r| ==> r[i].key != k;
    }
  }

  /** Of two lists, the later one has the last word. */
  lemma {:induction false} HitAppend(a: seq<Scanned>, b: seq<Scanned>, k: Key)
    ensures Hit(a + b, k) == if Hit(b, k).Some? then Hit(b, k) else Hit(a, k)
  {
    if b == [] {
      assert a + b == a;
    } else {
      var n := |b| - 1;
      HitAppend(a, b[..n], k);
      assert (a + b)[..|a + b| - 1] == a + b[..n];
    }
  }

  /** `found` has the keys of `declared` once each, with their last declaration. */
  ghost predicate Collects(found: seq<Scanned>, declared: seq<Scanned>) {
    DistinctKeys(found) && forall k :: Hit(found, k) == Hit(declared, k)
  }

  method PutAll(found: seq<Scanned>, more: seq<Scanned>, ghost declared: seq<Scanned>) returns (r: seq<Scanned>)
    requires Collects(found, declared)
    ensures Collects(r, declared + more)
  {
    r := found;
    assert declared + more[..0] == declared;
    for n := 0 to |more|
      invariant Collects(r, declared + more[..n])
    {
      ghost var before := declared + more[..n];
      ghost var after := declared + more[..n + 1];
      assert after == before + [more[n]];
      r := Put(r, more[n]);
      forall k ensures Hit(r, k) == Hit(after, k) {
        HitAppend(before, [more[n]], k);
      }
    }
    assert more[..|more|] == more;
  }

  method ScanComponents(service: string, page: Option<Scanned>, components: seq<RawEntry>)
    returns (scanned: seq<Scanned>)
    ensures scanned == FromComponents(service, page, components)
  {
    scanned := [];
    for n := 0 to |components|
      invariant scanned == FromComponents(service, page, components[..n])
    {
      assert components[..n + 1][..n] == components[..n];
      scanned := scanned + Listed(Grouped(page, ParseEntry(service, components[n], "component:")));
    }
    assert components[..|components|] == components;
  }

  method ScanManifest(service: string, pages: seq<Page>) returns (scanned: seq<Scanned>)
    ensures scanned == FromPages(service, pages)
  {
    scanned := [];
    for n := 0 to |pages|
      invariant scanned == FromPages(service, pages[..n])
    {
      assert pages[..n + 1][..n] == pages[..n];
      var page := ParseEntry(service, pages[n].entry, "page:");
      var components := ScanComponents(service, page, pages[n].components);
      scanned := scanned + (Listed(page) + components);
    }
    assert pages[..|pages|] == pages;
  }

  method ScanUiPermissions(services: seq<Service>) returns (found: seq<Scanned>)
    ensures Collects(found, Declared(services))
  {
    found := [];
    for n := 0 to |services|
      invariant Collects(found, Declared(services[..n]))
    {
      ghost var before := Declared(services[..n]);
      var s := services[n];
      found := PutAll(found, FromViews(s.name, s.quoted), before);
      var manifest := ScanManifest(s.name, s.pages);
      found := PutAll(found, manifest, before + FromViews(s.name, s.quoted));
      DeclaredNext(services, n);
    }
    assert services[..|services|] == services;
  }

  lemma {:induction false} DeclaredNext(services: seq<Service>, n: nat)
    requires n < |services|
    ensures var s := services[n];
            Declared(services[..n + 1]) ==
            Declared(services[..n]) + FromViews(s.name, s.quoted) + FromPages(s.name, s.pages)
  {
    var upto, s := services[..n + 1], services[n];
    assert upto[..n] == services[..n] && upto[n] == s;
    Regroup(Declared(services[..n]), FromViews(s.name, s.quoted), FromPages(s.name, s.pages));
  }

  lemma {:induction false} Regroup(a: seq<Scanned>, b: seq<Scanned>, c: seq<Scanned>)
    ensures a + b + c == a + (b + c)
  {
  }

  // ---------------------------------------------------------------- what a scan yields

  /** A well-formed ui permission of a service. */
  ghost predicate UiKey(k: Key) {
    PlaneOf(k) == Ui && IsPermission(k.permission)
  }

  ghost predicate AllUi(scan: seq<Scanned>) {
    forall i :: 0 <= i < |scan| ==> UiKey(scan[i].key)
  }

  lemma {:induction false} DerivedIsUi(service: string, permission: string, name: Option<Name>)
    requires IsUiPermission(permission)
    ensures AllUi(Listed(Derive(service, permission, name)))
  {
    SplitIff(permission);
  }

  lemma {:induction false} EntryIsUi(service: string, raw: RawEntry, prefix: string)
    requires prefix == "page:" || prefix == "component:"
    ensures AllUi(Listed(ParseEntry(service, raw, prefix)))
  {
    if ParseEntry(service, raw, prefix).Some? {
      DerivedIsUi(service, raw.permission.value, ParseName(raw.name));
    }
  }

  lemma {:induction false} ComponentsAreUi(service: string, page: Option<Scanned>, components: seq<RawEntry>)
    ensures AllUi(FromComponents(service, page, components))
  {
    if components != [] {
      ComponentsAreUi(service, page, components[..|components| - 1]);
      EntryIsUi(service, components[|components| - 1], "component:");
    }
  }

  lemma {:induction false} PagesAreUi(service: string, pages: seq<Page>)
    ensures AllUi(FromPages(service, pages))
  {
    if pages != [] {
      var n := |pages| - 1;
      PagesAreUi(service, pages[..n]);
      EntryIsUi(service, pages[n].entry, "page:");
      ComponentsAreUi(service, ParseEntry(service, pages[n].entry, "page:"), pages[n].components);
    }
  }

  lemma {:induction false} ViewsAreUi(service: string, quoted: seq<string>)
    ensures AllUi(FromViews(service, quoted))
  {
    if quoted != [] {
      var n := |quoted| - 1;
      ViewsAreUi(service, quoted[..n]);
      if IsUiLiteral(quoted[n]) {
        DerivedIsUi(service, quoted[n], None);
      }
    }
  }

  /** Whatever the views and manifests contain, only well-formed ui permissions are declared. */
  lemma {:induction false} DeclaredAreUi(services: seq<Service>)
    ensures AllUi(Declared(services))
  {
    if services != [] {
      var n := |services| - 1;
      DeclaredAreUi(services[..n]);
      ViewsAreUi(services[n].name, services[n].quoted);
      PagesAreUi(services[n].name, services[n].pages);
    }
  }

  /** So every key of a ui scan lies on the ui plane. */
  lemma {:induction false} ScanIsOnUiPlane(services: seq<Service>, found: seq<Scanned>)
    requires Collects(found, Declared(services))
    ensures OnPlane(found, Ui)
  {
    DeclaredAreUi(services);
    forall k | k in Keys(found) ensures PlaneOf(k) == Ui {
      assert Hit(found, k).Some?;
      var i :| 0 <= i < |Declared(services)| && Declared(services)[i].key == k;
    }
  }

  /** Where no decorated permission has a ui prefix and the planes follow the prefixes, a run with
      scanned ui permissions is exact and keeps the planes following the prefixes. */
  lemma {:induction false} ScannedRunIsExact(
    services: seq<Service>, t: Table, t': Table, api: seq<Scanned>, ui: seq<Scanned>, now: int)
    requires Collects(ui, Declared(services)) && Ran(t, t', api, ui, now)
    requires PlanesMatch(t) && OnPlane(api, Api)
    ensures PlanesMatch(t')
    ensures LiveAuto(t') == Keys(api) + Keys(Declared(services)) - Manual(t)
    ensures forall k :: k in Keys(api) + Keys(Declared(services)) ==> k in t' && !t'[k].isDeleted
  {
    ScanIsOnUiPlane(services, ui);
    PrefixesMakeRunExact(t, t', api, ui, now);
    assert Keys(ui) == Keys(Declared(services)) by {
      forall k ensures k in Keys(ui) <==> k in Keys(Declared(services)) {
        assert Hit(ui, k) == Hit(Declared(services), k);
      }
    }
  }

  // ---------------------------------------------------------------- collisions

  ghost predicate OfService(scan: seq<Scanned>, service: string) {
    forall i :: 0 <= i < |scan| ==> scan[i].key.service == service
  }

  lemma {:induction false} PagesOfService(service: string, pages: seq<Page>)
    ensures OfService(FromPages(service, pages), service)
  {
    if pages != [] {
      var n := |pages| - 1;
      PagesOfService(service, pages[..n]);
      ComponentsOfService(service, ParseEntry(service, pages[n].entry, "page:"), pages[n].components);
    }
  }

  lemma {:induction false} ComponentsOfService(service: string, page: Option<Scanned>, components: seq<RawEntry>)
    ensures OfService(FromComponents(service, page, components), service)
  {
    if components != [] {
      ComponentsOfService(service, page, components[..|components| - 1]);
    }
  }

  lemma {:induction false} ViewsOfService(service: string, quoted: seq<string>)
    ensures OfService(FromViews(service, quoted), service)
  {
    if quoted != [] {
      ViewsOfService(service, quoted[..|quoted| - 1]);
    }
  }

  /** On a key collision the manifest of the service wins over its views. */
  lemma {:induction false} ManifestWins(services: seq<Service>, i: nat, k: Key)
    requires i < |services| && forall a, b :: 0 <= a < b < |services| ==> services[a].name != services[b].name
    requires k in Keys(FromPages(services[i].name, services[i].pages))
    ensures Hit(Declared(services), k) == Hit(FromPages(services[i].name, services[i].pages), k)
  {
    var n := |services| - 1;
    var last := services[n];
    var views, pages := FromViews(last.name, last.quoted), FromPages(last.name, last.pages);
    PagesOfService(services[i].name, services[i].pages);
    HitAppend(Declared(services[..n]), views + pages, k);
    HitAppend(views, pages, k);
    if i < n {
      ManifestWins(services[..n], i, k);
      ViewsOfService(last.name, last.quoted);
      PagesOfService(last.name, last.pages);
    }
  }

  // ---------------------------------------------------------------- what is declared, exactly

  /** The entry declares the permission at its place in the manifest. */
  ghost predicate EntryDeclares(raw: RawEntry, prefix: string, permission: string) {
    raw.Entry? && raw.permission == Some(permission) && prefix <= permission && IsPermission(permission)
  }

  ghost predicate AnyComponent(components: seq<RawEntry>, permission: string) {
    exists j :: 0 <= j < |components| && EntryDeclares(components[j], "component:", permission)
  }

  ghost predicate PageDeclares(page: Page, permission: string) {
    || EntryDeclares(page.entry, "page:", permission)
    || AnyComponent(page.components, permission)
  }

  /** A quoted string of a view, or an entry of the manifest. */
  ghost predicate ServiceDeclares(service: Service, permission: string) {
    || (permission in service.quoted && IsUiLiteral(permission))
    || AnyPage(service.pages, permission)
  }

  ghost predicate AnyPage(pages: seq<Page>, permission: string) {
    exists i :: 0 <= i < |pages| && PageDeclares(pages[i], permission)
  }

  ghost predicate AnyService(services: seq<Service>, k: Key) {
    exists i :: 0 <= i < |services| && services[i].name == k.service && ServiceDeclares(services[i], k.permission)
  }

  lemma {:induction false} AnyComponentNext(components: seq<RawEntry>, n: nat, permission: string)
    requires |components| == n + 1
    ensures AnyComponent(components, permission) <==>
            AnyComponent(components[..n], permission) || EntryDeclares(components[n], "component:", permission)
  {
    var before := components[..n];
    assert forall j :: 0 <= j < n ==> before[j] == components[j];
  }

  lemma {:induction false} AnyPageNext(pages: seq<Page>, n: nat, permission: string)
    requires |pages| == n + 1
    ensures AnyPage(pages, permission) <==> AnyPage(pages[..n], permission) || PageDeclares(pages[n], permission)
  {
    var before := pages[..n];
    assert forall j :: 0 <= j < n ==> before[j] == pages[j];
  }

  lemma {:induction false} AnyServiceNext(services: seq<Service>, n: nat, k: Key)
    requires |services| == n + 1
    ensures AnyService(services, k) <==>
            || AnyService(services[..n], k)
            || (services[n].name == k.service && ServiceDeclares(services[n], k.permission))
  {
    var before := services[..n];
    assert forall j :: 0 <= j < n ==> before[j] == services[j];
  }

  lemma {:induction false} KeysAppend(a: seq<Scanned>, b: seq<Scanned>)
    ensures Keys(a + b) == Keys(a) + Keys(b)
  {
    forall k ensures k in Keys(a + b) <==> k in Keys(a) + Keys(b) {
      HitAppend(a, b, k);
      assert Hit(a + b, k).Some? <==> Hit(b, k).Some? || Hit(a, k).Some?;
    }
  }

  lemma {:induction false} PermissionIsFilled(p: string)
    requires IsPermission(p)
    ensures IsFilled(Some(p))
  {
    var c :| 0 < c < |p| - 1 && p[c] == ':' && forall i :: 0 <= i < |p| && i != c ==> IsWordChar(p[i]);
    assert IsWordChar(p[0]);
    FilterStrings.TrimBlankIff(p);
  }

  lemma {:induction false} EntryKeys(service: string, raw: RawEntry, prefix: string, k: Key)
    ensures k in Keys(Listed(ParseEntry(service, raw, prefix))) <==>
            k.service == service && EntryDeclares(raw, prefix, k.permission)
  {
    var r := ParseEntry(service, raw, prefix);
    if raw.Entry? && raw.permission.Some? {
      SplitIff(raw.permission.value);
      if IsPermission(raw.permission.value) {
        PermissionIsFilled(raw.permission.value);
      }
    }
    assert r.Some? ==> Listed(r)[0] == r.value && Keys(Listed(r)) == {r.value.key};
  }

  lemma {:induction false} GroupedKeys(page: Option<Scanned>, component: Option<Scanned>)
    ensures Keys(Listed(Grouped(page, component))) == Keys(Listed(component))
  {
    var a, b := Listed(Grouped(page, component)), Listed(component);
    assert component.Some? ==> a[0].key == b[0].key;
  }

  lemma {:induction false} ComponentKeys(service: string, page: Option<Scanned>, components: seq<RawEntry>, k: Key)
    ensures k in Keys(FromComponents(service, page, components)) <==>
            k.service == service && AnyComponent(components, k.permission)
  {
    if components != [] {
      var n := |components| - 1;
      var before, entry := components[..n], ParseEntry(service, components[n], "component:");
      ComponentKeys(service, page, before, k);
      KeysAppend(FromComponents(service, page, before), Listed(Grouped(page, entry)));
      GroupedKeys(page, entry);
      EntryKeys(service, components[n], "component:", k);
      AnyComponentNext(components, n, k.permission);
    }
  }

  lemma {:induction false} PageKeys(service: string, pages: seq<Page>, k: Key)
    ensures k in Keys(FromPages(service, pages)) <==>
            k.service == service && AnyPage(pages, k.permission)
  {
    if pages != [] {
      var n := |pages| - 1;
      var before, page := pages[..n], ParseEntry(service, pages[n].entry, "page:");
      var components := FromComponents(service, page, pages[n].components);
      PageKeys(service, before, k);
      KeysAppend(FromPages(service, before), Listed(page) + components);
      KeysAppend(Listed(page), components);
      EntryKeys(service, pages[n].entry, "page:", k);
      ComponentKeys(service, page, pages[n].components, k);
      AnyPageNext(pages, n, k.permission);
    }
  }

  lemma {:induction false} LiteralIsPermission(text: string)
    requires IsUiLiteral(text)
    ensures IsPermission(text)
  {
    if "page:" <= text && IsWord(text[|"page:"|..]) {
      PrefixedIsPermission("page", text[|"page:"|..]);
      assert text == "page" + ":" + text[|"page:"|..];
    } else {
      PrefixedIsPermission("component", text[|"component:"|..]);
      assert text == "component" + ":" + text[|"component:"|..];
    }
  }

  lemma {:induction false} PrefixedIsPermission(prefix: string, action: string)
    requires IsWord(prefix) && IsWord(action)
    ensures IsPermission(prefix + ":" + action)
  {
    var p, c := prefix + ":" + action, |prefix|;
    assert p[c] == ':';
    forall i | 0 <= i < |p| && i != c ensures IsWordChar(p[i]) {
      assert p[i] == if i < c then prefix[i] else action[i - c - 1];
    }
  }

  lemma {:induction false} ViewKeys(service: string, quoted: seq<string>, k: Key)
    ensures k in Keys(FromViews(service, quoted)) <==>
            k.service == service && k.permission in quoted && IsUiLiteral(k.permission)
  {
    if quoted != [] {
      var n := |quoted| - 1;
      var before, text := quoted[..n], quoted[n];
      var last := if IsUiLiteral(text) then Listed(Derive(service, text, None)) else [];
      ViewKeys(service, before, k);
      KeysAppend(FromViews(service, before), last);
      assert quoted == before + [text];
      if IsUiLiteral(text) {
        LiteralIsPermission(text);
        SplitIff(text);
        assert last[0].key == Key(service, text);
      }
      assert Keys(last) == if IsUiLiteral(text) then {Key(service, text)} else {};
    }
  }

  /** The scan declares exactly the literals of the views and the well-formed entries of the manifests,
      each for its own service. */
  lemma {:induction false} DeclaredIff(services: seq<Service>, k: Key)
    ensures k in Keys(Declared(services)) <==> AnyService(services, k)
  {
    if services != [] {
      var n := |services| - 1;
      var before, last := services[..n], services[n];
      var views, pages := FromViews(last.name, last.quoted), FromPages(last.name, last.pages);
      DeclaredIff(before, k);
      KeysAppend(Declared(before), views + pages);
      KeysAppend(views, pages);
      ViewKeys(last.name, last.quoted, k);
      PageKeys(last.name, last.pages, k);
      AnyServiceNext(services, n, k);
    }
  }

  /** The pattern finds exactly the well-formed permissions of the ui plane. */
  lemma {:induction false} LiteralIff(text: string)
    ensures IsUiLiteral(text) <==> IsUiPermission(text) && IsPermission(text)
  {
    if IsUiLiteral(text) {
      LiteralIsPermission(text);
    }
    if IsUiPermission(text) && IsPermission(text) {
      PermissionSplits(text);
      var (prefix, action) := SplitPermission(text).value;
      assert text[|prefix|] == ':' && forall i :: 0 <= i < |prefix| ==> text[i] == prefix[i];
      if "page:" <= text {
        assert text[..5] == "page:" && text[4] == ':';
        FirstColonIs(text, 4);
      } else {
        assert text[..10] == "component:" && text[9] == ':';
        FirstColonIs(text, 9);
      }
      assert text[|prefix| + 1..] == action;
    }
  }

  lemma {:induction false} FirstColonIs(text: string, c: nat)
    requires SplitPermission(text).Some? && c < |text| && text[c] == ':'
    ensures |SplitPermission(text).value.0| == c
  {
    var (prefix, action) := SplitPermission(text).value;
    assert forall i :: 0 <= i < |prefix| ==> text[i] == prefix[i];
    assert forall i :: |prefix| < i < |text| ==> text[i] == action[i - |prefix| - 1];
  }

  lemma {:induction false} SplitOf(prefix: string, action: string)
    requires IsWord(prefix) && IsWord(action)
    ensures SplitPermission(prefix + ":" + action) == Some((prefix, action))
  {
    var p := prefix + ":" + action;
    PrefixedIsPermission(prefix, action);
    PermissionSplits(p);
    assert p[|prefix|] == ':';
    FirstColonIs(p, |prefix|);
    var (a, b) := SplitPermission(p).value;
    assert a == p[..|prefix|] == prefix && b == p[|prefix| + 1..] == action;
  }

  /** Every page is a resource of its own, whether its action starts with `view_` or not; any other
      permission is grouped by its prefix. */
  lemma {:induction false} ResourceIs(service: string, prefix: string, action: string, name: Option<Name>)
    requires IsWord(prefix) && IsWord(action)
    ensures var r := Derive(service, prefix + ":" + action, name);
            && r.Some? && r.value.action == action
            && (prefix != "page" ==> r.value.resource == prefix)
            && (prefix == "page" && !("view_" < action) ==> r.value.resource == "page_" + action)
            && (prefix == "page" && "view_" < action ==>
                exists slug :: slug != "" && action == "view_" + slug && r.value.resource == "page_" + slug)
  {
    SplitOf(prefix, action);
    if prefix == "page" && VIEW < action {
      var slug := action[|VIEW|..];
      assert action == "view_" + slug;
    }
  }

  /** A string with something in it. */
  ghost predicate HasText(s: Option<string>) {
    s.Some? && !FilterStrings.Blank(s.value)
  }

  /** An entry is named exactly when its name has text in both languages, and then just so. */
  lemma {:induction false} EntryNameIs(service: string, raw: RawEntry, prefix: string)
    requires ParseEntry(service, raw, prefix).Some?
    ensures var name := ParseEntry(service, raw, prefix).value.name;
            && (name.Some? <==> raw.name.Halves? && HasText(raw.name.th) && HasText(raw.name.en))
            && (name.Some? ==> name.value == Name(raw.name.th.value, raw.name.en.value))
  {
    if raw.name.Halves? && raw.name.th.Some? && raw.name.en.Some? {
      FilterStrings.TrimBlankIff(raw.name.th.value);
      FilterStrings.TrimBlankIff(raw.name.en.value);
    }
  }

  ghost function GroupOf(page: Option<Scanned>, c: Scanned): string {
    if page.Some? then page.value.resource else c.resource
  }

  /** The declarations of a list of pieces, one after the other. */
  ghost function Concat(pieces: seq<seq<Scanned>>): seq<Scanned> {
    if pieces == [] then [] else Concat(pieces[..|pieces| - 1]) + pieces[|pieces| - 1]
  }

  lemma {:induction false} ConcatHas(pieces: seq<seq<Scanned>>, i: nat, y: nat) returns (x: nat)
    requires i < |pieces| && y < |pieces[i]|
    ensures x < |Concat(pieces)| && Concat(pieces)[x] == pieces[i][y]
  {
    var n := |pieces| - 1;
    if i < n {
      x := ConcatHas(pieces[..n], i, y);
    } else {
      x := |Concat(pieces[..n])| + y;
    }
  }

  ghost function ComponentPieces(service: string, page: Option<Scanned>, components: seq<RawEntry>): seq<seq<Scanned>> {
    seq(|components|, j requires 0 <= j < |components| =>
      Listed(Grouped(page, ParseEntry(service, components[j], "component:"))))
  }

  lemma {:induction false} ComponentsAreConcat(service: string, page: Option<Scanned>, components: seq<RawEntry>)
    ensures FromComponents(service, page, components) == Concat(ComponentPieces(service, page, components))
  {
    if components != [] {
      var n := |components| - 1;
      ComponentsAreConcat(service, page, components[..n]);
      var pieces := ComponentPieces(service, page, components);
      assert pieces[..n] == ComponentPieces(service, page, components[..n]);
    }
  }

  ghost function PagePieces(service: string, pages: seq<Page>): seq<seq<Scanned>> {
    seq(|pages|, i requires 0 <= i < |pages| => PagePiece(service, pages[i]))
  }

  ghost function PagePiece(service: string, page: Page): seq<Scanned> {
    var entry := ParseEntry(service, page.entry, "page:");
    Listed(entry) + FromComponents(service, entry, page.components)
  }

  lemma {:induction false} PagesAreConcat(service: string, pages: seq<Page>)
    ensures FromPages(service, pages) == Concat(PagePieces(service, pages))
  {
    if pages != [] {
      var n := |pages| - 1;
      PagesAreConcat(service, pages[..n]);
      PagePiecesNext(service, pages, n);
      FromPagesNext(service, pages, n);
    }
  }

  lemma {:induction false} PagePiecesNext(service: string, pages: seq<Page>, n: nat)
    requires |pages| == n + 1
    ensures PagePieces(service, pages)[..n] == PagePieces(service, pages[..n])
    ensures PagePieces(service, pages)[n] == PagePiece(service, pages[n])
  {
  }

  lemma {:induction false} FromPagesNext(service: string, pages: seq<Page>, n: nat)
    requires |pages| == n + 1
    ensures FromPages(service, pages) == FromPages(service, pages[..n]) + PagePiece(service, pages[n])
  {
  }

  lemma {:induction false} ComponentInPage(service: string, page: Page, j: nat, c: Scanned) returns (y: nat)
    requires j < |page.components| && ParseEntry(service, page.components[j], "component:") == Some(c)
    ensures y < |PagePiece(service, page)|
    ensures PagePiece(service, page)[y] == c.(resource := GroupOf(ParseEntry(service, page.entry, "page:"), c))
  {
    var entry := ParseEntry(service, page.entry, "page:");
    var z := ComponentInList(service, entry, page.components, j, c);
    y := |Listed(entry)| + z;
  }

  lemma {:induction false} ComponentInList(
    service: string, page: Option<Scanned>, components: seq<RawEntry>, j: nat, c: Scanned) returns (z: nat)
    requires j < |components| && ParseEntry(service, components[j], "component:") == Some(c)
    ensures z < |FromComponents(service, page, components)|
    ensures FromComponents(service, page, components)[z] == c.(resource := GroupOf(page, c))
  {
    var pieces := ComponentPieces(service, page, components);
    assert pieces[j] == [c.(resource := GroupOf(page, c))];
    z := ConcatHas(pieces, j, 0);
    ComponentsAreConcat(service, page, components);
  }

  /** A component is declared under the resource of its page, or under its own if the page was refused. */
  lemma {:induction false} ComponentIsGrouped(service: string, pages: seq<Page>, i: nat, j: nat, c: Scanned)
    returns (x: nat)
    requires i < |pages| && j < |pages[i].components|
    requires ParseEntry(service, pages[i].components[j], "component:") == Some(c)
    ensures x < |FromPages(service, pages)|
    ensures FromPages(service, pages)[x] == c.(resource := GroupOf(ParseEntry(service, pages[i].entry, "page:"), c))
  {
    var y := ComponentInPage(service, pages[i], j, c);
    x := ConcatHas(PagePieces(service, pages), i, y);
    PagesAreConcat(service, pages);
  }
}
