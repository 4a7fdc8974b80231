/** The web client's table of one module's versions
    (webui/src/Modules/ModuleVersionsTable.tsx): the installed release
    versions and the store's versions merged into one list of version ids,
    newest first, and the install or uninstall control of each row. */
module VersionsTable {
  import opened Util
  import opened Model
  import SemVer
  import Sorting

  /** ModuleStoreModuleInfoVersion, with the fields the table reads. */
  datatype StoreVersionInfo = StoreVersionInfo(
    id: string,
    apiVersion: string,
    tarUrl: Option<string>,
    releasedAt: Option<int>,
    deprecationReason: Option<string>)

  /** `allVersionsSet`, `installedModuleVersions` and `storeModuleVersions`.
      The set is a sequence in insertion order, as a JavaScript Set
      enumerates it. */
  datatype Tables = Tables(
    ids: seq<string>,
    installed: map<string, ClientVersionInfo>,
    store: map<string, StoreVersionInfo>)

  /** `set.add(id)` */
  function AddId(ids: seq<string>, id: string): seq<string> {
    if id in ids then ids else ids + [id]
  }

  /** The tables after the loop over the installed release versions: only
      versions with a truthy id are taken, a later one replacing an earlier
      one with the same id. */
  function CollectInstalled(rs: seq<ClientVersionInfo>): Tables {
    if |rs| == 0 then Tables([], map[], map[])
    else
      var t := CollectInstalled(rs[..|rs| - 1]);
      var v := rs[|rs| - 1];
      if Truthy(v.version.id) then
        t.(ids := AddId(t.ids, v.version.id.value), installed := t.installed[v.version.id.value := v])
      else t
  }

  /** The tables after the loop over the store's versions. */
  function CollectStore(t: Tables, vs: seq<StoreVersionInfo>): Tables {
    if |vs| == 0 then t
    else
      var u := CollectStore(t, vs[..|vs| - 1]);
      var v := vs[|vs| - 1];
      u.(ids := AddId(u.ids, v.id), store := u.store[v.id := v])
  }

  /** `moduleStoreInfo?.versions ?? []` */
  function StoreList(storeVersions: Option<seq<StoreVersionInfo>>): seq<StoreVersionInfo> {
    if storeVersions.Some? then storeVersions.value else []
  }

  ghost predicate InstalledId(rs: seq<ClientVersionInfo>, x: string) {
    exists i | 0 <= i < |rs| :: Truthy(rs[i].version.id) && rs[i].version.id.value == x
  }

  ghost predicate StoreId(vs: seq<StoreVersionInfo>, x: string) {
    exists i | 0 <= i < |vs| :: vs[i].id == x
  }

  /** v is the last installed release version whose id is x. */
  ghost predicate LastInstalled(rs: seq<ClientVersionInfo>, x: string, v: ClientVersionInfo) {
    exists i | 0 <= i < |rs| ::
      && rs[i] == v
      && v.version.id == Some(x)
      && forall j | i < j < |rs| :: rs[j].version.id != Some(x)
  }

  /** v is the last store version whose id is x. */
  ghost predicate LastStore(vs: seq<StoreVersionInfo>, x: string, v: StoreVersionInfo) {
    exists i | 0 <= i < |vs| ::
      && vs[i] == v
      && v.id == x
      && forall j | i < j < |vs| :: vs[j].id != x
  }

  /** The installed loop collects each truthy release id once, and nothing
      else. */
  lemma {:induction false} CollectInstalledIds(rs: seq<ClientVersionInfo>)
    ensures CollectInstalled(rs).store == map[]
    ensures Sorting.Distinct(CollectInstalled(rs).ids)
    ensures forall x :: x in CollectInstalled(rs).ids <==> x in CollectInstalled(rs).installed
    ensures forall x :: x in CollectInstalled(rs).installed <==> InstalledId(rs, x)
  {
    if |rs| > 0 {
      var n := |rs| - 1;
      var p := rs[..n];
      CollectInstalledIds(p);
      var u := CollectInstalled(rs);
      var v := rs[n];
      forall x ensures x in u.installed <==> InstalledId(rs, x) {
        if InstalledId(p, x) {
          var i :| 0 <= i < |p| && Truthy(p[i].version.id) && p[i].version.id.value == x;
          assert rs[i] == p[i];
        }
        if InstalledId(rs, x) && !(Truthy(v.version.id) && v.version.id.value == x) {
          var i :| 0 <= i < |rs| && Truthy(rs[i].version.id) && rs[i].version.id.value == x;
          assert i < n && p[i] == rs[i];
        }
      }
    }
  }

  /** Each collected id maps to the last installed release with that id. */
  lemma {:induction false} CollectInstalledLast(rs: seq<ClientVersionInfo>)
    ensures forall x | x in CollectInstalled(rs).installed :: LastInstalled(rs, x, CollectInstalled(rs).installed[x])
  {
    if |rs| > 0 {
      var n := |rs| - 1;
      var p := rs[..n];
      CollectInstalledLast(p);
      CollectInstalledIds(p);
      var t := CollectInstalled(p);
      var u := CollectInstalled(rs);
      var v := rs[n];
      forall x | x in u.installed ensures LastInstalled(rs, x, u.installed[x]) {
        if Truthy(v.version.id) && v.version.id.value == x {
          assert rs[n] == u.installed[x];
        } else {
          assert x in t.installed && u.installed[x] == t.installed[x];
          assert InstalledId(p, x);
          LastInstalledExtend(rs, x, t.installed[x]);
        }
      }
    }
  }

  /** A release that has another id leaves the last release with id `x` as
      it was. */
  lemma LastInstalledExtend(rs: seq<ClientVersionInfo>, x: string, w: ClientVersionInfo)
    requires |rs| > 0 && rs[|rs| - 1].version.id != Some(x)
    requires LastInstalled(rs[..|rs| - 1], x, w)
    ensures LastInstalled(rs, x, w)
  {
    var p := rs[..|rs| - 1];
    var i :| 0 <= i < |p| && p[i] == w && w.version.id == Some(x)
      && forall j | i < j < |p| :: p[j].version.id != Some(x);
    assert rs[i] == p[i];
    forall j | i < j < |rs| ensures rs[j].version.id != Some(x) {
      if j < |p| {
        assert rs[j] == p[j];
      }
    }
  }

  lemma {:induction false} CollectStoreIds(t: Tables, vs: seq<StoreVersionInfo>)
    requires Sorting.Distinct(t.ids)
    ensures CollectStore(t, vs).installed == t.installed
    ensures Sorting.Distinct(CollectStore(t, vs).ids)
    ensures forall x :: x in CollectStore(t, vs).ids <==> x in t.ids || StoreId(vs, x)
  {
    if |vs| > 0 {
      var n := |vs| - 1;
      var p := vs[..n];
      CollectStoreIds(t, p);
      forall x ensures x in CollectStore(t, vs).ids <==> x in t.ids || StoreId(vs, x) {
        if StoreId(p, x) {
          var i :| 0 <= i < |p| && p[i].id == x;
          assert vs[i] == p[i];
        }
        if StoreId(vs, x) && vs[n].id != x {
          var i :| 0 <= i < |vs| && vs[i].id == x;
          assert i < n && p[i] == vs[i];
        }
      }
    }
  }

  lemma {:induction false} CollectStoreMap(t: Tables, vs: seq<StoreVersionInfo>)
    requires t.store == map[]
    ensures forall x :: x in CollectStore(t, vs).store <==> StoreId(vs, x)
    ensures forall x | x in CollectStore(t, vs).store :: LastStore(vs, x, CollectStore(t, vs).store[x])
  {
    if |vs| > 0 {
      var n := |vs| - 1;
      var p := vs[..n];
      CollectStoreMap(t, p);
      var w := CollectStore(t, p);
      var u := CollectStore(t, vs);
      var v := vs[n];
      assert u.store == w.store[v.id := v];
      forall x ensures x in u.store <==> StoreId(vs, x) {
        if StoreId(p, x) {
          var i :| 0 <= i < |p| && p[i].id == x;
          assert vs[i] == p[i];
        }
        if StoreId(vs, x) && v.id != x {
          var i :| 0 <= i < |vs| && vs[i].id == x;
          assert i < n && p[i] == vs[i];
        }
      }
      forall x | x in u.store ensures LastStore(vs, x, u.store[x]) {
        if v.id == x {
          assert vs[n] == u.store[x];
        } else {
          assert x in w.store && u.store[x] == w.store[x];
          LastStoreExtend(vs, x, w.store[x]);
        }
      }
    }
  }

  /** A store version with another id leaves the last version with id `x`
      as it was. */
  lemma LastStoreExtend(vs: seq<StoreVersionInfo>, x: string, w: StoreVersionInfo)
    requires |vs| > 0 && vs[|vs| - 1].id != x
    requires LastStore(vs[..|vs| - 1], x, w)
    ensures LastStore(vs, x, w)
  {
    var p := vs[..|vs| - 1];
    var i :| 0 <= i < |p| && p[i] == w && w.id == x && forall j | i < j < |p| :: p[j].id != x;
    assert vs[i] == p[i];
    forall j | i < j < |vs| ensures vs[j].id != x {
      if j < |p| {
        assert vs[j] == p[j];
      }
    }
  }

  /** The comparator `(a, b) => semver.compare(b, a)` as "a may come before
      b": a is not an older version than b. */
  predicate NotOlder(a: string, b: string) {
    SemVer.Valid(a) && SemVer.Valid(b) ==> SemVer.Compare(b, a) <= 0
  }

  lemma NotOlderIsPreorder(dom: set<string>)
    requires forall x | x in dom :: SemVer.Valid(x)
    ensures Sorting.TotalPreorderOn(NotOlder, dom)
  {
    forall a, b | a in dom && b in dom ensures NotOlder(a, b) || NotOlder(b, a) {
      SemVer.CompareProps(a, b, a);
    }
    forall a, b, c | a in dom && b in dom && c in dom && NotOlder(a, b) && NotOlder(b, c)
      ensures NotOlder(a, c)
    {
      SemVer.CompareProps(c, b, a);
    }
  }

  /** The row for `versionId`: its store and installed information, and
      whether it is the latest stable or latest prerelease version. */
  datatype VersionRow = VersionRow(
    versionId: string,
    storeInfo: Option<StoreVersionInfo>,
    installedInfo: Option<ClientVersionInfo>,
    isLatestStable: bool,
    isLatestPrerelease: bool)

  /** `!!slot && slot.versionId === versionId` */
  predicate IsSlot(slot: Option<ClientVersionInfo>, versionId: string) {
    slot.Some? && slot.value.versionId == Some(versionId)
  }

  function MakeRow(moduleInfo: ClientModuleInfo, t: Tables, versionId: string): VersionRow {
    VersionRow(
      versionId,
      if versionId in t.store then Some(t.store[versionId]) else None,
      if versionId in t.installed then Some(t.installed[versionId]) else None,
      IsSlot(moduleInfo.stableVersion, versionId),
      IsSlot(moduleInfo.prereleaseVersion, versionId))
  }

  function CollectAll(moduleInfo: ClientModuleInfo, storeVersions: Option<seq<StoreVersionInfo>>): Tables {
    CollectStore(CollectInstalled(moduleInfo.releaseVersions), StoreList(storeVersions))
  }

  /** `Array.from(allVersionsSet).sort(...)` */
  function VersionOrder(moduleInfo: ClientModuleInfo, storeVersions: Option<seq<StoreVersionInfo>>): seq<string> {
    Sorting.Sort(NotOlder, CollectAll(moduleInfo, storeVersions).ids)
  }

  /** The rows the table lists, in order. */
  function TableRows(moduleInfo: ClientModuleInfo, storeVersions: Option<seq<StoreVersionInfo>>): seq<VersionRow> {
    var t := CollectAll(moduleInfo, storeVersions);
    var order := VersionOrder(moduleInfo, storeVersions);
    seq(|order|, k requires 0 <= k < |order| => MakeRow(moduleInfo, t, order[k]))
  }

  /** Every version id the table compares is a valid semantic version;
      `semver.compare` throws otherwise. */
  ghost predicate ComparableIds(moduleInfo: ClientModuleInfo, storeVersions: Option<seq<StoreVersionInfo>>) {
    && (forall i | 0 <= i < |moduleInfo.releaseVersions| ::
          Truthy(moduleInfo.releaseVersions[i].version.id) ==> SemVer.Valid(moduleInfo.releaseVersions[i].version.id.value))
    && (forall i | 0 <= i < |StoreList(storeVersions)| :: SemVer.Valid(StoreList(storeVersions)[i].id))
  }

  /** The table renders without an exception: `sort` calls `semver.compare`
      only when there are two or more ids, and then every id must be valid. */
  ghost predicate RenderableIds(moduleInfo: ClientModuleInfo, storeVersions: Option<seq<StoreVersionInfo>>) {
    |CollectAll(moduleInfo, storeVersions).ids| < 2 || ComparableIds(moduleInfo, storeVersions)
  }

  /** What the two loops collect: every id of an installed release (with a
      truthy id) or of a store version, once each; the last installed and
      the last store entry of each id. */
  lemma CollectAllProps(moduleInfo: ClientModuleInfo, storeVersions: Option<seq<StoreVersionInfo>>)
    ensures var t := CollectAll(moduleInfo, storeVersions);
      && Sorting.Distinct(t.ids)
      && (forall x :: x in t.ids <==>
            InstalledId(moduleInfo.releaseVersions, x) || StoreId(StoreList(storeVersions), x))
      && (forall x :: x in t.installed <==> InstalledId(moduleInfo.releaseVersions, x))
      && (forall x :: x in t.store <==> StoreId(StoreList(storeVersions), x))
      && (forall x | x in t.installed :: LastInstalled(moduleInfo.releaseVersions, x, t.installed[x]))
      && (forall x | x in t.store :: LastStore(StoreList(storeVersions), x, t.store[x]))
  {
    var rs := moduleInfo.releaseVersions;
    CollectInstalledIds(rs);
    CollectInstalledLast(rs);
    CollectStoreIds(CollectInstalled(rs), StoreList(storeVersions));
    CollectStoreMap(CollectInstalled(rs), StoreList(storeVersions));
  }

  /** The sorted ids are the collected ids, once each, newest first; when
      there are two or more, every one is a valid version. */
  lemma VersionOrderCorrect(moduleInfo: ClientModuleInfo, storeVersions: Option<seq<StoreVersionInfo>>)
    requires RenderableIds(moduleInfo, storeVersions)
    ensures var ids := CollectAll(moduleInfo, storeVersions).ids;
      var order := VersionOrder(moduleInfo, storeVersions);
      && (forall x :: x in order <==> x in ids)
      && (forall x :: x in order <==>
            InstalledId(moduleInfo.releaseVersions, x) || StoreId(StoreList(storeVersions), x))
      && Sorting.Distinct(order)
      && (ComparableIds(moduleInfo, storeVersions) || |order| >= 2 ==> forall x | x in order :: SemVer.Valid(x))
      && (forall k, l | 0 <= k < l < |order| :: SemVer.Compare(order[l], order[k]) <= 0)
  {
    CollectAllProps(moduleInfo, storeVersions);
    var ids := CollectAll(moduleInfo, storeVersions).ids;
    var order := Sorting.Sort(NotOlder, ids);
    assert |order| == |multiset(order)| == |multiset(ids)| == |ids|;
    Sorting.PermutationKeepsDistinct(ids, order);
    forall x ensures x in order <==> x in ids {
      assert x in order <==> x in multiset(order);
      assert x in ids <==> x in multiset(ids);
    }
    if ComparableIds(moduleInfo, storeVersions) {
      CollectedIdsValid(moduleInfo, storeVersions);
      var dom := set x | x in ids;
      NotOlderIsPreorder(dom);
      Sorting.SortCorrect(NotOlder, ids, dom);
      forall k, l | 0 <= k < l < |order| ensures SemVer.Compare(order[l], order[k]) <= 0 {
        assert NotOlder(order[k], order[l]);
        assert order[k] in ids && order[l] in ids;
      }
    }
  }

  /** Under `ComparableIds` every collected id is a valid version. */
  lemma CollectedIdsValid(moduleInfo: ClientModuleInfo, storeVersions: Option<seq<StoreVersionInfo>>)
    requires ComparableIds(moduleInfo, storeVersions)
    ensures forall x | x in CollectAll(moduleInfo, storeVersions).ids :: SemVer.Valid(x)
    ensures Sorting.Distinct(CollectAll(moduleInfo, storeVersions).ids)
    ensures forall x :: x in CollectAll(moduleInfo, storeVersions).ids <==>
      InstalledId(moduleInfo.releaseVersions, x) || StoreId(StoreList(storeVersions), x)
  {
    var rs := moduleInfo.releaseVersions;
    var vs := StoreList(storeVersions);
    CollectAllProps(moduleInfo, storeVersions);
    forall x | x in CollectAll(moduleInfo, storeVersions).ids ensures SemVer.Valid(x) {
      if InstalledId(rs, x) {
        var i :| 0 <= i < |rs| && Truthy(rs[i].version.id) && rs[i].version.id.value == x;
      } else {
        var i :| 0 <= i < |vs| && vs[i].id == x;
      }
    }
  }

  /** The table lists each id of an installed release (with a truthy id) or
      of a store version exactly once, newest first. */
  lemma TableIdsCorrect(moduleInfo: ClientModuleInfo, storeVersions: Option<seq<StoreVersionInfo>>)
    requires RenderableIds(moduleInfo, storeVersions)
    ensures var rows := TableRows(moduleInfo, storeVersions);
      && (forall x :: (exists k | 0 <= k < |rows| :: rows[k].versionId == x) <==>
            InstalledId(moduleInfo.releaseVersions, x) || StoreId(StoreList(storeVersions), x))
      && (forall k, l | 0 <= k < l < |rows| :: rows[k].versionId != rows[l].versionId)
      && (ComparableIds(moduleInfo, storeVersions) || |rows| >= 2 ==>
            forall k | 0 <= k < |rows| :: SemVer.Valid(rows[k].versionId))
      && (forall k, l | 0 <= k < l < |rows| :: SemVer.Compare(rows[l].versionId, rows[k].versionId) <= 0)
  {
    VersionOrderCorrect(moduleInfo, storeVersions);
    var order := VersionOrder(moduleInfo, storeVersions);
    var rows := TableRows(moduleInfo, storeVersions);
    assert |rows| == |order|;
    assert forall k | 0 <= k < |rows| :: rows[k].versionId == order[k];
    forall x ensures (exists k | 0 <= k < |rows| :: rows[k].versionId == x) <==> x in order {
      if x in order {
        var k :| 0 <= k < |order| && order[k] == x;
        assert rows[k].versionId == x;
      }
    }
  }

  /** Each row carries the last installed and the last store entry with its
      id, at least one of the two, and the latest-stable and
      latest-prerelease flags. */
  lemma TableRowCorrect(moduleInfo: ClientModuleInfo, storeVersions: Option<seq<StoreVersionInfo>>, k: nat)
    requires k < |TableRows(moduleInfo, storeVersions)|
    ensures var row := TableRows(moduleInfo, storeVersions)[k];
      && (row.installedInfo.Some? <==> InstalledId(moduleInfo.releaseVersions, row.versionId))
      && (row.installedInfo.Some? ==> LastInstalled(moduleInfo.releaseVersions, row.versionId, row.installedInfo.value))
      && (row.storeInfo.Some? <==> StoreId(StoreList(storeVersions), row.versionId))
      && (row.storeInfo.Some? ==> LastStore(StoreList(storeVersions), row.versionId, row.storeInfo.value))
      && (row.installedInfo.Some? || row.storeInfo.Some?)
      && (row.isLatestStable <==> IsSlot(moduleInfo.stableVersion, row.versionId))
      && (row.isLatestPrerelease <==> IsSlot(moduleInfo.prereleaseVersion, row.versionId))
  {
    CollectAllProps(moduleInfo, storeVersions);
    var t := CollectAll(moduleInfo, storeVersions);
    var order := VersionOrder(moduleInfo, storeVersions);
    assert TableRows(moduleInfo, storeVersions)[k] == MakeRow(moduleInfo, t, order[k]);
    assert order[k] in multiset(order);
    assert order[k] in t.ids;
  }

  /** The rendering of `ModuleVersionsTable`: the two loops fill the tables,
      the ids are sorted newest first and each becomes a row. */
  method ModuleVersionsTable(moduleInfo: ClientModuleInfo, storeVersions: Option<seq<StoreVersionInfo>>)
    returns (rows: seq<VersionRow>)
    requires RenderableIds(moduleInfo, storeVersions)
    ensures rows == TableRows(moduleInfo, storeVersions)
  {
    var allVersionsSet: seq<string> := [];
    var installedModuleVersions: map<string, ClientVersionInfo> := map[];
    var rs := moduleInfo.releaseVersions;
    for i := 0 to |rs|
      invariant Tables(allVersionsSet, installedModuleVersions, map[]) == CollectInstalled(rs[..i])
    {
      assert rs[..i + 1][..i] == rs[..i];
      var version := rs[i];
      if version.version.id.Some? && version.version.id.value != "" {
        var id := version.version.id.value;
        installedModuleVersions := installedModuleVersions[id := version];
        if id !in allVersionsSet {
          allVersionsSet := allVersionsSet + [id];
        }
      }
    }
    assert rs[..|rs|] == rs;
    var storeModuleVersions: map<string, StoreVersionInfo> := map[];
    var vs := StoreList(storeVersions);
    for i := 0 to |vs|
      invariant Tables(allVersionsSet, installedModuleVersions, storeModuleVersions)
        == CollectStore(CollectInstalled(rs), vs[..i])
    {
      assert vs[..i + 1][..i] == vs[..i];
      var version := vs[i];
      storeModuleVersions := storeModuleVersions[version.id := version];
      if version.id !in allVersionsSet {
        allVersionsSet := allVersionsSet + [version.id];
      }
    }
    assert vs[..|vs|] == vs;
    var t := Tables(allVersionsSet, installedModuleVersions, storeModuleVersions);
    var allVersionNumbers := Sorting.Sort(NotOlder, allVersionsSet);
    rows := seq(|allVersionNumbers|, k requires 0 <= k < |allVersionNumbers| =>
      MakeRow(moduleInfo, t, allVersionNumbers[k]));
  }

  /** The first cell of a row: nothing, the lock of a builtin version, the
      remove button, or, for a version that is not installed, the
      "no longer available" and "not compatible" icons or the install
      button. */
  datatype VersionControl = NoRow | LockIcon | RemoveButton | UnavailableIcon | IncompatibleIcon | InstallButton

  /** `ModuleVersionRow` with `ModuleUninstallButton` and
      `ModuleInstallButton`; API compatibility is decided by
      `isApiVersionCompatible`. */
  function RowControl(row: VersionRow, isApiVersionCompatible: string -> bool): (c: VersionControl)
    ensures c == NoRow <==> row.storeInfo.None? && row.installedInfo.None?
    ensures row.installedInfo.Some? ==> c == (if row.installedInfo.value.isBuiltin then LockIcon else RemoveButton)
    ensures c == UnavailableIcon <==>
      row.installedInfo.None? && row.storeInfo.Some? && !Truthy(row.storeInfo.value.tarUrl)
    ensures c == IncompatibleIcon <==>
      && row.installedInfo.None? && row.storeInfo.Some? && Truthy(row.storeInfo.value.tarUrl)
      && !isApiVersionCompatible(row.storeInfo.value.apiVersion)
    ensures c == InstallButton <==>
      && row.installedInfo.None? && row.storeInfo.Some? && Truthy(row.storeInfo.value.tarUrl)
      && isApiVersionCompatible(row.storeInfo.value.apiVersion)
  {
    if row.storeInfo.None? && row.installedInfo.None? then NoRow
    else if row.installedInfo.Some? then
      if row.installedInfo.value.isBuiltin then LockIcon else RemoveButton
    else if !Truthy(row.storeInfo.value.tarUrl) then UnavailableIcon
    else if !isApiVersionCompatible(row.storeInfo.value.apiVersion) then IncompatibleIcon
    else InstallButton
  }

  /** Every listed row renders; a version can be removed only when it is
      installed and not builtin, and installed only from the store with a
      download address and a compatible API version. */
  lemma ListedRowsRender(moduleInfo: ClientModuleInfo, storeVersions: Option<seq<StoreVersionInfo>>,
                         isApiVersionCompatible: string -> bool, k: nat)
    requires k < |TableRows(moduleInfo, storeVersions)|
    ensures var row := TableRows(moduleInfo, storeVersions)[k];
      && RowControl(row, isApiVersionCompatible) != NoRow
      && (RowControl(row, isApiVersionCompatible) == RemoveButton ==>
            && InstalledId(moduleInfo.releaseVersions, row.versionId)
            && row.installedInfo.Some? && !row.installedInfo.value.isBuiltin)
      && (RowControl(row, isApiVersionCompatible) == InstallButton ==>
            && !InstalledId(moduleInfo.releaseVersions, row.versionId)
            && StoreId(StoreList(storeVersions), row.versionId)
            && row.storeInfo.Some?
            && Truthy(row.storeInfo.value.tarUrl)
            && isApiVersionCompatible(row.storeInfo.value.apiVersion))
  {
    TableRowCorrect(moduleInfo, storeVersions, k);
  }
}
