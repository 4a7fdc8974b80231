/** The web client's list of installed modules
    (webui/src/Modules2/ModulesList.tsx): which modules the four kind
    filters let through, one row per module id, the order of the rows and
    the count of hidden modules, and the persisted filter settings. The
    search results are an input; the fuzzy search that produces them is not
    modelled. */
module ModulesList {
  import opened Util
  import opened Records
  import opened Model
  import Sorting

  /** VisibleModulesState */
  datatype Visibility = Visibility(dev: bool, builtin: bool, store: bool, custom: bool)

  /** `keyof VisibleModulesState` */
  datatype VisibilityKey = DevKey | BuiltinKey | StoreKey | CustomKey

  function Shown(v: Visibility, k: VisibilityKey): bool {
    match k
    case DevKey => v.dev
    case BuiltinKey => v.builtin
    case StoreKey => v.store
    case CustomKey => v.custom
  }

  /** `doToggleVisibility(key)`: `{ ...oldConfig, [key]: !oldConfig[key] }` */
  function Toggle(v: Visibility, k: VisibilityKey): (r: Visibility)
    ensures Shown(r, k) == !Shown(v, k)
    ensures forall k' | k' != k :: Shown(r, k') == Shown(v, k')
  {
    match k
    case DevKey => v.(dev := !v.dev)
    case BuiltinKey => v.(builtin := !v.builtin)
    case StoreKey => v.(store := !v.store)
    case CustomKey => v.(custom := !v.custom)
  }

  /** Toggling a key twice restores the settings. */
  lemma ToggleTwice(v: Visibility, k: VisibilityKey)
    ensures Toggle(Toggle(v, k), k) == v
  {
    var r := Toggle(Toggle(v, k), k);
    assert forall k' :: Shown(r, k') == Shown(v, k');
    assert Shown(r, DevKey) == Shown(v, DevKey) && Shown(r, BuiltinKey) == Shown(v, BuiltinKey);
    assert Shown(r, StoreKey) == Shown(v, StoreKey) && Shown(r, CustomKey) == Shown(v, CustomKey);
  }

  /** What `localStorage` holds under `modules_visible`: nothing, something
      that cannot be read or parsed, JSON `null`, or a settings object. */
  datatype StoredVisibility = NotStored | Unreadable | StoredNull | Stored(config: Visibility)

  const AllShown := Visibility(true, true, true, true)

  /** `loadVisibility()`: the settings and what it writes back to storage.
      A stored `null` becomes `{}`, whose flags are all undefined and so
      hide every kind; with nothing usable stored, every kind is shown and
      that default is saved. */
  function LoadVisibility(stored: StoredVisibility): (r: (Visibility, Option<Visibility>))
    ensures stored.Stored? ==> r == (stored.config, None)
    ensures stored.StoredNull? ==> r.1 == None && forall k :: !Shown(r.0, k)
    ensures stored.NotStored? || stored.Unreadable? ==>
      r.1 == Some(r.0) && forall k :: Shown(r.0, k)
  {
    match stored
    case Stored(config) => (config, None)
    case StoredNull => (Visibility(false, false, false, false), None)
    case _ => (AllShown, Some(AllShown))
  }

  /** The `reduce` over the release versions: whether some release is
      builtin, and whether some release is not. */
  function ReleaseKinds(rs: seq<ClientVersionInfo>): (r: (bool, bool))
    ensures r.0 <==> exists i | 0 <= i < |rs| :: rs[i].isBuiltin
    ensures r.1 <==> exists i | 0 <= i < |rs| :: !rs[i].isBuiltin
  {
    if |rs| == 0 then (false, false)
    else
      var p := rs[..|rs| - 1];
      var acc := ReleaseKinds(p);
      assert forall i | 0 <= i < |p| :: p[i] == rs[i];
      if rs[|rs| - 1].isBuiltin then (true, acc.1) else (acc.0, true)
  }

  /** The module passes the kind filters. */
  predicate IsVisible(m: ClientModuleInfo, vis: Visibility) {
    var kinds := ReleaseKinds(m.releaseVersions);
    || (m.hasDevVersion && vis.dev)
    || (|m.customVersions| > 0 && vis.custom)
    || (kinds.0 && vis.builtin)
    || (kinds.1 && vis.store)
  }

  /** A module is shown when a shown kind applies to it: it has a
      development build, custom builds, a builtin release or a store
      release. */
  lemma IsVisibleMeans(m: ClientModuleInfo, vis: Visibility)
    ensures IsVisible(m, vis) <==>
      || (m.hasDevVersion && vis.dev)
      || (|m.customVersions| > 0 && vis.custom)
      || ((exists i | 0 <= i < |m.releaseVersions| :: m.releaseVersions[i].isBuiltin) && vis.builtin)
      || ((exists i | 0 <= i < |m.releaseVersions| :: !m.releaseVersions[i].isBuiltin) && vis.store)
  {
  }

  /** `candidatesObj` after the loop: the visible search results by module
      id; a later result with the same id replaces the earlier one in
      place. */
  function Candidates(results: seq<ClientModuleInfo>, vis: Visibility): Record<ClientModuleInfo> {
    if |results| == 0 then []
    else
      var c := Candidates(results[..|results| - 1], vis);
      var m := results[|results| - 1];
      if IsVisible(m, vis) then Put(c, m.baseInfo.id, m) else c
  }

  ghost predicate VisibleId(results: seq<ClientModuleInfo>, vis: Visibility, id: string) {
    exists i | 0 <= i < |results| :: results[i].baseInfo.id == id && IsVisible(results[i], vis)
  }

  /** m is the last visible search result with this id. */
  ghost predicate LastVisible(results: seq<ClientModuleInfo>, vis: Visibility, id: string, m: ClientModuleInfo) {
    exists i | 0 <= i < |results| ::
      && results[i] == m
      && m.baseInfo.id == id
      && IsVisible(m, vis)
      && forall j | i < j < |results| :: !(results[j].baseInfo.id == id && IsVisible(results[j], vis))
  }

  lemma {:induction false} CandidatesKeys(results: seq<ClientModuleInfo>, vis: Visibility)
    ensures DistinctKeys(Candidates(results, vis))
    ensures forall id :: Get(Candidates(results, vis), id).Some? <==> VisibleId(results, vis, id)
  {
    CandidatesDistinct(results, vis);
    forall id ensures Get(Candidates(results, vis), id).Some? <==> VisibleId(results, vis, id) {
      CandidateIds(results, vis, id);
    }
  }

  lemma {:induction false} CandidatesDistinct(results: seq<ClientModuleInfo>, vis: Visibility)
    ensures DistinctKeys(Candidates(results, vis))
  {
    if |results| > 0 {
      var n := |results| - 1;
      var m := results[n];
      CandidatesDistinct(results[..n], vis);
      if IsVisible(m, vis) {
        PutDistinct(Candidates(results[..n], vis), m.baseInfo.id, m);
      }
    }
  }

  lemma {:induction false} CandidateIds(results: seq<ClientModuleInfo>, vis: Visibility, id: string)
    ensures Get(Candidates(results, vis), id).Some? <==> VisibleId(results, vis, id)
  {
    if |results| > 0 {
      var n := |results| - 1;
      var p := results[..n];
      var m := results[n];
      CandidateIds(p, vis, id);
      var hit := m.baseInfo.id == id && IsVisible(m, vis);
      assert Get(Candidates(results, vis), id).Some? <==> hit || Get(Candidates(p, vis), id).Some?;
      if VisibleId(p, vis, id) {
        var i :| 0 <= i < |p| && p[i].baseInfo.id == id && IsVisible(p[i], vis);
        assert results[i] == p[i];
      }
      if hit {
        assert results[n] == m;
      }
      if VisibleId(results, vis, id) && !hit {
        var i :| 0 <= i < |results| && results[i].baseInfo.id == id && IsVisible(results[i], vis);
        assert i < n && p[i] == results[i];
      }
    }
  }

  lemma CandidatesLast(results: seq<ClientModuleInfo>, vis: Visibility)
    ensures forall id | Get(Candidates(results, vis), id).Some? ::
      LastVisible(results, vis, id, Get(Candidates(results, vis), id).value)
  {
    forall id | Get(Candidates(results, vis), id).Some?
      ensures LastVisible(results, vis, id, Get(Candidates(results, vis), id).value)
    {
      CandidateLast(results, vis, id);
    }
  }

  lemma {:induction false} CandidateLast(results: seq<ClientModuleInfo>, vis: Visibility, id: string)
    ensures Get(Candidates(results, vis), id).Some? ==>
      LastVisible(results, vis, id, Get(Candidates(results, vis), id).value)
  {
    if |results| > 0 {
      var n := |results| - 1;
      var p := results[..n];
      var m := results[n];
      CandidateLast(p, vis, id);
      var g := Get(Candidates(results, vis), id);
      if m.baseInfo.id == id && IsVisible(m, vis) {
        assert g == Some(m);
        assert results[n] == m;
      } else if g.Some? {
        assert g == Get(Candidates(p, vis), id);
        LastVisibleExtend(results, vis, id, g.value);
      }
    }
  }

  /** A result that hides or has another id leaves the last visible result
      with `id` as it was. */
  lemma LastVisibleExtend(results: seq<ClientModuleInfo>, vis: Visibility, id: string, w: ClientModuleInfo)
    requires |results| > 0
    requires !(results[|results| - 1].baseInfo.id == id && IsVisible(results[|results| - 1], vis))
    requires LastVisible(results[..|results| - 1], vis, id, w)
    ensures LastVisible(results, vis, id, w)
  {
    var p := results[..|results| - 1];
    var i :| 0 <= i < |p| && p[i] == w && w.baseInfo.id == id && IsVisible(w, vis)
      && forall j | i < j < |p| :: !(p[j].baseInfo.id == id && IsVisible(p[j], vis));
    assert results[i] == p[i];
    forall j | i < j < |results| ensures !(results[j].baseInfo.id == id && IsVisible(results[j], vis)) {
      if j < |p| {
        assert results[j] == p[j];
      }
    }
  }

  /** The row comparator `aName < bName ? -1 : aName > bName ? 1 : 0` on
      lower-cased ids, as "a may come before b". */
  predicate LowerIdFirst(a: (string, ClientModuleInfo), b: (string, ClientModuleInfo)) {
    !StrLess(AsciiLower(b.0), AsciiLower(a.0))
  }

  lemma LowerIdFirstIsPreorder(dom: set<(string, ClientModuleInfo)>)
    ensures Sorting.TotalPreorderOn(LowerIdFirst, dom)
  {
    forall a, b | a in dom && b in dom ensures LowerIdFirst(a, b) || LowerIdFirst(b, a) {
      var x, y := AsciiLower(a.0), AsciiLower(b.0);
      if x == y {
        StrLessIrreflexive(x);
      } else {
        StrLessTotal(x, y);
      }
    }
    forall a, b, c | a in dom && b in dom && c in dom && LowerIdFirst(a, b) && LowerIdFirst(b, c)
      ensures LowerIdFirst(a, c)
    {
      var x, y, z := AsciiLower(a.0), AsciiLower(b.0), AsciiLower(c.0);
      StrLeTotalOrder(x, y, z);
      StrLeTotalOrder(z, x, y);
      if x != y { StrLessTotal(x, y); }
      if y != z { StrLessTotal(y, z); }
      if x != z { StrLessTotal(x, z); }
      StrLessIrreflexive(x);
    }
  }

  /** `Object.entries(candidatesObj)`, sorted by lower-cased id only when
      there is no search filter. */
  function ListRows(results: seq<ClientModuleInfo>, vis: Visibility, filter: string): Record<ClientModuleInfo> {
    var c := Candidates(results, vis);
    if filter == "" then Sorting.Sort(LowerIdFirst, c) else c
  }

  /** The entries of a duplicate-key-free record, reordered, still have
      distinct keys and are entries of the record. */
  lemma ReorderedRecord(r: Record<ClientModuleInfo>, s: Record<ClientModuleInfo>)
    requires DistinctKeys(r)
    requires multiset(r) == multiset(s)
    ensures forall k | 0 <= k < |s| :: Get(r, s[k].0) == Some(s[k].1)
    ensures DistinctKeys(s)
  {
    forall k | 0 <= k < |s| ensures Get(r, s[k].0) == Some(s[k].1) {
      assert s[k] in multiset(r);
      var i :| 0 <= i < |r| && r[i] == s[k];
      GetOfDistinct(r, i);
    }
    assert Sorting.Distinct(r);
    Sorting.PermutationKeepsDistinct(r, s);
  }

  /** The rows are the candidates: sorted by lower-cased id without a
      filter, as they are with one. */
  lemma RowsOrder(results: seq<ClientModuleInfo>, vis: Visibility, filter: string)
    ensures var rows := ListRows(results, vis, filter);
      && multiset(rows) == multiset(Candidates(results, vis))
      && (filter == "" ==>
            forall k, l | 0 <= k < l < |rows| :: !StrLess(AsciiLower(rows[l].0), AsciiLower(rows[k].0)))
      && (filter != "" ==> rows == Candidates(results, vis))
  {
    if filter == "" {
      var c := Candidates(results, vis);
      var dom := set e | e in c;
      LowerIdFirstIsPreorder(dom);
      Sorting.SortCorrect(LowerIdFirst, c, dom);
    }
  }

  /** The rows are one per visible module id, each showing the last visible
      search result with that id; without a filter they are in ascending
      order of lower-cased id, with a filter in the order the ids were
      first seen. */
  lemma ListRowsCorrect(results: seq<ClientModuleInfo>, vis: Visibility, filter: string)
    ensures var rows := ListRows(results, vis, filter);
      && DistinctKeys(rows)
      && (forall id :: (exists k | 0 <= k < |rows| :: rows[k].0 == id) <==> VisibleId(results, vis, id))
      && (forall k | 0 <= k < |rows| :: LastVisible(results, vis, rows[k].0, rows[k].1))
      && (filter == "" ==>
            forall k, l | 0 <= k < l < |rows| :: !StrLess(AsciiLower(rows[l].0), AsciiLower(rows[k].0)))
      && (filter != "" ==> rows == Candidates(results, vis))
  {
    CandidatesKeys(results, vis);
    CandidatesLast(results, vis);
    RowsOrder(results, vis, filter);
    var c := Candidates(results, vis);
    var rows := ListRows(results, vis, filter);
    ReorderedRecord(c, rows);
    forall id ensures (exists k | 0 <= k < |rows| :: rows[k].0 == id) <==> VisibleId(results, vis, id) {
      if VisibleId(results, vis, id) {
        var i :| 0 <= i < |c| && c[i] == (id, Get(c, id).value);
        assert c[i] in multiset(rows);
        var k :| 0 <= k < |rows| && rows[k] == c[i];
      }
    }
  }

  /** When every search result belongs to one of the installed modules,
      the list never shows more rows than there are modules, so the hidden
      count is not negative. */
  lemma HiddenCountNonNegative(results: seq<ClientModuleInfo>, vis: Visibility, filter: string, moduleIds: set<string>)
    requires forall i | 0 <= i < |results| :: results[i].baseInfo.id in moduleIds
    ensures |ListRows(results, vis, filter)| <= |moduleIds|
  {
    ListRowsCorrect(results, vis, filter);
    var rows := ListRows(results, vis, filter);
    var ks := Keys(rows);
    forall i, j | 0 <= i < j < |ks| ensures ks[i] != ks[j] {
    }
    Sorting.DistinctCardinality(ks);
    forall x | x in ks ensures x in moduleIds {
      var k :| 0 <= k < |ks| && ks[k] == x;
      assert VisibleId(results, vis, rows[k].0);
    }
    SubsetCardinality((set x | x in ks), moduleIds);
  }

  lemma {:induction false} SubsetCardinality(a: set<string>, b: set<string>)
    requires a <= b
    ensures |a| <= |b|
  {
    if a != {} {
      var x :| x in a;
      SubsetCardinality(a - {x}, b - {x});
    }
  }

  /** The body of `ModulesList`: the candidate loop, the optional sort and
      `hiddenCount`, for the search results of the current filter and the
      number of installed modules. */
  method ModulesList(searchResults: seq<ClientModuleInfo>, visibleModules: Visibility, filter: string, moduleCount: nat)
    returns (components: Record<ClientModuleInfo>, hiddenCount: int)
    ensures components == ListRows(searchResults, visibleModules, filter)
    ensures hiddenCount == moduleCount - |components|
  {
    var candidatesObj: Record<ClientModuleInfo> := [];
    for i := 0 to |searchResults|
      invariant candidatesObj == Candidates(searchResults[..i], visibleModules)
    {
      assert searchResults[..i + 1][..i] == searchResults[..i];
      var moduleInfo := searchResults[i];
      var isVisible := false;
      if moduleInfo.hasDevVersion && visibleModules.dev {
        isVisible := true;
      }
      if |moduleInfo.customVersions| > 0 && visibleModules.custom {
        isVisible := true;
      }
      var kinds := ReleaseKinds(moduleInfo.releaseVersions);
      if kinds.0 && visibleModules.builtin {
        isVisible := true;
      }
      if kinds.1 && visibleModules.store {
        isVisible := true;
      }
      if isVisible {
        candidatesObj := Put(candidatesObj, moduleInfo.baseInfo.id, moduleInfo);
      }
    }
    assert searchResults[..|searchResults|] == searchResults;
    if filter == "" {
      components := Sorting.Sort(LowerIdFirst, candidatesObj);
    } else {
      components := candidatesObj;
    }
    hiddenCount := moduleCount - |components|;
  }
}
