/** The server's registry of module versions found on disk and the version
    of each module that is in use (`InstanceModules` and `NewModuleInfo` in
    companion/lib/Instance/Modules.ts). */
module Modules {
  import opened Util
  import opened Records
  import opened Model

  /** NewModuleVersionInfo: one loadable copy of a module, as the scanner
      reports it. */
  datatype VersionInfo = VersionInfo(
    basePath: string,
    helpPath: Option<string>,
    display: DisplayInfo,
    manifest: Manifest,
    isPackaged: bool,
    versionId: string)

  /** NewModuleUseVersion['type'] */
  datatype UseType = BuiltinUse | DevUse | UserUse

  /** NewModuleUseVersion: which copy of a module is in use; `id` names a dev
      or user version and is absent for the builtin one. */
  datatype UseVersion = UseVersion(useType: UseType, id: Option<string>)

  /** NewModuleInfo: everything known about one module id. */
  datatype ModuleEntry = ModuleEntry(
    id: string,
    replacedByIds: seq<string>,
    builtinModule: Option<VersionInfo>,
    devVersions: Record<VersionInfo>,
    userVersions: Record<VersionInfo>,
    useVersion: Option<UseVersion>)

  /** `new NewModuleInfo(id)` */
  function NewEntry(id: string): ModuleEntry {
    ModuleEntry(id, [], None, [], [], None)
  }

  /** `allVersions`: dev versions, then user versions, then the builtin one. */
  function AllVersions(e: ModuleEntry): seq<VersionInfo> {
    Values(e.devVersions) + Values(e.userVersions) + (if e.builtinModule.Some? then [e.builtinModule.value] else [])
  }

  /** `getSelectedVersion()`: the copy `useVersion` points at, if any; a dev or
      user selection with a missing or empty id selects nothing. */
  function GetSelectedVersion(e: ModuleEntry): (r: Option<VersionInfo>)
    ensures r.Some? ==> r.value in AllVersions(e)
    ensures e.useVersion.None? ==> r.None?
    ensures e.useVersion.Some? && e.useVersion.value.useType == BuiltinUse ==> r == e.builtinModule
    ensures e.useVersion.Some? && e.useVersion.value.useType != BuiltinUse && !Truthy(e.useVersion.value.id) ==> r.None?
    ensures e.useVersion.Some? && e.useVersion.value.useType == DevUse && Truthy(e.useVersion.value.id) ==>
      && (r.Some? <==> exists i | 0 <= i < |e.devVersions| :: e.devVersions[i].0 == e.useVersion.value.id.value)
      && (r.Some? ==> (e.useVersion.value.id.value, r.value) in e.devVersions)
    ensures e.useVersion.Some? && e.useVersion.value.useType == UserUse && Truthy(e.useVersion.value.id) ==>
      && (r.Some? <==> exists i | 0 <= i < |e.userVersions| :: e.userVersions[i].0 == e.useVersion.value.id.value)
      && (r.Some? ==> (e.useVersion.value.id.value, r.value) in e.userVersions)
  {
    match e.useVersion
    case None => None
    case Some(use) =>
      match use.useType
      case BuiltinUse => e.builtinModule
      case DevUse => if Truthy(use.id) then Get(e.devVersions, use.id.value) else None
      case UserUse => if Truthy(use.id) then Get(e.userVersions, use.id.value) else None
  }

  /** The first copy in `vs` carrying the given version id. */
  function FirstWithId(vs: seq<VersionInfo>, versionId: string): (r: Option<VersionInfo>)
    ensures r.None? <==> forall i | 0 <= i < |vs| :: vs[i].versionId != versionId
    ensures r.Some? ==> r.value.versionId == versionId
    ensures r.Some? ==> exists i | 0 <= i < |vs| ::
      && vs[i] == r.value
      && forall j | 0 <= j < i :: vs[j].versionId != versionId
  {
    if |vs| == 0 then None
    else if vs[0].versionId == versionId then Some(vs[0])
    else
      var r := FirstWithId(vs[1..], versionId);
      assert r.Some? ==> exists i | 1 <= i < |vs| ::
        && vs[i] == r.value
        && forall j | 0 <= j < i :: vs[j].versionId != versionId;
      r
  }

  /** What `findVersion(versionId)` returns: with no id the selected copy,
      otherwise the first copy of `allVersions` with that id. */
  function VersionLookup(e: ModuleEntry, versionId: Option<string>): Option<VersionInfo> {
    if versionId.None? then GetSelectedVersion(e) else FirstWithId(AllVersions(e), versionId.value)
  }

  /** `findVersion(versionId)` */
  method FindVersion(e: ModuleEntry, versionId: Option<string>) returns (r: Option<VersionInfo>)
    ensures r == VersionLookup(e, versionId)
    ensures r.Some? ==> r.value in AllVersions(e)
    ensures versionId.Some? ==> (r.Some? <==> exists v | v in AllVersions(e) :: v.versionId == versionId.value)
  {
    if versionId.None? {
      return GetSelectedVersion(e);
    }
    var versions := AllVersions(e);
    var i := 0;
    while i < |versions|
      invariant 0 <= i <= |versions|
      invariant FirstWithId(versions, versionId.value) == FirstWithId(versions[i..], versionId.value)
    {
      if versions[i].versionId == versionId.value {
        return Some(versions[i]);
      }
      assert versions[i..][1..] == versions[i + 1..];
      i := i + 1;
    }
    return None;
  }

  // ---------------------------------------------------- loading the copies

  function EntryOrNew(known: map<string, ModuleEntry>, id: string): ModuleEntry {
    if id in known then known[id] else NewEntry(id)
  }

  /** `candidate.display.isLegacy = true` */
  function MarkLegacy(c: VersionInfo): VersionInfo {
    c.(display := c.display.(isLegacy := Some(true)))
  }

  function MarkAllLegacy(cs: seq<VersionInfo>): (r: seq<VersionInfo>)
    ensures |r| == |cs|
    ensures forall i | 0 <= i < |cs| :: r[i] == MarkLegacy(cs[i])
  {
    seq(|cs|, i requires 0 <= i < |cs| => MarkLegacy(cs[i]))
  }

  /** The last candidate for module `id`: the one whose assignment survives. */
  function LastFor(cs: seq<VersionInfo>, id: string): (r: Option<VersionInfo>)
    ensures r.None? <==> forall i | 0 <= i < |cs| :: cs[i].manifest.id != id
    ensures r.Some? ==> r.value.manifest.id == id
    ensures r.Some? ==> exists i | 0 <= i < |cs| ::
      && cs[i] == r.value
      && forall j | i < j < |cs| :: cs[j].manifest.id != id
    decreases |cs|
  {
    if |cs| == 0 then None
    else if cs[|cs| - 1].manifest.id == id then Some(cs[|cs| - 1])
    else LastFor(cs[..|cs| - 1], id)
  }

  /** One pass of a builtin search directory: each candidate becomes the
      builtin copy of its module, creating the entry when needed. */
  function LoadBuiltins(known: map<string, ModuleEntry>, cs: seq<VersionInfo>): map<string, ModuleEntry>
    decreases |cs|
  {
    if |cs| == 0 then known
    else
      var k := LoadBuiltins(known, cs[..|cs| - 1]);
      var c := cs[|cs| - 1];
      k[c.manifest.id := EntryOrNew(k, c.manifest.id).(builtinModule := Some(c))]
  }

  /** The extra (developer) directory: each candidate becomes the module's
      `dev` version, with version id `dev`. */
  function LoadDevs(known: map<string, ModuleEntry>, cs: seq<VersionInfo>): map<string, ModuleEntry>
    decreases |cs|
  {
    if |cs| == 0 then known
    else
      var k := LoadDevs(known, cs[..|cs| - 1]);
      var c := cs[|cs| - 1];
      var e := EntryOrNew(k, c.manifest.id);
      k[c.manifest.id := e.(devVersions := Put(e.devVersions, "dev", c.(versionId := "dev")))]
  }

  /** After a builtin pass, a module's builtin copy is its last candidate;
      modules without a candidate are untouched. */
  lemma {:induction false} LoadBuiltinsResult(known: map<string, ModuleEntry>, cs: seq<VersionInfo>, id: string)
    ensures id in LoadBuiltins(known, cs) <==> id in known || LastFor(cs, id).Some?
    ensures id in LoadBuiltins(known, cs) ==>
      LoadBuiltins(known, cs)[id] ==
        if LastFor(cs, id).Some? then EntryOrNew(known, id).(builtinModule := LastFor(cs, id)) else known[id]
    decreases |cs|
  {
    if |cs| > 0 {
      LoadBuiltinsResult(known, cs[..|cs| - 1], id);
    }
  }

  /** After the developer pass, a module's `dev` version is its last
      candidate, renamed `dev`; modules without a candidate are untouched. */
  lemma {:induction false} LoadDevsResult(known: map<string, ModuleEntry>, cs: seq<VersionInfo>, id: string)
    ensures id in LoadDevs(known, cs) <==> id in known || LastFor(cs, id).Some?
    ensures id in LoadDevs(known, cs) ==>
      LoadDevs(known, cs)[id] ==
        if LastFor(cs, id).Some? then
          EntryOrNew(known, id).(devVersions := Put(EntryOrNew(known, id).devVersions, "dev", LastFor(cs, id).value.(versionId := "dev")))
        else known[id]
    decreases |cs|
  {
    if |cs| > 0 {
      var prefix := cs[..|cs| - 1];
      LoadDevsResult(known, prefix, id);
      var c := cs[|cs| - 1];
      if c.manifest.id == id && LastFor(prefix, id).Some? {
        PutPut(EntryOrNew(known, id).devVersions, "dev", LastFor(prefix, id).value.(versionId := "dev"), c.(versionId := "dev"));
      }
    }
  }

  lemma {:induction false} LastForMarked(cs: seq<VersionInfo>, id: string)
    ensures LastFor(MarkAllLegacy(cs), id) ==
      if LastFor(cs, id).Some? then Some(MarkLegacy(LastFor(cs, id).value)) else None
    decreases |cs|
  {
    if |cs| > 0 {
      assert MarkAllLegacy(cs)[..|cs| - 1] == MarkAllLegacy(cs[..|cs| - 1]);
      LastForMarked(cs[..|cs| - 1], id);
    }
  }

  /** The bundled directory has priority over the legacy directory: a module's
      builtin copy is its last bundled candidate, else its last legacy
      candidate marked as legacy. */
  lemma BuiltinPriority(known: map<string, ModuleEntry>, legacy: seq<VersionInfo>, bundled: seq<VersionInfo>, id: string)
    ensures var k := LoadBuiltins(LoadBuiltins(known, MarkAllLegacy(legacy)), bundled);
      && (id in k <==> id in known || LastFor(legacy, id).Some? || LastFor(bundled, id).Some?)
      && (LastFor(bundled, id).Some? ==> k[id].builtinModule == LastFor(bundled, id))
      && (LastFor(bundled, id).None? && LastFor(legacy, id).Some? ==>
            k[id].builtinModule == Some(MarkLegacy(LastFor(legacy, id).value)))
      && (LastFor(bundled, id).None? && LastFor(legacy, id).None? && id in known ==> k[id] == known[id])
  {
    LastForMarked(legacy, id);
    LoadBuiltinsResult(known, MarkAllLegacy(legacy), id);
    LoadBuiltinsResult(LoadBuiltins(known, MarkAllLegacy(legacy)), bundled, id);
  }

  // ------------------------------------------------------------ redirects

  /** `manifest.legacyIds`, when it is an array. */
  function LegacyIdsOf(v: VersionInfo): seq<string> {
    if v.manifest.legacyIds.Some? then v.manifest.legacyIds.value else []
  }

  /** One of the copies `vs` lists `legacyId` among its legacy ids. */
  predicate Declares(vs: seq<VersionInfo>, legacyId: string)
    decreases |vs|
  {
    |vs| > 0 && (legacyId in LegacyIdsOf(vs[|vs| - 1]) || Declares(vs[..|vs| - 1], legacyId))
  }

  lemma {:induction false} DeclaresMeans(vs: seq<VersionInfo>, legacyId: string)
    ensures Declares(vs, legacyId) <==> exists v | v in vs :: legacyId in LegacyIdsOf(v)
    decreases |vs|
  {
    if |vs| > 0 {
      DeclaresMeans(vs[..|vs| - 1], legacyId);
      assert vs == vs[..|vs| - 1] + [vs[|vs| - 1]];
    }
  }

  /** Module entry `e` is declared to replace `legacyId` by one of its copies. */
  predicate Replaces(e: ModuleEntry, legacyId: string) {
    Declares(AllVersions(e), legacyId)
  }

  function PairsTo(legacyIds: seq<string>, id: string): (r: seq<(string, string)>)
    ensures |r| == |legacyIds|
    ensures forall i | 0 <= i < |r| :: r[i] == (legacyIds[i], id)
  {
    seq(|legacyIds|, i requires 0 <= i < |legacyIds| => (legacyIds[i], id))
  }

  /** The `(legacyId, id)` redirects that the copies `vs` of module `id`
      declare, in order. */
  function VersionRedirects(vs: seq<VersionInfo>, id: string): seq<(string, string)>
    decreases |vs|
  {
    if |vs| == 0 then []
    else VersionRedirects(vs[..|vs| - 1], id) + PairsTo(LegacyIdsOf(vs[|vs| - 1]), id)
  }

  /** The redirects declared by the modules `ids`, in that order. */
  function Redirects(known: map<string, ModuleEntry>, ids: seq<string>): seq<(string, string)>
    requires forall x | x in ids :: x in known
    decreases |ids|
  {
    if |ids| == 0 then []
    else
      var id := ids[|ids| - 1];
      Redirects(known, ids[..|ids| - 1]) + VersionRedirects(AllVersions(known[id]), id)
  }

  /** `getOrCreateModuleEntry(legacyId).replacedByIds.push(id)` for each pair. */
  function ApplyRedirects(known: map<string, ModuleEntry>, ps: seq<(string, string)>): map<string, ModuleEntry>
    decreases |ps|
  {
    if |ps| == 0 then known
    else
      var k := ApplyRedirects(known, ps[..|ps| - 1]);
      var p := ps[|ps| - 1];
      var e := EntryOrNew(k, p.0);
      k[p.0 := e.(replacedByIds := e.replacedByIds + [p.1])]
  }

  /** The replacing ids recorded for `legacyId`, in order. */
  function TargetsOf(ps: seq<(string, string)>, legacyId: string): seq<string>
    decreases |ps|
  {
    if |ps| == 0 then []
    else if ps[|ps| - 1].0 == legacyId then TargetsOf(ps[..|ps| - 1], legacyId) + [ps[|ps| - 1].1]
    else TargetsOf(ps[..|ps| - 1], legacyId)
  }

  lemma {:induction false} TargetsOfAppend(a: seq<(string, string)>, b: seq<(string, string)>, legacyId: string)
    ensures TargetsOf(a + b, legacyId) == TargetsOf(a, legacyId) + TargetsOf(b, legacyId)
    decreases |b|
  {
    if |b| == 0 {
      assert a + b == a;
    } else {
      assert (a + b)[..|a + b| - 1] == a + b[..|b| - 1];
      TargetsOfAppend(a, b[..|b| - 1], legacyId);
    }
  }

  /** Applying redirects only appends to `replacedByIds` (creating entries
      for unknown legacy ids) and changes nothing else. */
  lemma {:induction false} ApplyRedirectsResult(known: map<string, ModuleEntry>, ps: seq<(string, string)>, legacyId: string)
    ensures legacyId in ApplyRedirects(known, ps) <==> legacyId in known || |TargetsOf(ps, legacyId)| > 0
    ensures legacyId in ApplyRedirects(known, ps) ==>
      ApplyRedirects(known, ps)[legacyId] ==
        EntryOrNew(known, legacyId).(replacedByIds := EntryOrNew(known, legacyId).replacedByIds + TargetsOf(ps, legacyId))
    decreases |ps|
  {
    if |ps| == 0 {
      if legacyId in known {
        assert known[legacyId].replacedByIds + [] == known[legacyId].replacedByIds;
      }
    } else {
      ApplyRedirectsResult(known, ps[..|ps| - 1], legacyId);
    }
  }

  lemma {:induction false} ApplyRedirectsAppend(known: map<string, ModuleEntry>, a: seq<(string, string)>, b: seq<(string, string)>)
    ensures ApplyRedirects(known, a + b) == ApplyRedirects(ApplyRedirects(known, a), b)
    decreases |b|
  {
    if |b| == 0 {
      assert a + b == a;
    } else {
      assert (a + b)[..|a + b| - 1] == a + b[..|b| - 1];
      ApplyRedirectsAppend(known, a, b[..|b| - 1]);
    }
  }

  lemma {:induction false} PairsTargets(legacyIds: seq<string>, id: string, legacyId: string)
    ensures forall t | t in TargetsOf(PairsTo(legacyIds, id), legacyId) :: t == id
    ensures |TargetsOf(PairsTo(legacyIds, id), legacyId)| > 0 <==> legacyId in legacyIds
    decreases |legacyIds|
  {
    if |legacyIds| > 0 {
      var n := |legacyIds| - 1;
      assert PairsTo(legacyIds, id)[..n] == PairsTo(legacyIds[..n], id);
      PairsTargets(legacyIds[..n], id, legacyId);
      assert legacyIds == legacyIds[..n] + [legacyIds[n]];
    }
  }

  lemma {:induction false} VersionTargets(vs: seq<VersionInfo>, id: string, legacyId: string)
    ensures forall t | t in TargetsOf(VersionRedirects(vs, id), legacyId) :: t == id
    ensures |TargetsOf(VersionRedirects(vs, id), legacyId)| > 0 <==> Declares(vs, legacyId)
    decreases |vs|
  {
    if |vs| > 0 {
      var n := |vs| - 1;
      var before := VersionRedirects(vs[..n], id);
      var added := PairsTo(LegacyIdsOf(vs[n]), id);
      assert VersionRedirects(vs, id) == before + added;
      VersionTargets(vs[..n], id, legacyId);
      PairsTargets(LegacyIdsOf(vs[n]), id, legacyId);
      TargetsOfAppend(before, added, legacyId);
      assert Declares(vs, legacyId) <==> legacyId in LegacyIdsOf(vs[n]) || Declares(vs[..n], legacyId);
    }
  }

  /** The redirects of one module's copies target `id` exactly when `id` is
      that module and it declares `legacyId`. */
  lemma OwnTargets(e: ModuleEntry, owner: string, legacyId: string, id: string)
    ensures id in TargetsOf(VersionRedirects(AllVersions(e), owner), legacyId) <==> id == owner && Replaces(e, legacyId)
  {
    var ts := TargetsOf(VersionRedirects(AllVersions(e), owner), legacyId);
    VersionTargets(AllVersions(e), owner, legacyId);
    if id == owner && Replaces(e, legacyId) {
      assert ts[0] in ts;
    }
  }

  /** Module `id` is recorded as a replacement of `legacyId` exactly when it
      is one of the scanned modules and one of its copies lists `legacyId`. */
  lemma {:induction false} RedirectTargets(known: map<string, ModuleEntry>, ids: seq<string>, legacyId: string, id: string)
    requires forall x | x in ids :: x in known
    ensures id in TargetsOf(Redirects(known, ids), legacyId) <==> id in ids && Replaces(known[id], legacyId)
    decreases |ids|
  {
    if |ids| > 0 {
      var n := |ids| - 1;
      var last := ids[n];
      var before := Redirects(known, ids[..n]);
      var added := VersionRedirects(AllVersions(known[last]), last);
      assert Redirects(known, ids) == before + added;
      TargetsOfAppend(before, added, legacyId);
      RedirectTargets(known, ids[..n], legacyId, id);
      OwnTargets(known[last], last, legacyId, id);
      assert id in TargetsOf(before + added, legacyId) <==>
        id in TargetsOf(before, legacyId) || id in TargetsOf(added, legacyId);
      assert id in ids <==> id in ids[..n] || id == last by {
        assert ids == ids[..n] + [last];
      }
    }
  }

  lemma HeadTarget(known: map<string, ModuleEntry>, ids: seq<string>, legacyId: string)
    requires forall x | x in ids :: x in known
    ensures var ts := TargetsOf(Redirects(known, ids), legacyId);
      |ts| > 0 ==> ts[0] in ids && Replaces(known[ts[0]], legacyId)
  {
    var ts := TargetsOf(Redirects(known, ids), legacyId);
    if |ts| > 0 {
      RedirectTargets(known, ids, legacyId, ts[0]);
    }
  }

  /** The first recorded replacement of `legacyId` is the first module of
      `ids` that declares it. */
  lemma {:induction false} FirstTarget(known: map<string, ModuleEntry>, ids: seq<string>, legacyId: string, k: nat)
    requires forall x | x in ids :: x in known
    requires k < |ids| && Replaces(known[ids[k]], legacyId)
    requires forall j | 0 <= j < k :: !Replaces(known[ids[j]], legacyId)
    ensures |TargetsOf(Redirects(known, ids), legacyId)| > 0
    ensures TargetsOf(Redirects(known, ids), legacyId)[0] == ids[k]
    decreases |ids|
  {
    var n := |ids| - 1;
    var before := Redirects(known, ids[..n]);
    var added := VersionRedirects(AllVersions(known[ids[n]]), ids[n]);
    assert Redirects(known, ids) == before + added;
    TargetsOfAppend(before, added, legacyId);
    if k < n {
      FirstTarget(known, ids[..n], legacyId, k);
    } else {
      HeadTarget(known, ids[..n], legacyId);
      VersionTargets(AllVersions(known[ids[n]]), ids[n], legacyId);
      assert TargetsOf(added, legacyId)[0] in TargetsOf(added, legacyId);
    }
  }

  /** The strings are in ascending `<=` order. */
  predicate Ascending(ts: seq<string>) {
    forall i, j | 0 <= i < j < |ts| :: StrLe(ts[i], ts[j])
  }

  /** Visiting the modules in ascending id order records the replacements
      of `legacyId` in ascending order. */
  lemma {:induction false} TargetsAscending(known: map<string, ModuleEntry>, ids: seq<string>, legacyId: string)
    requires forall x | x in ids :: x in known
    requires forall i, j | 0 <= i < j < |ids| :: StrLess(ids[i], ids[j])
    ensures Ascending(TargetsOf(Redirects(known, ids), legacyId))
    decreases |ids|
  {
    if |ids| > 0 {
      var n := |ids| - 1;
      var last := ids[n];
      var before := Redirects(known, ids[..n]);
      var added := VersionRedirects(AllVersions(known[last]), last);
      assert Redirects(known, ids) == before + added;
      TargetsOfAppend(before, added, legacyId);
      TargetsAscending(known, ids[..n], legacyId);
      VersionTargets(AllVersions(known[last]), last, legacyId);
      var tb := TargetsOf(before, legacyId);
      forall t | t in tb ensures StrLess(t, last) {
        RedirectTargets(known, ids[..n], legacyId, t);
      }
      AscendingAppend(tb, TargetsOf(added, legacyId), last);
    }
  }

  /** An ascending list, followed by copies of a string above all of its
      elements, is ascending. */
  lemma AscendingAppend(tb: seq<string>, ta: seq<string>, last: string)
    requires Ascending(tb)
    requires forall t | t in tb :: StrLess(t, last)
    requires forall t | t in ta :: t == last
    ensures Ascending(tb + ta)
  {
    var ts := tb + ta;
    forall i, j | 0 <= i < j < |ts| ensures StrLe(ts[i], ts[j]) {
      if j < |tb| {
        assert ts[i] == tb[i] && ts[j] == tb[j];
      } else if i < |tb| {
        assert ts[i] == tb[i] && tb[i] in tb && ts[j] == ta[j - |tb|] && ta[j - |tb|] in ta;
      } else {
        assert ts[i] == ta[i - |tb|] && ta[i - |tb|] in ta;
        assert ts[j] == ta[j - |tb|] && ta[j - |tb|] in ta;
      }
    }
  }

  // ---------------------------------------------------- choosing versions

  /** The default choice for one module: none if it is replaced; else its
      first dev version, else its first user version, else its builtin copy;
      an empty key does not count. */
  function SelectDefault(e: ModuleEntry): ModuleEntry {
    if |e.replacedByIds| > 0 then e
    else if |e.devVersions| > 0 && e.devVersions[0].0 != "" then
      e.(useVersion := Some(UseVersion(DevUse, Some(e.devVersions[0].0))))
    else if |e.userVersions| > 0 && e.userVersions[0].0 != "" then
      e.(useVersion := Some(UseVersion(UserUse, Some(e.userVersions[0].0))))
    else if e.builtinModule.Some? then e.(useVersion := Some(UseVersion(BuiltinUse, None)))
    else e
  }

  /** The choice applied to every module of `ids`. */
  function ChooseDefaults(known: map<string, ModuleEntry>, ids: seq<string>): (r: map<string, ModuleEntry>)
    ensures r.Keys == known.Keys
  {
    map id | id in known :: if id in ids then SelectDefault(known[id]) else known[id]
  }

  /** The default choice prefers dev over user over builtin, never touches a
      replaced module, and the chosen copy is one the module has. */
  lemma SelectDefaultChoice(e: ModuleEntry)
    ensures SelectDefault(e).(useVersion := e.useVersion) == e
    ensures |e.replacedByIds| > 0 ==> SelectDefault(e) == e
    ensures |e.replacedByIds| == 0 && |e.devVersions| > 0 && e.devVersions[0].0 != "" ==>
      GetSelectedVersion(SelectDefault(e)) == Some(e.devVersions[0].1)
    ensures (&& |e.replacedByIds| == 0
             && !(|e.devVersions| > 0 && e.devVersions[0].0 != "")
             && |e.userVersions| > 0 && e.userVersions[0].0 != "") ==>
      GetSelectedVersion(SelectDefault(e)) == Some(e.userVersions[0].1)
    ensures (&& |e.replacedByIds| == 0
             && !(|e.devVersions| > 0 && e.devVersions[0].0 != "")
             && !(|e.userVersions| > 0 && e.userVersions[0].0 != "")
             && e.builtinModule.Some?) ==>
      GetSelectedVersion(SelectDefault(e)) == e.builtinModule
  {
  }

  // ------------------------------------------------------ initialisation

  /** The load passes of `initInstances`, starting from `known0`: legacy
      builtins, then bundled builtins, then (when an extra path is given)
      developer copies. */
  function LoadAll(known0: map<string, ModuleEntry>, legacy: seq<VersionInfo>, bundled: seq<VersionInfo>,
                   extraModulePath: string, extra: seq<VersionInfo>): map<string, ModuleEntry>
  {
    var k1 := LoadBuiltins(LoadBuiltins(known0, MarkAllLegacy(legacy)), bundled);
    if extraModulePath != "" then LoadDevs(k1, extra) else k1
  }

  /** The later passes of `initInstances`: redirects, then default choices,
      both over the loaded ids in ascending order. */
  function Settle(k2: map<string, ModuleEntry>): map<string, ModuleEntry> {
    var ids := SortedKeys(k2.Keys);
    ChooseDefaults(ApplyRedirects(k2, Redirects(k2, ids)), ids)
  }

  /** The registry `initInstances` leaves behind, starting from `known0`. */
  function InitSpec(known0: map<string, ModuleEntry>, legacy: seq<VersionInfo>, bundled: seq<VersionInfo>,
                    extraModulePath: string, extra: seq<VersionInfo>): map<string, ModuleEntry>
  {
    Settle(LoadAll(known0, legacy, bundled, extraModulePath, extra))
  }

  /** The shape of every entry after the load passes on an empty registry:
      no redirects, no user versions, at most the one `dev` version, and no
      choice made yet. */
  ghost predicate Fresh(e: ModuleEntry) {
    && e.replacedByIds == []
    && e.userVersions == []
    && (e.devVersions == [] || (|e.devVersions| == 1 && e.devVersions[0].0 == "dev"))
    && e.useVersion == None
  }

  ghost predicate AllFresh(known: map<string, ModuleEntry>) {
    forall id | id in known :: Fresh(known[id])
  }

  /** A builtin pass keeps every entry fresh and under its own id. */
  lemma BuiltinsKeepFresh(known: map<string, ModuleEntry>, cs: seq<VersionInfo>)
    requires AllFresh(known)
    requires forall x | x in known :: known[x].id == x
    ensures AllFresh(LoadBuiltins(known, cs))
    ensures forall x | x in LoadBuiltins(known, cs) :: LoadBuiltins(known, cs)[x].id == x
  {
    var k := LoadBuiltins(known, cs);
    forall x | x in k ensures Fresh(k[x]) && k[x].id == x {
      LoadBuiltinsResult(known, cs, x);
    }
  }

  /** The developer pass keeps every entry fresh and under its own id. */
  lemma DevsKeepFresh(known: map<string, ModuleEntry>, cs: seq<VersionInfo>)
    requires AllFresh(known)
    requires forall x | x in known :: known[x].id == x
    ensures AllFresh(LoadDevs(known, cs))
    ensures forall x | x in LoadDevs(known, cs) :: LoadDevs(known, cs)[x].id == x
  {
    var k := LoadDevs(known, cs);
    forall x | x in k ensures Fresh(k[x]) && k[x].id == x {
      LoadDevsResult(known, cs, x);
      if LastFor(cs, x).Some? {
        var e := EntryOrNew(known, x);
        assert Fresh(e);
        var dev := LastFor(cs, x).value.(versionId := "dev");
        assert e.devVersions == [] ==> Put(e.devVersions, "dev", dev) == [("dev", dev)];
        assert e.devVersions != [] ==> Put(e.devVersions, "dev", dev) == [("dev", dev)];
      }
    }
  }

  lemma LoadAllFresh(known0: map<string, ModuleEntry>, legacy: seq<VersionInfo>, bundled: seq<VersionInfo>,
                     extraModulePath: string, extra: seq<VersionInfo>, id: string)
    requires AllFresh(known0)
    requires forall x | x in known0 :: known0[x].id == x
    requires id in LoadAll(known0, legacy, bundled, extraModulePath, extra)
    ensures Fresh(LoadAll(known0, legacy, bundled, extraModulePath, extra)[id])
    ensures LoadAll(known0, legacy, bundled, extraModulePath, extra)[id].id == id
  {
    var k1a := LoadBuiltins(known0, MarkAllLegacy(legacy));
    var k1 := LoadBuiltins(k1a, bundled);
    BuiltinsKeepFresh(known0, MarkAllLegacy(legacy));
    BuiltinsKeepFresh(k1a, bundled);
    if extraModulePath != "" {
      DevsKeepFresh(k1, extra);
    }
  }


  /** What the settling passes decide for module `id` when every loaded entry
      is fresh: a replaced module (and a legacy id that is only a redirect)
      selects nothing; every other module selects its developer copy if it
      has one and its builtin copy otherwise; the copies themselves are kept. */
  lemma SettleSelection(k2: map<string, ModuleEntry>, id: string)
    requires AllFresh(k2)
    requires id in Settle(k2)
    ensures var e := Settle(k2)[id];
      && (id in k2 ==> e.(replacedByIds := [], useVersion := None) == k2[id])
      && (|e.replacedByIds| > 0 ==> GetSelectedVersion(e).None?)
      && (|e.replacedByIds| == 0 && |e.devVersions| > 0 ==> GetSelectedVersion(e) == Some(e.devVersions[0].1))
      && (|e.replacedByIds| == 0 && |e.devVersions| == 0 ==> GetSelectedVersion(e) == e.builtinModule)
  {
    var ids := SortedKeys(k2.Keys);
    var ps := Redirects(k2, ids);
    var k3 := ApplyRedirects(k2, ps);
    ApplyRedirectsResult(k2, ps, id);
    var e3 := k3[id];
    assert e3.(replacedByIds := []) == EntryOrNew(k2, id);
    SelectDefaultChoice(e3);
    assert Settle(k2)[id] == if id in ids then SelectDefault(e3) else e3;
  }

  /** The settling passes record redirects and change nothing else about
      them: the choice pass leaves `replacedByIds` alone. The recorded list
      is in ascending id order (a module appears once per listing of the
      legacy id in one of its copies, so repeats sit side by side). */
  lemma SettleRedirects(k2: map<string, ModuleEntry>, legacyId: string)
    requires AllFresh(k2)
    ensures var ts := TargetsOf(Redirects(k2, SortedKeys(k2.Keys)), legacyId);
      && (legacyId in Settle(k2) <==> legacyId in k2 || |ts| > 0)
      && (legacyId in Settle(k2) ==> Settle(k2)[legacyId].replacedByIds == ts)
    ensures legacyId in Settle(k2) ==> Ascending(Settle(k2)[legacyId].replacedByIds)
  {
    var ids := SortedKeys(k2.Keys);
    TargetsAscending(k2, ids, legacyId);
    var ps := Redirects(k2, ids);
    var k3 := ApplyRedirects(k2, ps);
    ApplyRedirectsResult(k2, ps, legacyId);
    assert EntryOrNew(k2, legacyId).replacedByIds == [];
    assert Settle(k2) == ChooseDefaults(k3, ids);
    if legacyId in k3 {
      SelectDefaultChoice(k3[legacyId]);
      assert ChooseDefaults(k3, ids)[legacyId].replacedByIds == k3[legacyId].replacedByIds;
    }
  }

  /** When no loaded module declares `legacyId`, the settled registry
      records no replacement for it. */
  lemma SettleNoRedirect(k2: map<string, ModuleEntry>, legacyId: string)
    requires AllFresh(k2)
    requires forall id | id in k2 :: !Replaces(k2[id], legacyId)
    ensures legacyId in Settle(k2) ==> Settle(k2)[legacyId].replacedByIds == []
  {
    SettleRedirects(k2, legacyId);
    HeadTarget(k2, SortedKeys(k2.Keys), legacyId);
  }

  /** The first replacement the settled registry records for `legacyId` is
      the least loaded module id that declares it (ids are visited in
      ascending order), so `verifyInstanceTypeIsCurrent` answers with it. */
  lemma SettleLeastRedirect(k2: map<string, ModuleEntry>, legacyId: string, id: string)
    requires AllFresh(k2)
    requires id in k2 && Replaces(k2[id], legacyId)
    requires forall o | o in k2 && Replaces(k2[o], legacyId) :: StrLe(id, o)
    ensures legacyId in Settle(k2)
    ensures |Settle(k2)[legacyId].replacedByIds| > 0 && Settle(k2)[legacyId].replacedByIds[0] == id
  {
    var ids := SortedKeys(k2.Keys);
    var k :| 0 <= k < |ids| && ids[k] == id;
    forall j | 0 <= j < k ensures !Replaces(k2[ids[j]], legacyId) {
      if Replaces(k2[ids[j]], legacyId) {
        assert StrLe(id, ids[j]) && StrLess(ids[j], id);
        StrLeTotalOrder(id, ids[j], id);
      }
    }
    FirstTarget(k2, ids, legacyId, k);
    SettleRedirects(k2, legacyId);
  }

  // ------------------------------------------------------- client summary

  /** NewClientModuleVersionInfo */
  datatype ClientVersionSummary = ClientVersionSummary(version: string, isLegacy: bool, useType: UseType, hasHelp: bool)

  /** The per-module entry of `getModulesJson()`. */
  datatype ClientModuleSummary = ClientModuleSummary(
    baseInfo: DisplayInfo,
    selectedVersion: ClientVersionSummary,
    allVersions: seq<ClientVersionSummary>)

  /** `translateVersion(version, type)`; a help path counts only when it is a
      non-empty string. */
  function TranslateVersion(v: VersionInfo, t: UseType): ClientVersionSummary {
    ClientVersionSummary(v.versionId, IsLegacy(v.display), t, Truthy(v.helpPath))
  }

  function TranslateAll(vs: seq<VersionInfo>, t: UseType): (r: seq<ClientVersionSummary>)
    ensures |r| == |vs|
    ensures forall i | 0 <= i < |vs| :: r[i] == TranslateVersion(vs[i], t)
  {
    seq(|vs|, i requires 0 <= i < |vs| => TranslateVersion(vs[i], t))
  }

  /** The entry `getModulesJson()` produces for one module: none without a
      selected copy; otherwise the selected copy's display info, its summary
      and the summaries of all copies, builtin first, then user, then dev. */
  function ModuleJson(e: ModuleEntry): Option<ClientModuleSummary> {
    match GetSelectedVersion(e)
    case None => None
    case Some(v) =>
      var selectedType := if e.useVersion.Some? then e.useVersion.value.useType else BuiltinUse;
      Some(ClientModuleSummary(v.display, TranslateVersion(v, selectedType), ListedVersions(e)))
  }

  /** The `allVersions` list of a module's client JSON. */
  function ListedVersions(e: ModuleEntry): seq<ClientVersionSummary> {
    (if e.builtinModule.Some? then [TranslateVersion(e.builtinModule.value, BuiltinUse)] else [])
    + TranslateAll(Values(e.userVersions), UserUse)
    + TranslateAll(Values(e.devVersions), DevUse)
  }

  /** `allVersions` holds the builtin copy's summary first, then each user
      version's, then each dev version's, each with its own use type. */
  lemma ListedVersionsOrder(e: ModuleEntry)
    ensures var av := ListedVersions(e);
      var b := if e.builtinModule.Some? then 1 else 0;
      var nu := |e.userVersions|;
      && |av| == b + nu + |e.devVersions|
      && (e.builtinModule.Some? ==> av[0] == TranslateVersion(e.builtinModule.value, BuiltinUse))
      && (forall i | 0 <= i < nu :: av[b + i] == TranslateVersion(e.userVersions[i].1, UserUse))
      && (forall i | 0 <= i < |e.devVersions| :: av[b + nu + i] == TranslateVersion(e.devVersions[i].1, DevUse))
  {
    var bs := if e.builtinModule.Some? then [TranslateVersion(e.builtinModule.value, BuiltinUse)] else [];
    var us := TranslateAll(Values(e.userVersions), UserUse);
    var ds := TranslateAll(Values(e.devVersions), DevUse);
    var av := ListedVersions(e);
    assert av == bs + us + ds;
    forall i | 0 <= i < |us| ensures av[|bs| + i] == us[i] {}
    forall i | 0 <= i < |ds| ensures av[|bs| + |us| + i] == ds[i] {}
  }

  /** A module is listed exactly when it has a selected copy; the listing
      holds one summary per copy, each with its own use type: the builtin
      copy first, then the user versions, then the dev versions, each record
      in its own order; and the selected copy's summary is among them. */
  lemma ModuleJsonListsSelected(e: ModuleEntry)
    ensures ModuleJson(e).Some? <==> GetSelectedVersion(e).Some?
    ensures ModuleJson(e).Some? ==>
      && ModuleJson(e).value.baseInfo == GetSelectedVersion(e).value.display
      && |ModuleJson(e).value.allVersions| == |AllVersions(e)|
      && ModuleJson(e).value.selectedVersion in ModuleJson(e).value.allVersions
    ensures ModuleJson(e).Some? ==>
      var av := ModuleJson(e).value.allVersions;
      var b := if e.builtinModule.Some? then 1 else 0;
      var nu := |e.userVersions|;
      && |av| == b + nu + |e.devVersions|
      && (e.builtinModule.Some? ==> av[0] == TranslateVersion(e.builtinModule.value, BuiltinUse))
      && (forall i | 0 <= i < nu :: av[b + i] == TranslateVersion(e.userVersions[i].1, UserUse))
      && (forall i | 0 <= i < |e.devVersions| :: av[b + nu + i] == TranslateVersion(e.devVersions[i].1, DevUse))
  {
    ListedVersionsOrder(e);
    var sel := GetSelectedVersion(e);
    if sel.Some? {
      var use := e.useVersion.value;
      match use.useType
      case BuiltinUse =>
      case UserUse =>
        TranslatedEntryListed(e.userVersions, use.id.value, sel.value, UserUse);
      case DevUse =>
        TranslatedEntryListed(e.devVersions, use.id.value, sel.value, DevUse);
    }
  }

  /** The summary of an entry of a version record is among the summaries of
      the record's values. */
  lemma TranslatedEntryListed(r: Record<VersionInfo>, k: string, v: VersionInfo, t: UseType)
    requires (k, v) in r
    ensures TranslateVersion(v, t) in TranslateAll(Values(r), t)
  {
    var i :| 0 <= i < |r| && r[i] == (k, v);
    assert TranslateAll(Values(r), t)[i] == TranslateVersion(v, t);
  }


  // ------------------------------------------------------------ help files

  /** The string has no two consecutive dots. */
  predicate NoDotDot(s: string) {
    forall i | 0 <= i < |s| - 1 :: !(s[i] == '.' && s[i + 1] == '.')
  }

  function DropLeadingDots(s: string): (r: string)
    ensures |r| <= |s|
    ensures |r| > 0 ==> r[0] != '.'
  {
    if |s| > 0 && s[0] == '.' then DropLeadingDots(s[1..]) else s
  }

  /** `s.replace(/\.\.+/g, '')`: every run of two or more dots is removed.
      The result has no `..`, and a string without `..` is left as it is (so
      the operation is idempotent). */
  function StripDotRuns(s: string): (r: string)
    ensures NoDotDot(r)
    ensures |r| <= |s|
    ensures |s| > 0 && s[0] != '.' ==> |r| > 0 && r[0] == s[0]
    ensures NoDotDot(s) ==> r == s
    decreases |s|
  {
    if |s| >= 2 && s[0] == '.' && s[1] == '.' then
      var r := StripDotRuns(DropLeadingDots(s));
      r
    else if |s| == 0 then ""
    else
      var rest := StripDotRuns(s[1..]);
      assert NoDotDot(s) ==> NoDotDot(s[1..]);
      [s[0]] + rest
  }

  /** The file name ends in `.jpg`, `.jpeg`, `.gif`, `.png`, `.pdf` or
      `.companionconfig`. */
  predicate HasHelpAssetExtension(file: string) {
    || EndsWith(file, ".jpg")
    || EndsWith(file, ".jpeg")
    || EndsWith(file, ".gif")
    || EndsWith(file, ".png")
    || EndsWith(file, ".pdf")
    || EndsWith(file, ".companionconfig")
  }

  /** `path.join(basePath, 'companion', file)` */
  function HelpAssetPath(basePath: string, file: string): string {
    basePath + "/companion/" + file
  }

  /** HelpDescription */
  datatype HelpDescription = HelpDescription(markdown: string, baseUrl: string)

  /** The `[err, result]` pair `connections:get-help` answers with. */
  datatype HelpResult = HelpError(err: string) | HelpFound(help: HelpDescription)

  /** How the help-asset route answers: send a file, or pass the request on. */
  datatype AssetResponse = SendFile(path: string) | NextHandler

  /** The URL segment `getHelpForModule` puts in `baseUrl` for a version id. */
  function UrlVersionSegment(versionId: Option<string>): string {
    if versionId.Some? then versionId.value else "current"
  }

  /** The version id the help-asset route looks up for a URL segment. */
  function VersionOfUrlSegment(segment: string): Option<string> {
    if segment == "current" then None else Some(segment)
  }

  /** The base URL of a help page leads the asset route back to the version
      the page was read from, except for a version whose id is itself
      `current`: its URL reads back as the default version. */
  lemma HelpUrlRoundTrip(versionId: Option<string>)
    ensures versionId != Some("current") ==> VersionOfUrlSegment(UrlVersionSegment(versionId)) == versionId
    ensures versionId == Some("current") ==> VersionOfUrlSegment(UrlVersionSegment(versionId)) == None
  {
  }

  // --------------------------------------------------------- the registry

  /** InstanceModules: the known modules, by id. */
  class InstanceModules {
    var knownModules: map<string, ModuleEntry>

    /** Each entry is stored under its own id. */
    ghost predicate Valid()
      reads this
    {
      forall id | id in knownModules :: knownModules[id].id == id
    }

    constructor()
      ensures knownModules == map[]
      ensures Valid()
    {
      knownModules := map[];
    }

    /** `#getOrCreateModuleEntry(id)` */
    method GetOrCreateModuleEntry(id: string) returns (entry: ModuleEntry)
      modifies this
      ensures entry == EntryOrNew(old(knownModules), id)
      ensures knownModules == old(knownModules)[id := entry]
      ensures old(Valid()) ==> Valid()
    {
      if id in knownModules {
        entry := knownModules[id];
      } else {
        entry := NewEntry(id);
        knownModules := knownModules[id := entry];
      }
    }

    /** `initInstances`, with the scanner's results for the legacy directory,
        the bundled directory and the extra directory passed in. */
    method InitInstances(legacy: seq<VersionInfo>, bundled: seq<VersionInfo>,
                         extraModulePath: string, extra: seq<VersionInfo>)
      modifies this
      ensures knownModules == InitSpec(old(knownModules), legacy, bundled, extraModulePath, extra)
    {
      // Start with the legacy candidates, then the bundled ones
      LoadBuiltinDir(MarkAllLegacy(legacy));
      LoadBuiltinDir(bundled);
      if extraModulePath != "" {
        LoadDevDir(extra);
      }
      ghost var k2 := knownModules;
      var ids := SortedKeys(knownModules.Keys);
      BuildRedirects(ids);
      forall x | x in ids ensures x in knownModules {
        ApplyRedirectsResult(k2, Redirects(k2, ids), x);
      }
      ChooseVersions(ids);
    }

    /** A builtin search directory: each candidate becomes the builtin copy
        of its module. */
    method LoadBuiltinDir(candidates: seq<VersionInfo>)
      modifies this
      ensures knownModules == LoadBuiltins(old(knownModules), candidates)
    {
      for i := 0 to |candidates|
        invariant knownModules == LoadBuiltins(old(knownModules), candidates[..i])
      {
        var candidate := candidates[i];
        var moduleInfo := GetOrCreateModuleEntry(candidate.manifest.id);
        knownModules := knownModules[candidate.manifest.id := moduleInfo.(builtinModule := Some(candidate))];
        assert candidates[..i + 1][..i] == candidates[..i];
      }
      assert candidates[..|candidates|] == candidates;
    }

    /** The extra module directory: each candidate becomes the `dev` version
        of its module. */
    method LoadDevDir(candidates: seq<VersionInfo>)
      modifies this
      ensures knownModules == LoadDevs(old(knownModules), candidates)
    {
      for i := 0 to |candidates|
        invariant knownModules == LoadDevs(old(knownModules), candidates[..i])
      {
        var candidate := candidates[i];
        var moduleInfo := GetOrCreateModuleEntry(candidate.manifest.id);
        knownModules := knownModules[candidate.manifest.id :=
          moduleInfo.(devVersions := Put(moduleInfo.devVersions, "dev", candidate.(versionId := "dev")))];
        assert candidates[..i + 1][..i] == candidates[..i];
      }
      assert candidates[..|candidates|] == candidates;
    }

    /** The redirect pass of `initInstances` over the modules `ids`. */
    method BuildRedirects(ids: seq<string>)
      requires forall x | x in ids :: x in knownModules
      modifies this
      ensures knownModules == ApplyRedirects(old(knownModules), Redirects(old(knownModules), ids))
    {
      ghost var k2 := knownModules;
      for i := 0 to |ids|
        invariant knownModules == ApplyRedirects(k2, Redirects(k2, ids[..i]))
      {
        var id := ids[i];
        ghost var done := Redirects(k2, ids[..i]);
        ApplyRedirectsResult(k2, done, id);
        var versions := AllVersions(knownModules[id]);
        assert versions == AllVersions(k2[id]);
        RecordVersionRedirects(versions, id);
        ApplyRedirectsAppend(k2, done, VersionRedirects(versions, id));
        assert ids[..i + 1][..i] == ids[..i];
      }
      assert ids[..|ids|] == ids;
    }

    /** The redirects that the copies `versions` of module `id` declare. */
    method RecordVersionRedirects(versions: seq<VersionInfo>, id: string)
      modifies this
      ensures knownModules == ApplyRedirects(old(knownModules), VersionRedirects(versions, id))
    {
      for j := 0 to |versions|
        invariant knownModules == ApplyRedirects(old(knownModules), VersionRedirects(versions[..j], id))
      {
        ghost var before := VersionRedirects(versions[..j], id);
        var legacyIds := LegacyIdsOf(versions[j]);
        RecordRedirects(legacyIds, id);
        ApplyRedirectsAppend(old(knownModules), before, PairsTo(legacyIds, id));
        assert versions[..j + 1][..j] == versions[..j];
      }
      assert versions[..|versions|] == versions;
    }

    /** `getOrCreateModuleEntry(legacyId).replacedByIds.push(id)` for each of
        the legacy ids one copy of module `id` declares. */
    method RecordRedirects(legacyIds: seq<string>, id: string)
      modifies this
      ensures knownModules == ApplyRedirects(old(knownModules), PairsTo(legacyIds, id))
    {
      for n := 0 to |legacyIds|
        invariant knownModules == ApplyRedirects(old(knownModules), PairsTo(legacyIds[..n], id))
      {
        var fromEntry := GetOrCreateModuleEntry(legacyIds[n]);
        knownModules := knownModules[legacyIds[n] := fromEntry.(replacedByIds := fromEntry.replacedByIds + [id])];
        assert PairsTo(legacyIds[..n + 1], id)[..n] == PairsTo(legacyIds[..n], id);
      }
      assert legacyIds[..|legacyIds|] == legacyIds;
    }

    /** The pass of `initInstances` that chooses the version of each of the
        modules `ids` to use. */
    method ChooseVersions(ids: seq<string>)
      requires forall x | x in ids :: x in knownModules
      requires forall i, j | 0 <= i < j < |ids| :: ids[i] != ids[j]
      modifies this
      ensures knownModules == ChooseDefaults(old(knownModules), ids)
    {
      ghost var k3 := knownModules;
      for i := 0 to |ids|
        invariant knownModules == ChooseDefaults(k3, ids[..i])
      {
        var id := ids[i];
        var moduleInfo := knownModules[id];
        assert moduleInfo == k3[id];
        if |moduleInfo.replacedByIds| > 0 {
        } else if |moduleInfo.devVersions| > 0 && moduleInfo.devVersions[0].0 != "" {
          knownModules := knownModules[id := moduleInfo.(useVersion := Some(UseVersion(DevUse, Some(moduleInfo.devVersions[0].0))))];
        } else if |moduleInfo.userVersions| > 0 && moduleInfo.userVersions[0].0 != "" {
          knownModules := knownModules[id := moduleInfo.(useVersion := Some(UseVersion(UserUse, Some(moduleInfo.userVersions[0].0))))];
        } else if moduleInfo.builtinModule.Some? {
          knownModules := knownModules[id := moduleInfo.(useVersion := Some(UseVersion(BuiltinUse, None)))];
        }
        assert knownModules == ChooseDefaults(k3, ids[..i + 1]);
      }
      assert ids[..|ids|] == ids;
    }

    /** `verifyInstanceTypeIsCurrent`: one hop along the first replacement. */
    function VerifyInstanceTypeIsCurrent(instanceType: string): (r: string)
      reads this
      ensures instanceType !in knownModules || knownModules[instanceType].replacedByIds == [] ==> r == instanceType
      ensures instanceType in knownModules && |knownModules[instanceType].replacedByIds| > 0 ==>
        r == knownModules[instanceType].replacedByIds[0] && r in knownModules[instanceType].replacedByIds
    {
      if instanceType !in knownModules || |knownModules[instanceType].replacedByIds| == 0 then instanceType
      else knownModules[instanceType].replacedByIds[0]
    }

    /** `getModulesJson()` */
    method GetModulesJson() returns (result: map<string, ClientModuleSummary>)
      ensures forall id :: id in result <==> id in knownModules && GetSelectedVersion(knownModules[id]).Some?
      ensures forall id | id in result :: Some(result[id]) == ModuleJson(knownModules[id])
    {
      result := map[];
      var pending := knownModules.Keys;
      while pending != {}
        invariant pending <= knownModules.Keys
        invariant forall id :: id in result <==> id in knownModules && id !in pending && ModuleJson(knownModules[id]).Some?
        invariant forall id | id in result :: Some(result[id]) == ModuleJson(knownModules[id])
        decreases |pending|
      {
        var id :| id in pending;
        var entry := ModuleJson(knownModules[id]);
        if entry.Some? {
          result := result[id := entry.value];
        }
        pending := pending - {id};
      }
      forall id | id in knownModules ensures ModuleJson(knownModules[id]).Some? <==> GetSelectedVersion(knownModules[id]).Some? {
        ModuleJsonListsSelected(knownModules[id]);
      }
    }

    /** `getModuleManifest(moduleId)` */
    function GetModuleManifest(moduleId: string): (r: Option<VersionInfo>)
      reads this
      ensures r.Some? ==> moduleId in knownModules && r.value in AllVersions(knownModules[moduleId])
      ensures moduleId !in knownModules ==> r.None?
      ensures moduleId in knownModules ==> r == GetSelectedVersion(knownModules[moduleId])
    {
      if moduleId in knownModules then GetSelectedVersion(knownModules[moduleId]) else None
    }

    /** `#getHelpForModule(moduleId, versionId)`; `helpFiles` maps each path
        that is a readable regular file to its text. */
    method GetHelpForModule(moduleId: string, versionId: Option<string>, helpFiles: map<string, string>)
      returns (r: HelpResult)
      ensures var v := if moduleId in knownModules then VersionLookup(knownModules[moduleId], versionId) else None;
        && (r.HelpFound? <==> v.Some? && Truthy(v.value.helpPath) && v.value.helpPath.value in helpFiles)
        && (r.HelpFound? ==> r.help == HelpDescription(helpFiles[v.value.helpPath.value],
              "/int/help/module/" + moduleId + "/" + UrlVersionSegment(versionId)))
        && (r.HelpError? ==> r.err == "nofile")
    {
      if moduleId !in knownModules {
        return HelpError("nofile");
      }
      var moduleInfo := FindVersion(knownModules[moduleId], versionId);
      if moduleInfo.Some? && Truthy(moduleInfo.value.helpPath) {
        var helpPath := moduleInfo.value.helpPath.value;
        if helpPath in helpFiles {
          return HelpFound(HelpDescription(helpFiles[helpPath], "/int/help/module/" + moduleId + "/" + UrlVersionSegment(versionId)));
        }
      }
      return HelpError("nofile");
    }

    /** The copy the help-asset route serves files from, if any. */
    ghost function AssetVersion(moduleIdParam: string, versionIdParam: string): Option<VersionInfo>
      reads this
    {
      var moduleId := StripDotRuns(moduleIdParam);
      if moduleId !in knownModules then None
      else
        var v := VersionLookup(knownModules[moduleId], VersionOfUrlSegment(versionIdParam));
        if v.Some? && Truthy(v.value.helpPath) && v.value.basePath != "" then v else None
    }

    /** `#getHelpAsset`: the route parameters, with every `..` run removed
        from the module id and the file, and `existing`, the set of paths
        that exist on disk. A file is sent only when it has an allowed
        extension, its name holds no `..`, and it lies under the
        `companion` directory of a copy that has help. */
    method GetHelpAsset(moduleIdParam: string, versionIdParam: string, fileParam: string, existing: set<string>)
      returns (r: AssetResponse)
      ensures r.SendFile? <==>
        && AssetVersion(moduleIdParam, versionIdParam).Some?
        && HasHelpAssetExtension(StripDotRuns(fileParam))
        && HelpAssetPath(AssetVersion(moduleIdParam, versionIdParam).value.basePath, StripDotRuns(fileParam)) in existing
      ensures r.SendFile? ==>
        && r.path == HelpAssetPath(AssetVersion(moduleIdParam, versionIdParam).value.basePath, StripDotRuns(fileParam))
        && NoDotDot(StripDotRuns(fileParam))
    {
      var moduleId := StripDotRuns(moduleIdParam);
      var file := StripDotRuns(fileParam);
      if moduleId in knownModules {
        var moduleInfo := FindVersion(knownModules[moduleId], VersionOfUrlSegment(versionIdParam));
        if moduleInfo.Some? && Truthy(moduleInfo.value.helpPath) && moduleInfo.value.basePath != "" {
          var fullpath := HelpAssetPath(moduleInfo.value.basePath, file);
          if HasHelpAssetExtension(file) && fullpath in existing {
            return SendFile(fullpath);
          }
        }
      }
      return NextHandler;
    }
  }
}
