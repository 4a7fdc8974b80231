/** The web client's choice of the version a connection uses
    (`getModuleVersionInfoForConnection`): it reads the summary the server
    sent, mirroring the server's `getVersion`. */
module ConnectionsUtil {
  import opened Util
  import opened Records
  import opened Model
  import ModuleInfo

  /** `vs.find((v) => v.version.id === id)` */
  function FindByVersionId(vs: seq<ClientVersionInfo>, id: Option<string>): (r: Option<ClientVersionInfo>)
    ensures r.None? <==> forall i | 0 <= i < |vs| :: vs[i].version.id != id
    ensures r.Some? ==> exists k | 0 <= k < |vs| ::
      vs[k] == r.value && vs[k].version.id == id && forall j | 0 <= j < k :: vs[j].version.id != id
  {
    if |vs| == 0 then None
    else if vs[0].version.id == id then Some(vs[0])
    else
      FindByVersionId(vs[1..], id)
  }

  /** `getModuleVersionInfoForConnection`; a null or undefined summary and
      an undefined result are both None. */
  function GetModuleVersionInfoForConnection(moduleInfo: Option<ClientModuleInfo>, mode: VersionMode,
                                             moduleVersionId: Option<string>): (r: Option<ClientVersionInfo>)
    ensures moduleInfo.None? || mode == UnknownMode ==> r.None?
    ensures moduleInfo.Some? && mode == StableMode ==> r == moduleInfo.value.stableVersion
    ensures moduleInfo.Some? && mode == PrereleaseMode ==> r == moduleInfo.value.prereleaseVersion
    ensures moduleInfo.Some? && mode == SpecificVersionMode ==>
      && (r.None? <==> forall i | 0 <= i < |moduleInfo.value.releaseVersions| ::
            moduleInfo.value.releaseVersions[i].version.id != moduleVersionId)
      && (r.Some? ==> r.value in moduleInfo.value.releaseVersions && r.value.version.id == moduleVersionId)
    ensures moduleInfo.Some? && mode == CustomMode ==>
      && (r.None? <==> forall i | 0 <= i < |moduleInfo.value.customVersions| ::
            moduleInfo.value.customVersions[i].version.id != moduleVersionId)
      && (r.Some? ==> r.value in moduleInfo.value.customVersions && r.value.version.id == moduleVersionId)
  {
    if moduleInfo.None? then None
    else
      var info := moduleInfo.value;
      match mode
      case StableMode => info.stableVersion
      case PrereleaseMode => info.prereleaseVersion
      case SpecificVersionMode => FindByVersionId(info.releaseVersions, moduleVersionId)
      case CustomMode => FindByVersionId(info.customVersions, moduleVersionId)
      case UnknownMode => None
  }

  /** The server's records are keyed by each version's own, non-empty id. */
  ghost predicate KeyedByVersionId(m: ModuleInfo.InstanceModuleInfo) {
    && DistinctKeys(m.releaseVersions)
    && DistinctKeys(m.customVersions)
    && (forall i | 0 <= i < |m.releaseVersions| :: m.releaseVersions[i].0 == m.releaseVersions[i].1.versionId)
    && (forall i | 0 <= i < |m.customVersions| :: m.customVersions[i].0 == m.customVersions[i].1.versionId)
    && (forall i | 0 <= i < |m.releaseVersions| :: m.releaseVersions[i].0 != "")
    && (forall i | 0 <= i < |m.customVersions| :: m.customVersions[i].0 != "")
  }

  /** The client resolves, from the server's summary, exactly the version the
      server's `getVersion` resolves: the latest slots are the server's
      translation of its resolution, and an exact lookup finds the entry of
      the version the server finds, and nothing when the server finds
      nothing. (The server refuses an empty id by truthiness and the client
      matches it with `===`; they agree because no version id is empty.) */
  lemma ClientMirrorsServer(m: ModuleInfo.InstanceModuleInfo, mode: VersionMode, versionId: Option<string>)
    requires KeyedByVersionId(m)
    ensures mode == StableMode || mode == PrereleaseMode ==>
      GetModuleVersionInfoForConnection(ModuleInfo.ToClientJson(m), mode, versionId) ==
        ModuleInfo.TranslateLatestVersion(ModuleInfo.Resolve(m, mode, None), mode)
    ensures mode == SpecificVersionMode ==>
      GetModuleVersionInfoForConnection(ModuleInfo.ToClientJson(m), mode, versionId) ==
        (match ModuleInfo.Resolve(m, mode, versionId)
         case None => None
         case Some(v) => Some(ModuleInfo.TranslateReleaseVersion(v.release)))
    ensures mode == CustomMode ==>
      GetModuleVersionInfoForConnection(ModuleInfo.ToClientJson(m), mode, versionId) ==
        (match ModuleInfo.Resolve(m, mode, versionId)
         case None => None
         case Some(v) => Some(ModuleInfo.TranslateCustomVersion(v.custom)))
    ensures mode == UnknownMode ==>
      GetModuleVersionInfoForConnection(ModuleInfo.ToClientJson(m), mode, versionId).None?
  {
    match mode
    case StableMode | PrereleaseMode => MirrorsLatest(m, mode);
    case SpecificVersionMode => MirrorsSpecificVersion(m, versionId);
    case CustomMode => MirrorsCustom(m, versionId);
    case UnknownMode =>
  }

  lemma MirrorsLatest(m: ModuleInfo.InstanceModuleInfo, mode: VersionMode)
    requires mode == StableMode || mode == PrereleaseMode
    ensures ModuleInfo.ToClientJson(m).Some? ==>
      var s := ModuleInfo.ToClientJson(m).value;
      (if mode == StableMode then s.stableVersion else s.prereleaseVersion) ==
        ModuleInfo.TranslateLatestVersion(ModuleInfo.Resolve(m, mode, None), mode)
    ensures ModuleInfo.ToClientJson(m).None? ==> ModuleInfo.Resolve(m, mode, None).None?
  {
    ModuleInfo.ToClientJsonNullIff(m);
    ModuleInfo.ResolveLatest(m, mode, None);
  }

  lemma MirrorsSpecificVersion(m: ModuleInfo.InstanceModuleInfo, versionId: Option<string>)
    requires KeyedByVersionId(m)
    ensures GetModuleVersionInfoForConnection(ModuleInfo.ToClientJson(m), SpecificVersionMode, versionId) ==
      (match ModuleInfo.Resolve(m, SpecificVersionMode, versionId)
       case None => None
       case Some(v) => Some(ModuleInfo.TranslateReleaseVersion(v.release)))
  {
    ModuleInfo.ClientJsonLists(m);
    FindTranslatedRelease(m.releaseVersions, versionId);
  }

  lemma MirrorsCustom(m: ModuleInfo.InstanceModuleInfo, versionId: Option<string>)
    requires KeyedByVersionId(m)
    ensures GetModuleVersionInfoForConnection(ModuleInfo.ToClientJson(m), CustomMode, versionId) ==
      (match ModuleInfo.Resolve(m, CustomMode, versionId)
       case None => None
       case Some(v) => Some(ModuleInfo.TranslateCustomVersion(v.custom)))
  {
    ModuleInfo.ClientJsonLists(m);
    FindTranslatedCustom(m.customVersions, versionId);
  }

  /** Searching the release summaries by id finds the summary of the
      release stored under that id. */
  lemma FindTranslatedRelease(rs: Record<ModuleInfo.ReleaseVersion>, versionId: Option<string>)
    requires DistinctKeys(rs)
    requires forall i | 0 <= i < |rs| :: rs[i].0 == rs[i].1.versionId
    ensures FindByVersionId(ModuleInfo.TranslateReleases(rs), versionId) ==
      if versionId.Some? && Get(rs, versionId.value).Some? then
        Some(ModuleInfo.TranslateReleaseVersion(Get(rs, versionId.value).value))
      else None
  {
    var entries := ModuleInfo.TranslateReleases(rs);
    var found := FindByVersionId(entries, versionId);
    if versionId.Some? && Get(rs, versionId.value).Some? {
      var i :| 0 <= i < |rs| && rs[i] == (versionId.value, Get(rs, versionId.value).value);
      assert entries[i].version.id == versionId;
      var k :| 0 <= k < |entries| && entries[k] == found.value && entries[k].version.id == versionId;
      GetOfDistinct(rs, k);
    } else {
      forall i | 0 <= i < |entries| ensures entries[i].version.id != versionId {
        assert entries[i].version.id == Some(rs[i].0);
      }
    }
  }

  /** Searching the custom build summaries by id finds the summary of the
      build stored under that id. */
  lemma FindTranslatedCustom(cs: Record<ModuleInfo.CustomVersion>, versionId: Option<string>)
    requires DistinctKeys(cs)
    requires forall i | 0 <= i < |cs| :: cs[i].0 == cs[i].1.versionId
    ensures FindByVersionId(ModuleInfo.TranslateCustoms(cs), versionId) ==
      if versionId.Some? && Get(cs, versionId.value).Some? then
        Some(ModuleInfo.TranslateCustomVersion(Get(cs, versionId.value).value))
      else None
  {
    var entries := ModuleInfo.TranslateCustoms(cs);
    var found := FindByVersionId(entries, versionId);
    if versionId.Some? && Get(cs, versionId.value).Some? {
      var i :| 0 <= i < |cs| && cs[i] == (versionId.value, Get(cs, versionId.value).value);
      assert entries[i].version.id == versionId;
      var k :| 0 <= k < |entries| && entries[k] == found.value && entries[k].version.id == versionId;
      GetOfDistinct(cs, k);
    } else {
      forall i | 0 <= i < |entries| ensures entries[i].version.id != versionId {
        assert entries[i].version.id == Some(cs[i].0);
      }
    }
  }
}
