/** The per-module version registry of the server (`InstanceModuleInfo`):
    an optional development build, release versions tagged stable or
    prerelease, custom builds, and the ids that replace this module. It
    resolves which version a connection runs under each selection mode and
    projects itself into the summary sent to clients. */
module ModuleInfo {
  import opened Util
  import opened Records
  import opened Model
  import SemVer

  datatype ReleaseType = Stable | Prerelease

  /** The fields every kind of version carries (ModuleVersionInfoBase). */
  datatype VersionBase = VersionBase(
    basePath: string,
    helpPath: Option<string>,
    display: DisplayInfo,
    manifest: Manifest,
    isPackaged: bool)

  datatype ReleaseVersion = ReleaseVersion(base: VersionBase, releaseType: ReleaseType, versionId: string, isBuiltin: bool)

  datatype DevVersion = DevVersion(base: VersionBase)

  datatype CustomVersion = CustomVersion(base: VersionBase, versionId: string)

  /** SomeModuleVersionInfo */
  datatype SomeVersion = Release(release: ReleaseVersion) | Dev(dev: DevVersion) | Custom(custom: CustomVersion)
  {
    function Display(): DisplayInfo {
      match this
      case Release(r) => r.base.display
      case Dev(d) => d.base.display
      case Custom(c) => c.base.display
    }
  }

  datatype InstanceModuleInfo = InstanceModuleInfo(
    id: string,
    replacedByIds: seq<string>,
    devModule: Option<DevVersion>,
    releaseVersions: Record<ReleaseVersion>,
    customVersions: Record<CustomVersion>)

  /** The declared semantic version that `semver.compare` is applied to. */
  function DeclaredVersion(v: ReleaseVersion): SemVer.Version {
    v.base.display.version
  }

  /** The `latest` accumulator of `getVersion` after the scan of vs: the
      first release of type t that no later one of that type strictly
      exceeds. */
  function LatestOfType(vs: seq<ReleaseVersion>, t: ReleaseType): (r: Option<ReleaseVersion>)
    ensures r.Some? ==> r.value in vs && r.value.releaseType == t
  {
    if |vs| == 0 then None
    else
      var latest := LatestOfType(vs[..|vs| - 1], t);
      var v := vs[|vs| - 1];
      if v.releaseType != t then latest
      else if latest.None? || SemVer.CompareVersions(DeclaredVersion(v), DeclaredVersion(latest.value)) > 0 then Some(v)
      else latest
  }

  function TypeOfMode(mode: VersionMode): ReleaseType
    requires mode == StableMode || mode == PrereleaseMode
  {
    if mode == StableMode then Stable else Prerelease
  }

  /** What `getVersion(mode, versionId)` returns. */
  function Resolve(m: InstanceModuleInfo, mode: VersionMode, versionId: Option<string>): Option<SomeVersion>
  {
    match mode
    case StableMode | PrereleaseMode =>
      if m.devModule.Some? then Some(Dev(m.devModule.value))
      else
        var latest := LatestOfType(Values(m.releaseVersions), TypeOfMode(mode));
        if latest.None? then None else Some(Release(latest.value))
    case SpecificVersionMode =>
      if !Truthy(versionId) then None
      else
        var v := Get(m.releaseVersions, versionId.value);
        if v.None? then None else Some(Release(v.value))
    case CustomMode =>
      if !Truthy(versionId) then None
      else
        var v := Get(m.customVersions, versionId.value);
        if v.None? then None else Some(Custom(v.value))
    case UnknownMode => None
  }

  /** `getVersion`: the stable and prerelease modes scan the releases with a
      mutable `latest`, replacing it only on a strictly greater version. */
  method GetVersion(m: InstanceModuleInfo, mode: VersionMode, versionId: Option<string>) returns (r: Option<SomeVersion>)
    ensures r == Resolve(m, mode, versionId)
  {
    match mode
    case StableMode | PrereleaseMode =>
      if m.devModule.Some? {
        return Some(Dev(m.devModule.value));
      }
      var t := TypeOfMode(mode);
      var values := Values(m.releaseVersions);
      var latest: Option<ReleaseVersion> := None;
      var i := 0;
      while i < |values|
        invariant 0 <= i <= |values|
        invariant latest == LatestOfType(values[..i], t)
      {
        var version := values[i];
        assert values[..i + 1][..i] == values[..i];
        if version.releaseType == t {
          if latest.None? || SemVer.CompareVersions(DeclaredVersion(version), DeclaredVersion(latest.value)) > 0 {
            latest := Some(version);
          }
        }
        i := i + 1;
      }
      assert values[..i] == values;
      r := if latest.None? then None else Some(Release(latest.value));
    case SpecificVersionMode =>
      if !Truthy(versionId) {
        return None;
      }
      var v := Get(m.releaseVersions, versionId.value);
      r := if v.None? then None else Some(Release(v.value));
    case CustomMode =>
      if !Truthy(versionId) {
        return None;
      }
      var v := Get(m.customVersions, versionId.value);
      r := if v.None? then None else Some(Custom(v.value));
    case UnknownMode =>
      r := None;
  }

  // ------------------------------------------------- the latest-version scan

  lemma {:induction false} LatestNoneIff(vs: seq<ReleaseVersion>, t: ReleaseType)
    ensures LatestOfType(vs, t).None? <==> forall i | 0 <= i < |vs| :: vs[i].releaseType != t
  {
    if |vs| > 0 {
      LatestNoneIff(vs[..|vs| - 1], t);
    }
  }

  /** The scan's result is not less, by `semver.compare`, than any release of
      its type. */
  lemma {:induction false} LatestIsMaximum(vs: seq<ReleaseVersion>, t: ReleaseType, j: nat)
    requires j < |vs| && vs[j].releaseType == t
    ensures LatestOfType(vs, t).Some?
    ensures SemVer.CompareVersions(DeclaredVersion(vs[j]), DeclaredVersion(LatestOfType(vs, t).value)) <= 0
  {
    var n := |vs| - 1;
    var prefix := vs[..n];
    var v := vs[n];
    var latest := LatestOfType(prefix, t);
    var r := LatestOfType(vs, t);
    SemVer.CompareVersionsProps(DeclaredVersion(vs[j]), DeclaredVersion(vs[j]), DeclaredVersion(vs[j]));
    if j < n {
      assert prefix[j] == vs[j];
      LatestIsMaximum(prefix, t, j);
      if v.releaseType == t && SemVer.CompareVersions(DeclaredVersion(v), DeclaredVersion(latest.value)) > 0 {
        SemVer.CompareVersionsProps(DeclaredVersion(vs[j]), DeclaredVersion(latest.value), DeclaredVersion(v));
        SemVer.CompareVersionsProps(DeclaredVersion(latest.value), DeclaredVersion(v), DeclaredVersion(v));
      }
    } else if latest.Some? && SemVer.CompareVersions(DeclaredVersion(v), DeclaredVersion(latest.value)) <= 0 {
      assert r == latest;
    }
  }

  /** Ties keep the earlier release: the result is the first release of its
      type that reaches the maximum; every earlier one of that type is
      strictly less. */
  lemma {:induction false} LatestIsFirstMaximum(vs: seq<ReleaseVersion>, t: ReleaseType)
    requires LatestOfType(vs, t).Some?
    ensures exists k | 0 <= k < |vs| ::
      && vs[k] == LatestOfType(vs, t).value
      && forall j | 0 <= j < k && vs[j].releaseType == t ::
           SemVer.CompareVersions(DeclaredVersion(vs[j]), DeclaredVersion(vs[k])) < 0
  {
    var n := |vs| - 1;
    var prefix := vs[..n];
    var v := vs[n];
    var latest := LatestOfType(prefix, t);
    var r := LatestOfType(vs, t).value;
    if v.releaseType == t && (latest.None? || SemVer.CompareVersions(DeclaredVersion(v), DeclaredVersion(latest.value)) > 0) {
      forall j | 0 <= j < n && vs[j].releaseType == t
        ensures SemVer.CompareVersions(DeclaredVersion(vs[j]), DeclaredVersion(vs[n])) < 0
      {
        assert prefix[j] == vs[j];
        if latest.None? {
          LatestNoneIff(prefix, t);
          assert false;
        }
        LatestIsMaximum(prefix, t, j);
        SemVer.CompareVersionsProps(DeclaredVersion(v), DeclaredVersion(vs[j]), DeclaredVersion(latest.value));
        SemVer.CompareVersionsProps(DeclaredVersion(vs[j]), DeclaredVersion(v), DeclaredVersion(v));
      }
      assert vs[n] == r;
    } else {
      LatestIsFirstMaximum(prefix, t);
      var k :| 0 <= k < |prefix| && prefix[k] == latest.value &&
        forall j | 0 <= j < k && prefix[j].releaseType == t ::
          SemVer.CompareVersions(DeclaredVersion(prefix[j]), DeclaredVersion(prefix[k])) < 0;
      assert vs[k] == r;
      forall j | 0 <= j < k && vs[j].releaseType == t
        ensures SemVer.CompareVersions(DeclaredVersion(vs[j]), DeclaredVersion(vs[k])) < 0
      {
        assert prefix[j] == vs[j];
      }
    }
  }

  // ------------------------------------------------------- resolution by mode

  /** `stable` and `prerelease`: the development build if there is one;
      otherwise nothing exactly when no release has the mode's type, and else
      a release of that type that no release of that type exceeds, the first
      such one in enumeration order. */
  lemma ResolveLatest(m: InstanceModuleInfo, mode: VersionMode, versionId: Option<string>)
    requires mode == StableMode || mode == PrereleaseMode
    ensures m.devModule.Some? ==> Resolve(m, mode, versionId) == Some(Dev(m.devModule.value))
    ensures m.devModule.None? ==>
      (Resolve(m, mode, versionId).None? <==>
        forall i | 0 <= i < |m.releaseVersions| :: m.releaseVersions[i].1.releaseType != TypeOfMode(mode))
    ensures m.devModule.None? && Resolve(m, mode, versionId).Some? ==>
      && Resolve(m, mode, versionId).value.Release?
      && var l := Resolve(m, mode, versionId).value.release;
      && l.releaseType == TypeOfMode(mode)
      && (forall j | 0 <= j < |m.releaseVersions| && m.releaseVersions[j].1.releaseType == l.releaseType ::
            SemVer.CompareVersions(DeclaredVersion(m.releaseVersions[j].1), DeclaredVersion(l)) <= 0)
      && exists k | 0 <= k < |m.releaseVersions| ::
           && m.releaseVersions[k].1 == l
           && forall j | 0 <= j < k && m.releaseVersions[j].1.releaseType == l.releaseType ::
                SemVer.CompareVersions(DeclaredVersion(m.releaseVersions[j].1), DeclaredVersion(l)) < 0
  {
    if m.devModule.None? {
      var t := TypeOfMode(mode);
      var vs := Values(m.releaseVersions);
      LatestNoneIff(vs, t);
      if LatestOfType(vs, t).Some? {
        forall j | 0 <= j < |vs| && vs[j].releaseType == t
          ensures SemVer.CompareVersions(DeclaredVersion(vs[j]), DeclaredVersion(LatestOfType(vs, t).value)) <= 0
        {
          LatestIsMaximum(vs, t, j);
        }
        LatestIsFirstMaximum(vs, t);
      }
    }
  }

  /** `specific-version` is an exact lookup among the releases and `custom`
      an exact lookup among the custom builds: found exactly when the id is
      present and a key, never another version, and independent of every
      other kind of version. Any other mode resolves to nothing. */
  lemma ResolveExact(m: InstanceModuleInfo, versionId: Option<string>)
    ensures Resolve(m, SpecificVersionMode, versionId).Some? <==>
      Truthy(versionId) && exists i | 0 <= i < |m.releaseVersions| :: m.releaseVersions[i].0 == versionId.value
    ensures Resolve(m, SpecificVersionMode, versionId).Some? ==>
      && Resolve(m, SpecificVersionMode, versionId).value.Release?
      && (versionId.value, Resolve(m, SpecificVersionMode, versionId).value.release) in m.releaseVersions
    ensures Resolve(m, CustomMode, versionId).Some? <==>
      Truthy(versionId) && exists i | 0 <= i < |m.customVersions| :: m.customVersions[i].0 == versionId.value
    ensures Resolve(m, CustomMode, versionId).Some? ==>
      && Resolve(m, CustomMode, versionId).value.Custom?
      && (versionId.value, Resolve(m, CustomMode, versionId).value.custom) in m.customVersions
    ensures Resolve(m, SpecificVersionMode, versionId) ==
      Resolve(m.(devModule := None, customVersions := []), SpecificVersionMode, versionId)
    ensures Resolve(m, CustomMode, versionId) ==
      Resolve(m.(devModule := None, releaseVersions := []), CustomMode, versionId)
    ensures Resolve(m, UnknownMode, versionId).None?
  {
    if Truthy(versionId) {
      var r := Get(m.releaseVersions, versionId.value);
      if r.Some? {
        var i :| 0 <= i < |m.releaseVersions| && m.releaseVersions[i] == (versionId.value, r.value);
      }
      var c := Get(m.customVersions, versionId.value);
      if c.Some? {
        var i :| 0 <= i < |m.customVersions| && m.customVersions[i] == (versionId.value, c.value);
      }
    }
  }

  // ------------------------------------------------------ the client summary

  /** `translateStableVersion` and `translatePrereleaseVersion`, which differ
      only in the slot's name and mode. */
  function TranslateLatestVersion(version: Option<SomeVersion>, mode: VersionMode): Option<ClientVersionInfo>
    requires mode == StableMode || mode == PrereleaseMode
  {
    var slot := if mode == StableMode then "Latest Stable" else "Latest Prerelease";
    match version
    case None => None
    case Some(Dev(d)) =>
      Some(ClientVersionInfo(slot + " (Dev)", false, true, false, d.base.helpPath.Some?, VersionRef(mode, None), Some("dev")))
    case Some(Release(r)) =>
      Some(ClientVersionInfo(slot + " (v" + r.versionId + ")", IsLegacy(r.base.display), false, r.isBuiltin,
                             r.base.helpPath.Some?, VersionRef(mode, None), Some(r.versionId)))
    case Some(Custom(_)) => None
  }

  function TranslateReleaseVersion(v: ReleaseVersion): ClientVersionInfo {
    ClientVersionInfo("v" + v.versionId, IsLegacy(v.base.display), false, v.isBuiltin, v.base.helpPath.Some?,
                      VersionRef(SpecificVersionMode, Some(v.versionId)), None)
  }

  function TranslateCustomVersion(v: CustomVersion): ClientVersionInfo {
    ClientVersionInfo("Custom XXX v" + v.versionId, false, false, false, v.base.helpPath.Some?,
                      VersionRef(CustomMode, Some(v.versionId)), None)
  }

  /** The summaries of the releases, in order. */
  function TranslateReleases(rs: Record<ReleaseVersion>): (r: seq<ClientVersionInfo>)
    ensures |r| == |rs|
    ensures forall i | 0 <= i < |rs| :: r[i] == TranslateReleaseVersion(rs[i].1)
  {
    seq(|rs|, i requires 0 <= i < |rs| => TranslateReleaseVersion(rs[i].1))
  }

  /** The summaries of the custom builds, in order. */
  function TranslateCustoms(cs: Record<CustomVersion>): (r: seq<ClientVersionInfo>)
    ensures |r| == |cs|
    ensures forall i | 0 <= i < |cs| :: r[i] == TranslateCustomVersion(cs[i].1)
  {
    seq(|cs|, i requires 0 <= i < |cs| => TranslateCustomVersion(cs[i].1))
  }

  /** The version whose display information heads the summary: latest
      stable, else latest prerelease, else the first release, else the first
      custom build. */
  function BaseVersion(m: InstanceModuleInfo): Option<SomeVersion> {
    var stable := Resolve(m, StableMode, None);
    var prerelease := Resolve(m, PrereleaseMode, None);
    if stable.Some? then stable
    else if prerelease.Some? then prerelease
    else if |m.releaseVersions| > 0 then Some(Release(m.releaseVersions[0].1))
    else if |m.customVersions| > 0 then Some(Custom(m.customVersions[0].1))
    else None
  }

  /** `toClientJson` */
  function ToClientJson(m: InstanceModuleInfo): Option<ClientModuleInfo> {
    var base := BaseVersion(m);
    if base.None? then None
    else
      Some(ClientModuleInfo(
        base.value.Display(),
        m.devModule.Some?,
        TranslateLatestVersion(Resolve(m, StableMode, None), StableMode),
        TranslateLatestVersion(Resolve(m, PrereleaseMode, None), PrereleaseMode),
        TranslateReleases(m.releaseVersions),
        TranslateCustoms(m.customVersions)))
  }

  /** A module has no summary exactly when it has no version of any kind; a
      module with only a development build has one, since `stable` resolves
      to it. */
  lemma ToClientJsonNullIff(m: InstanceModuleInfo)
    ensures ToClientJson(m).None? <==> m.devModule.None? && |m.releaseVersions| == 0 && |m.customVersions| == 0
  {
  }

  /** The summary lists the summaries of the releases and of the custom
      builds; without a summary there are none. */
  lemma ClientJsonLists(m: InstanceModuleInfo)
    ensures ToClientJson(m).Some? ==>
      && ToClientJson(m).value.releaseVersions == TranslateReleases(m.releaseVersions)
      && ToClientJson(m).value.customVersions == TranslateCustoms(m.customVersions)
    ensures ToClientJson(m).None? ==> m.releaseVersions == [] && m.customVersions == []
  {
  }

  /** What the summary says: whether a development build exists; one entry
      per release and per custom build, in enumeration order, labelled
      `v{id}` and `Custom XXX v{id}` and selecting that exact version; and
      latest-version slots that name the development build as version `dev`,
      not builtin, or else the resolved release. */
  lemma ToClientJsonContents(m: InstanceModuleInfo)
    requires ToClientJson(m).Some?
    ensures var s := ToClientJson(m).value;
      && s.hasDevVersion == m.devModule.Some?
      && |s.releaseVersions| == |m.releaseVersions|
      && (forall i | 0 <= i < |m.releaseVersions| ::
            var v := m.releaseVersions[i].1;
            && s.releaseVersions[i].displayName == "v" + v.versionId
            && s.releaseVersions[i].version == VersionRef(SpecificVersionMode, Some(v.versionId))
            && s.releaseVersions[i].isBuiltin == v.isBuiltin
            && !s.releaseVersions[i].isDev)
      && |s.customVersions| == |m.customVersions|
      && (forall i | 0 <= i < |m.customVersions| ::
            var v := m.customVersions[i].1;
            && s.customVersions[i].displayName == "Custom XXX v" + v.versionId
            && s.customVersions[i].version == VersionRef(CustomMode, Some(v.versionId))
            && !s.customVersions[i].isBuiltin)
      && (m.devModule.Some? ==>
            && s.stableVersion.Some? && s.prereleaseVersion.Some?
            && s.stableVersion.value.displayName == "Latest Stable (Dev)"
            && s.stableVersion.value.versionId == Some("dev") && !s.stableVersion.value.isBuiltin
            && s.prereleaseVersion.value.displayName == "Latest Prerelease (Dev)"
            && s.prereleaseVersion.value.versionId == Some("dev") && !s.prereleaseVersion.value.isBuiltin
            && s.baseInfo == m.devModule.value.base.display)
      && (m.devModule.None? ==>
            && (s.stableVersion.Some? <==> Resolve(m, StableMode, None).Some?)
            && (s.stableVersion.Some? ==>
                  s.stableVersion.value.versionId == Some(Resolve(m, StableMode, None).value.release.versionId))
            && (s.prereleaseVersion.Some? <==> Resolve(m, PrereleaseMode, None).Some?)
            && (s.prereleaseVersion.Some? ==>
                  s.prereleaseVersion.value.versionId == Some(Resolve(m, PrereleaseMode, None).value.release.versionId)))
      && (m.devModule.None? ==>
            var stable := LatestOfType(Values(m.releaseVersions), Stable);
            var prerelease := LatestOfType(Values(m.releaseVersions), Prerelease);
            s.baseInfo ==
              if stable.Some? then stable.value.base.display
              else if prerelease.Some? then prerelease.value.base.display
              else if |m.releaseVersions| > 0 then m.releaseVersions[0].1.base.display
              else m.customVersions[0].1.base.display)
  {
  }

  /** Without a development build the summary is headed by the latest
      stable release, else the latest prerelease; only a module without
      releases is headed by its first custom build. The first-release
      fallback of `toClientJson` is never reached, since every release is
      stable or prerelease. */
  lemma BaseInfoWithoutDev(m: InstanceModuleInfo)
    requires m.devModule.None?
    requires |m.releaseVersions| > 0 || |m.customVersions| > 0
    ensures ToClientJson(m).Some?
    ensures var stable := LatestOfType(Values(m.releaseVersions), Stable);
      var prerelease := LatestOfType(Values(m.releaseVersions), Prerelease);
      && (|m.releaseVersions| > 0 ==> stable.Some? || prerelease.Some?)
      && (|m.releaseVersions| > 0 ==>
            ToClientJson(m).value.baseInfo == (if stable.Some? then stable.value.base.display else prerelease.value.base.display))
      && (|m.releaseVersions| == 0 ==> ToClientJson(m).value.baseInfo == m.customVersions[0].1.base.display)
  {
    var vs := Values(m.releaseVersions);
    LatestNoneIff(vs, Stable);
    LatestNoneIff(vs, Prerelease);
    if |vs| > 0 {
      assert vs[0].releaseType == Stable || vs[0].releaseType == Prerelease;
    }
  }
}
