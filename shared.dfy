/** The value types that the server and the web client exchange: a module's
    display information and manifest, the version-selection modes of a
    connection, and the per-module summary the server sends to clients (in
    the shape built by `InstanceModuleInfo.toClientJson`). */
module Model {
  import opened Util
  import SemVer

  /** ModuleDisplayInfo. The declared version is held parsed: every string
      that reaches `semver.compare` must parse, or the comparison throws. */
  datatype DisplayInfo = DisplayInfo(
    id: string,
    name: string,
    version: SemVer.Version,
    hasHelp: bool,
    bugUrl: string,
    shortname: string,
    manufacturer: string,
    products: seq<string>,
    keywords: seq<string>,
    isLegacy: Option<bool>)

  /** `display.isLegacy ?? false` */
  predicate IsLegacy(d: DisplayInfo) {
    d.isLegacy == Some(true)
  }

  /** The fields of a module's `companion/manifest.json` that this model reads. */
  datatype Manifest = Manifest(id: string, version: string, legacyIds: Option<seq<string>>)

  /** ModuleVersionMode; `UnknownMode` stands for any other value reaching a
      `default:` branch. */
  datatype VersionMode = StableMode | PrereleaseMode | SpecificVersionMode | CustomMode | UnknownMode

  /** `{ mode, id }`: how a connection would select this version. */
  datatype VersionRef = VersionRef(mode: VersionMode, id: Option<string>)

  /** NewClientModuleVersionInfo2; `versionId` is present only in the
      extended form (NewClientModuleVersionInfo2Ext) used for the latest
      stable and latest prerelease slots. */
  datatype ClientVersionInfo = ClientVersionInfo(
    displayName: string,
    isLegacy: bool,
    isDev: bool,
    isBuiltin: bool,
    hasHelp: bool,
    version: VersionRef,
    versionId: Option<string>)

  /** NewClientModuleInfo */
  datatype ClientModuleInfo = ClientModuleInfo(
    baseInfo: DisplayInfo,
    hasDevVersion: bool,
    stableVersion: Option<ClientVersionInfo>,
    prereleaseVersion: Option<ClientVersionInfo>,
    releaseVersions: seq<ClientVersionInfo>,
    customVersions: seq<ClientVersionInfo>)
}
