/** Installing a custom module from an uploaded archive
    (`InstanceInstalledModulesManager` and `extractManifestFromTar` in
    companion/lib/Instance/InstalledModulesManager.ts). The gzip and tar
    layers are taken as already decoded: an archive is its sequence of
    entries. */
module Installer {
  import opened Util
  import opened Model

  newtype byte = x: int | 0 <= x < 256

  /** The header type of a tar entry, as far as this code distinguishes it. */
  datatype EntryType = FileEntry | DirectoryEntry | OtherEntry

  /** One tar entry: its header name and type, and its data as it arrives in
      chunks. */
  datatype TarEntry = TarEntry(name: string, entryType: EntryType, chunks: seq<seq<byte>>)

  /** `Buffer.concat(dataBuffers)` */
  function Concat(chunks: seq<seq<byte>>): seq<byte>
    decreases |chunks|
  {
    if |chunks| == 0 then [] else Concat(chunks[..|chunks| - 1]) + chunks[|chunks| - 1]
  }

  const ManifestPath := "companion/manifest.json"

  /** The value of `rootDir` once the entries `es` have been seen: it is set
      by the first entry seen while it is still undefined, to that entry's
      name when the entry is a directory. */
  function RootDir(es: seq<TarEntry>): Option<string>
    decreases |es|
  {
    if |es| == 0 then None
    else
      var before := RootDir(es[..|es| - 1]);
      if before.Some? then before
      else if es[|es| - 1].entryType == DirectoryEntry then Some(es[|es| - 1].name)
      else None
  }

  /** `rootDir` is the name of the first directory entry, and stays undefined
      until there is one. */
  lemma {:induction false} RootDirIsFirstDirectory(es: seq<TarEntry>)
    ensures RootDir(es).Some? <==> exists i | 0 <= i < |es| :: es[i].entryType == DirectoryEntry
    ensures RootDir(es).Some? ==> exists i | 0 <= i < |es| ::
      && es[i].entryType == DirectoryEntry
      && es[i].name == RootDir(es).value
      && forall j | 0 <= j < i :: es[j].entryType != DirectoryEntry
    decreases |es|
  {
    if |es| > 0 {
      var n := |es| - 1;
      RootDirIsFirstDirectory(es[..n]);
      assert forall j | 0 <= j < n :: es[..n][j] == es[j];
    }
  }

  /** The name an entry is matched by: the root directory prefix is cut off
      when there is a non-empty root directory and the name starts with it. */
  function StrippedName(rootDir: Option<string>, name: string): string {
    if Truthy(rootDir) && StartsWith(name, rootDir.value) then name[|rootDir.value|..] else name
  }

  /** The name entry `i` is matched by, with `rootDir` as updated by that
      entry itself. */
  function SeenName(es: seq<TarEntry>, i: nat): string
    requires i < |es|
  {
    StrippedName(RootDir(es[..i + 1]), es[i].name)
  }

  /** What `extractManifestFromTar` resolves to when it starts looking at
      entry `i`: the data of the first entry from `i` on whose matched name
      is the manifest path, or null when the archive ends first. */
  function ManifestFrom(es: seq<TarEntry>, i: nat): Option<seq<byte>>
    requires i <= |es|
    decreases |es| - i
  {
    if i == |es| then None
    else if SeenName(es, i) == ManifestPath then Some(Concat(es[i].chunks))
    else ManifestFrom(es, i + 1)
  }

  /** Without an entry whose matched name is exactly the manifest path the
      result is null. */
  lemma {:induction false} ManifestNoneIff(es: seq<TarEntry>, i: nat)
    requires i <= |es|
    ensures ManifestFrom(es, i).None? <==> forall j | i <= j < |es| :: SeenName(es, j) != ManifestPath
    decreases |es| - i
  {
    if i < |es| && SeenName(es, i) != ManifestPath {
      ManifestNoneIff(es, i + 1);
    }
  }

  /** The manifest is the concatenated data of the first entry whose matched
      name is exactly the manifest path; later entries do not matter. */
  lemma {:induction false} ManifestIsFirstMatch(es: seq<TarEntry>, i: nat, j: nat)
    requires i <= j < |es|
    requires SeenName(es, j) == ManifestPath
    requires forall k | i <= k < j :: SeenName(es, k) != ManifestPath
    ensures ManifestFrom(es, i) == Some(Concat(es[j].chunks))
    decreases j - i
  {
    if i < j {
      ManifestIsFirstMatch(es, i + 1, j);
    }
  }

  /** `extractManifestFromTar(tarData)`, over the decoded entries. */
  method ExtractManifestFromTar(es: seq<TarEntry>) returns (r: Option<seq<byte>>)
    ensures r == ManifestFrom(es, 0)
  {
    var rootDir: Option<string> := None;
    for i := 0 to |es|
      invariant rootDir == RootDir(es[..i])
      invariant ManifestFrom(es, i) == ManifestFrom(es, 0)
    {
      var header := es[i];
      if rootDir.None? {
        rootDir := if header.entryType == DirectoryEntry then Some(header.name) else None;
      }
      assert es[..i + 1][..i] == es[..i];
      assert rootDir == RootDir(es[..i + 1]);
      var filename := if Truthy(rootDir) && StartsWith(header.name, rootDir.value) then header.name[|rootDir.value|..] else header.name;
      if filename == ManifestPath {
        var dataBuffers: seq<seq<byte>> := [];
        for c := 0 to |header.chunks|
          invariant dataBuffers == header.chunks[..c]
        {
          dataBuffers := dataBuffers + [header.chunks[c]];
        }
        assert dataBuffers == header.chunks;
        assert SeenName(es, i) == filename;
        return Some(Concat(dataBuffers));
      }
    }
    return None;
  }

  /** Before any directory entry, names are matched as they are; once the
      root directory is known, it is cut off exactly from the names that
      start with it (when it is not empty). */
  lemma SeenNameStripsRoot(es: seq<TarEntry>, i: nat)
    requires i < |es|
    ensures (forall j | 0 <= j <= i :: es[j].entryType != DirectoryEntry) ==> SeenName(es, i) == es[i].name
    ensures forall d | d != "" && RootDir(es[..i + 1]) == Some(d) ::
      SeenName(es, i) == if StartsWith(es[i].name, d) then es[i].name[|d|..] else es[i].name
  {
    if forall j | 0 <= j <= i :: es[j].entryType != DirectoryEntry {
      RootDirIsFirstDirectory(es[..i + 1]);
      assert forall j | 0 <= j < |es[..i + 1]| :: es[..i + 1][j] == es[j];
    }
  }

  // --------------------------------------------------------- installation

  /** What the client sent: not a byte array, or the entries of a gzipped tar
      archive. */
  datatype Upload = NotBytes | Archive(entries: seq<TarEntry>)

  /** `path.join(configDir, 'store-modules')` */
  function StoreModulesDir(configDir: string): string {
    configDir + "/store-modules"
  }

  /** `path.join(configDir, 'custom-modules')` */
  function CustomModulesDir(configDir: string): string {
    configDir + "/custom-modules"
  }

  /** `path.join(customModulesDir, `${id}-${version}`)` */
  function ModuleDir(customModulesDir: string, m: Manifest): string {
    customModulesDir + "/" + m.id + "-" + m.version
  }

  /** The outcome of the checks of `modules:install-custom-module`: an error
      message, or the directory to create and the manifest read. */
  datatype InstallDecision = Refuse(message: string) | Proceed(moduleDir: string, manifest: Manifest)

  /** The check chain, in the order it runs: input type, then a non-empty
      manifest, then an unused module directory. `parseManifest` stands for
      `JSON.parse` of the manifest text. */
  function Decide(customModulesDir: string, data: Upload, parseManifest: seq<byte> -> Manifest,
                  existingDirs: set<string>): InstallDecision
  {
    if data.NotBytes? then Refuse("Invalid data. Expected UInt8Array")
    else
      var manifestData := ManifestFrom(data.entries, 0);
      if manifestData.None? || manifestData.value == [] then Refuse("Doesn't look like a valid module, missing manifest")
      else
        var manifest := parseManifest(manifestData.value);
        var moduleDir := ModuleDir(customModulesDir, manifest);
        if moduleDir in existingDirs then Refuse("Module " + manifest.id + " v" + manifest.version + " already exists")
        else Proceed(moduleDir, manifest)
  }

  /** The decision chain: a non-byte input is refused before anything else is
      looked at; an archive without a (non-empty) manifest is refused; an
      existing module directory is refused with the manifest's id and
      version; an install goes ahead exactly when the manifest's `{id}-{version}`
      directory under the custom modules directory does not exist yet. */
  lemma DecideChain(customModulesDir: string, data: Upload, parseManifest: seq<byte> -> Manifest, existingDirs: set<string>)
    ensures data.NotBytes? ==> Decide(customModulesDir, data, parseManifest, existingDirs) == Refuse("Invalid data. Expected UInt8Array")
    ensures data.Archive? && (ManifestFrom(data.entries, 0).None? || ManifestFrom(data.entries, 0).value == []) ==>
      Decide(customModulesDir, data, parseManifest, existingDirs) == Refuse("Doesn't look like a valid module, missing manifest")
    ensures data.Archive? && ManifestFrom(data.entries, 0).Some? && ManifestFrom(data.entries, 0).value != [] ==>
      var m := parseManifest(ManifestFrom(data.entries, 0).value);
      ModuleDir(customModulesDir, m) in existingDirs ==>
        Decide(customModulesDir, data, parseManifest, existingDirs) == Refuse("Module " + m.id + " v" + m.version + " already exists")
    ensures Decide(customModulesDir, data, parseManifest, existingDirs).Proceed? <==>
      && data.Archive?
      && ManifestFrom(data.entries, 0).Some?
      && ManifestFrom(data.entries, 0).value != []
      && ModuleDir(customModulesDir, parseManifest(ManifestFrom(data.entries, 0).value)) !in existingDirs
    ensures match Decide(customModulesDir, data, parseManifest, existingDirs)
      case Proceed(dir, m) =>
        && m == parseManifest(ManifestFrom(data.entries, 0).value)
        && dir == ModuleDir(customModulesDir, m)
        && ('/' !in m.id && '/' !in m.version ==> StartsWith(dir, customModulesDir + "/"))
      case Refuse(_) => true
  {
    match Decide(customModulesDir, data, parseManifest, existingDirs)
    case Proceed(dir, m) =>
      assert dir == (customModulesDir + "/") + (m.id + "-" + m.version);
    case Refuse(_) =>
  }

  /** Store modules and custom modules live in different directories, and no
      custom module directory of a manifest whose id and version hold no `/`
      lies inside the store modules directory. */
  lemma ModuleDirsApart(configDir: string, m: Manifest)
    requires '/' !in m.id && '/' !in m.version
    ensures StoreModulesDir(configDir) != CustomModulesDir(configDir)
    ensures !StartsWith(ModuleDir(CustomModulesDir(configDir), m), StoreModulesDir(configDir) + "/")
  {
    var n := |configDir|;
    assert StoreModulesDir(configDir)[n + 1] == 's';
    assert CustomModulesDir(configDir)[n + 1] == 'c';
    assert ModuleDir(CustomModulesDir(configDir), m)[n + 1] == 'c';
  }

  /** A segment that `path.join` appends as it is. */
  predicate PlainSegment(seg: string) {
    seg != "" && seg != "." && seg != ".."
  }

  /** `path.join` on path segments: `..` drops the last segment, `.` and
      empty segments are skipped, any other segment is appended; so
      relative segments that are all plain are appended unchanged. */
  function JoinSegments(base: seq<string>, rel: seq<string>): (r: seq<string>)
    ensures |r| <= |base| + |rel|
    ensures (forall i | 0 <= i < |rel| :: PlainSegment(rel[i])) ==> r == base + rel
    decreases |rel|
  {
    if |rel| == 0 then base
    else if rel[0] == ".." then JoinSegments(if |base| > 0 then base[..|base| - 1] else base, rel[1..])
    else if rel[0] == "." || rel[0] == "" then JoinSegments(base, rel[1..])
    else
      var r := JoinSegments(base + [rel[0]], rel[1..]);
      assert (base + [rel[0]]) + rel[1..] == base + rel;
      r
  }

  /** The `{id}-{version}` segment always holds a `-`, so it is never `.`,
      `..` or empty: when it holds no `/`, `path.join` appends it as it is,
      which is what `ModuleDir` does. */
  lemma ModuleDirJoinsPlainly(base: seq<string>, m: Manifest)
    ensures var seg := m.id + "-" + m.version;
      && PlainSegment(seg)
      && JoinSegments(base, [seg]) == base + [seg]
  {
    var seg := m.id + "-" + m.version;
    assert seg[|m.id|] == '-';
    assert "."[0] == '.' && ".."[0] == '.' && ".."[1] == '.';
  }

  /** The manifest id is never checked: an id of `../store-modules/x`
      (segments `..`, `store-modules`, `x-1.0.0` once the version `1.0.0` is
      appended) places the custom module inside the store modules
      directory. */
  lemma ManifestIdEscapes(configDir: seq<string>)
    ensures JoinSegments(configDir + ["custom-modules"], ["..", "store-modules", "x-1.0.0"])
      == configDir + ["store-modules", "x-1.0.0"]
  {
    var base := configDir + ["custom-modules"];
    assert base[..|base| - 1] == configDir;
    var rel := ["..", "store-modules", "x-1.0.0"];
    assert rel[1..] == ["store-modules", "x-1.0.0"] && rel[1..][1..] == ["x-1.0.0"] && |rel[1..][1..][1..]| == 0;
    assert "store-modules"[0] == 's' && "x-1.0.0"[0] == 'x';
    assert JoinSegments(base, rel) == JoinSegments(configDir, rel[1..]);
    assert JoinSegments(configDir, rel[1..]) == JoinSegments(configDir + ["store-modules"], rel[1..][1..]);
    assert JoinSegments(configDir + ["store-modules"], rel[1..][1..])
      == JoinSegments(configDir + ["store-modules"] + ["x-1.0.0"], []);
  }

  /** InstanceInstalledModulesManager. The filesystem is the set of
      directories that exist; the `installed` events emitted are recorded. */
  class InstalledModulesManager {
    const storeModulesDir: string
    const customModulesDir: string
    var existingDirs: set<string>
    var installedEvents: seq<(string, Manifest)>

    constructor(configDir: string, existing: set<string>)
      ensures storeModulesDir == StoreModulesDir(configDir)
      ensures customModulesDir == CustomModulesDir(configDir)
      ensures existingDirs == existing && installedEvents == []
    {
      storeModulesDir := StoreModulesDir(configDir);
      customModulesDir := CustomModulesDir(configDir);
      existingDirs := existing;
      installedEvents := [];
    }

    /** `init()`: both module directories exist afterwards. */
    method Init()
      modifies this
      ensures existingDirs == old(existingDirs) + {storeModulesDir, customModulesDir}
      ensures installedEvents == old(installedEvents)
    {
      existingDirs := existingDirs + {storeModulesDir};
      existingDirs := existingDirs + {customModulesDir};
    }

    /** The `modules:install-custom-module` handler. `mkdirFails` says whether
        creating the directory throws, in which case it is removed again.
        Past the checks the handler reports success (null) and emits
        `installed` even when creating the directory failed. */
    method InstallCustomModule(data: Upload, parseManifest: seq<byte> -> Manifest, mkdirFails: bool)
      returns (r: Option<string>)
      modifies this
      ensures match Decide(customModulesDir, data, parseManifest, old(existingDirs))
        case Refuse(message) =>
          && r == Some(message)
          && existingDirs == old(existingDirs)
          && installedEvents == old(installedEvents)
        case Proceed(moduleDir, manifest) =>
          && r == None
          && existingDirs == (if mkdirFails then old(existingDirs) else old(existingDirs) + {moduleDir})
          && installedEvents == old(installedEvents) + [(moduleDir, manifest)]
    {
      if data.NotBytes? {
        return Some("Invalid data. Expected UInt8Array");
      }
      var manifestStr := ExtractManifestFromTar(data.entries);
      if manifestStr.None? || manifestStr.value == [] {
        return Some("Doesn't look like a valid module, missing manifest");
      }
      var manifestJson := parseManifest(manifestStr.value);
      var moduleDir := ModuleDir(customModulesDir, manifestJson);
      if moduleDir in existingDirs {
        return Some("Module " + manifestJson.id + " v" + manifestJson.version + " already exists");
      }
      if !mkdirFails {
        existingDirs := existingDirs + {moduleDir};
      } else {
        // cleanup: the directory does not stay behind
        existingDirs := existingDirs - {moduleDir};
      }
      installedEvents := installedEvents + [(moduleDir, manifestJson)];
      return None;
    }
  }
}
