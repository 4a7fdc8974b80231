# Companion module-version bookkeeping, in Dafny

This project models how Companion keeps track of the versions of its device
modules, and proves properties of that model. It covers the server side and
the small pieces of client logic that mirror it.

- **The per-module version registry** (`InstanceModuleInfo`). Each module has:
  - an optional development build;
  - release versions, each tagged stable or prerelease;
  - custom builds.

  `getVersion` resolves the version that a connection runs under each
  selection mode: `stable`, `prerelease`, `specific-version` or `custom`.
  `toClientJson` projects the registry into the summary sent to the web
  client.
- **The module index** (`InstanceModules` and `NewModuleInfo`). It covers:
  - how the builtin, legacy and development copies are loaded;
  - the legacy-id redirects;
  - the choice of each module's default copy;
  - the one-hop redirect lookup;
  - the client JSON;
  - the help lookups, including the help-asset path sanitiser and the
    extension allow-list.
- **The custom-module installer** (`InstalledModulesManager`). This is the
  walk over the entries of an uploaded archive that finds
  `companion/manifest.json`, and the chain of checks before a module
  directory is created.
- **The store catalogue cache** (`ModuleStoreService`). This is the version
  lookup, the re-entrancy guard on refresh, the first-run refresh, and the
  six-hour staleness rule on subscribe.
- **Web client logic**:
  - the version a connection uses;
  - the merged, newest-first table of a module's versions and the control
    shown on each row;
  - the module list: its kind filters, one row per module id, row order,
    hidden count, and the persisted filter settings.

Version precedence is that of section 11 of Semantic Versioning 2.0.0. Every
version string that is compared must be valid, because `semver.compare`
throws on anything else.

Files and modules:

- `util.dfy` (`Util`): option type, JavaScript truthiness, `startsWith`, `<` on strings, sorted keys.
- `records.dfy` (`Records`): JavaScript objects used as dictionaries, in insertion order.
- `sorting.dfy` (`Sorting`): the `Array.prototype.sort` calls, as a sort by a total preorder.
- `semver.dfy` (`SemVer`): version parsing and precedence.
- `shared.dfy` (`Model`): the value types that the server and the client share.
- `moduleinfo.dfy` (`ModuleInfo`): companion/lib/Instance/ModuleInfo.ts.
- `modules.dfy` (`Modules`): companion/lib/Instance/Modules.ts.
- `installer.dfy` (`Installer`): companion/lib/Instance/InstalledModulesManager.ts.
- `store.dfy` (`ModuleStore`): companion/lib/Instance/ModuleStore.ts.
- `connutil.dfy` (`ConnectionsUtil`): webui/src/Connections/Util.tsx.
- `versionstable.dfy` (`VersionsTable`): webui/src/Modules/ModuleVersionsTable.tsx.
- `moduleslist.dfy` (`ModulesList`): webui/src/Modules2/ModulesList.tsx.

## Model

| member | source | states |
|---|---|---|
| ModuleInfo.GetVersion | companion/lib/Instance/ModuleInfo.ts:33-68 | The loop over the releases computes exactly the resolution `Resolve`: the development build under `stable`/`prerelease` when present, else the scan's `latest`; exact lookups for `specific-version` and `custom`; null for other modes |
| ModuleInfo.LatestOfType | companion/lib/Instance/ModuleInfo.ts:38-46 | The scan's result is one of the releases and has the requested release type |
| ModuleInfo.LatestNoneIff | companion/lib/Instance/ModuleInfo.ts:38-46 | The scan yields null exactly when no release has the requested type |
| ModuleInfo.LatestIsMaximum | companion/lib/Instance/ModuleInfo.ts:41 | No release of the requested type has a greater precedence than the scan's result |
| ModuleInfo.LatestIsFirstMaximum | companion/lib/Instance/ModuleInfo.ts:41 | Ties keep the earlier release: every earlier release of that type is strictly lower than the result |
| ModuleInfo.ResolveLatest | companion/lib/Instance/ModuleInfo.ts:35-60 | Under `stable`/`prerelease` the development build wins whatever releases exist. Otherwise the result is null exactly when no release of the mode's type exists, and else is the first release of that type of maximal precedence |
| ModuleInfo.ResolveExact | companion/lib/Instance/ModuleInfo.ts:61-66 | `specific-version` finds a release exactly when the id is truthy and a key, and returns that entry; it ignores the development build and custom builds. `custom` does the same over custom builds only. Any other mode gives null |
| ModuleInfo.ToClientJsonNullIff | companion/lib/Instance/ModuleInfo.ts:70-79 | The summary is null exactly when there is no development build, no release and no custom build |
| ModuleInfo.ToClientJsonContents | companion/lib/Instance/ModuleInfo.ts:80-185 | `hasDevVersion` says whether a development build exists. There is one entry per release and per custom build, labelled `v{id}` and `Custom XXX v{id}` and selecting that exact version. A development build fills both latest slots as version `dev`, not builtin, and heads the summary. Otherwise the slots name the resolved releases. Without a development build, `baseInfo` is the display of the latest stable release, else of the latest prerelease, else of the first release, else of the first custom build |
| ModuleInfo.BaseInfoWithoutDev | companion/lib/Instance/ModuleInfo.ts:71-83 | Without a development build, a module with releases is headed by its latest stable release, else its latest prerelease, one of which always exists, so the first-release fallback is never reached. A module without releases is headed by its first custom build |
| ConnectionsUtil.FindByVersionId | webui/src/Connections/Util.tsx:16 | Returns the first entry whose `version.id` equals the id, and nothing exactly when no entry has it |
| ConnectionsUtil.GetModuleVersionInfoForConnection | webui/src/Connections/Util.tsx:4-24 | A missing summary or an unknown mode gives nothing. `stable` and `prerelease` return the summary's slots. `specific-version` searches only the releases and `custom` only the custom builds, for an entry with that exact id |
| ConnectionsUtil.ClientMirrorsServer | webui/src/Connections/Util.tsx:8-23 | On the summary the server builds, the client picks the translation of exactly the version that the server's `getVersion` resolves, in every mode, given that the server keys every version by its own non-empty id (for ids that are not names inherited from `Object.prototype`, see Left out) |
| ConnectionsUtil.MirrorsLatest | webui/src/Connections/Util.tsx:9-13 | The latest-stable and latest-prerelease slots are the translations of the server's resolution |
| ConnectionsUtil.MirrorsSpecificVersion | webui/src/Connections/Util.tsx:15-16 | A `specific-version` lookup on the summary finds the translation of the release that the server finds, and nothing when the server finds nothing |
| ConnectionsUtil.MirrorsCustom | webui/src/Connections/Util.tsx:18-19 | The same for `custom` lookups |
| Modules.GetSelectedVersion | companion/lib/Instance/Modules.ts:79-94 | No `useVersion` gives null; `builtin` gives the builtin slot. `dev`/`user` with a missing or empty id give null, and otherwise the entry with that key, found exactly when the key exists. A result is always one of the module's copies |
| Modules.FirstWithId | companion/lib/Instance/Modules.ts:96-104 | Returns the first copy with that version id, and nothing exactly when none has it |
| Modules.FindVersion | companion/lib/Instance/Modules.ts:96-104 | The linear search returns, for a null id, the selected copy. Otherwise it returns the first copy in `allVersions` order (dev, user, builtin) with that id, found exactly when some copy has it |
| Modules.MarkAllLegacy | companion/lib/Instance/Modules.ts:183-184 | Every legacy candidate, and only that, is marked `isLegacy` |
| Modules.LastFor | companion/lib/Instance/Modules.ts:192-195 | The candidate that last writes a module's slot is the last one with that manifest id, and there is none exactly when no candidate has the id |
| Modules.LoadBuiltinsResult | companion/lib/Instance/Modules.ts:183-196 | After a loading pass a module exists exactly when it existed before or a candidate has its id. Its builtin slot is the last such candidate, and nothing else in the entry changes |
| Modules.LoadDevsResult | companion/lib/Instance/Modules.ts:198-207 | After the extra-path pass, `devVersions['dev']` holds the last candidate with the module's id, with version id `dev`; the other fields are kept |
| Modules.LastForMarked | companion/lib/Instance/Modules.ts:183-187 | The legacy candidate that wins a slot is the marked copy of the last legacy candidate with that id |
| Modules.BuiltinPriority | companion/lib/Instance/Modules.ts:183-196 | A bundled candidate overwrites a legacy one with the same id. A legacy copy survives only when no bundled candidate has the id, and it is then marked legacy |
| Modules.DeclaresMeans | companion/lib/Instance/Modules.ts:216-218 | A copy list declares a legacy id exactly when one of its manifests lists it |
| Modules.PairsTo | companion/lib/Instance/Modules.ts:218-221 | One redirect per listed legacy id, in order, each pointing at the declaring module |
| Modules.TargetsOfAppend | companion/lib/Instance/Modules.ts:219-220 | The targets recorded for a legacy id by two successive runs of pushes are the first run's followed by the second's |
| Modules.ApplyRedirectsResult | companion/lib/Instance/Modules.ts:219-220 | After the pushes, a legacy id has an entry exactly when it had one or some redirect targets it. Its `replacedByIds` is the old list followed by the targets in push order; the rest of the entry is unchanged, or new and empty |
| Modules.ApplyRedirectsAppend | companion/lib/Instance/Modules.ts:214-225 | Pushing two runs of redirects equals pushing the first, then the second |
| Modules.PairsTargets | companion/lib/Instance/Modules.ts:218-221 | The redirects from one version target only its module, and target a legacy id exactly when the manifest lists it |
| Modules.VersionTargets | companion/lib/Instance/Modules.ts:216-222 | The redirects from one module's copies target only it, and target a legacy id exactly when some copy declares it |
| Modules.RedirectTargets | companion/lib/Instance/Modules.ts:214-225 | A module id is among a legacy id's targets exactly when it is one of the visited ids and one of its copies declares the legacy id |
| Modules.HeadTarget | companion/lib/Instance/Modules.ts:214-225 | The first target, if any, is a visited id that declares the legacy id |
| Modules.FirstTarget | companion/lib/Instance/Modules.ts:214-225 | The first target is the first visited id that declares the legacy id |
| Modules.ChooseDefaults | companion/lib/Instance/Modules.ts:250-277 | The default choice adds and removes no module |
| Modules.SelectDefaultChoice | companion/lib/Instance/Modules.ts:250-277 | The choice changes only `useVersion` and leaves a replaced module untouched. Otherwise it selects the first dev version, else the first user version, else the builtin copy |
| Modules.LoadAllFresh | companion/lib/Instance/Modules.ts:163-210 | After loading, every entry is keyed by its own id and has no redirects, no user versions, no selection, and at most the single `dev` version |
| Modules.SettleSelection | companion/lib/Instance/Modules.ts:212-277 | After initialisation every loaded copy is kept. A replaced module selects nothing; any other module selects its `dev` version when it has one, and its builtin copy otherwise |
| Modules.SettleRedirects | companion/lib/Instance/Modules.ts:212-277 | After initialisation a legacy id has an entry exactly when it was loaded or some module declares it. Its `replacedByIds` lists the declaring modules in ascending id order, once per listing of the legacy id in one of their copies' manifests |
| Modules.TargetsAscending | companion/lib/Instance/Modules.ts:214-221 | Visiting the module ids in ascending order pushes the replacements of any legacy id in ascending order, repeats side by side |
| Modules.SettleNoRedirect | companion/lib/Instance/Modules.ts:212-225 | A module that no other module declares as legacy keeps an empty `replacedByIds` |
| Modules.SettleLeastRedirect | companion/lib/Instance/Modules.ts:214-225 | The first replacement recorded for a legacy id is the least module id that declares it |
| Modules.ModuleJsonListsSelected | companion/lib/Instance/Modules.ts:401-414 | A module has client JSON exactly when it has a selected version, whose display information heads it. `allVersions` has one summary per copy, each with its own use type: the builtin copy first, then each user version, then each dev version, in record order. The selected version's summary is among them |
| Modules.ListedVersionsOrder | companion/lib/Instance/Modules.ts:405-409 | The `allVersions` list is the builtin summary, if any, followed by the user summaries and then the dev summaries, each in its record's order |
| Modules.DropLeadingDots | companion/lib/Instance/Modules.ts:469 | Removing a leading run of dots leaves no leading dot and never lengthens the string |
| Modules.StripDotRuns | companion/lib/Instance/Modules.ts:469-472 | After `replace(/\.\.+/g, '')` no `..` remains. The string never grows, a first non-dot character is kept, and a string without `..` is unchanged, so the replacement is idempotent |
| Modules.HelpUrlRoundTrip | companion/lib/Instance/Modules.ts:429-474 | The version segment of a help URL (`current` for the default) reads back as the same version, except that a version whose id is `current` reads back as the default version |
| Modules.InstanceModules.GetOrCreateModuleEntry | companion/lib/Instance/Modules.ts:150-157 | Returns the existing entry for a known id. For an unknown id it inserts exactly one new empty entry, and the map changes at no other key |
| Modules.InstanceModules.InitInstances | companion/lib/Instance/Modules.ts:163-277 | The post-scan steps, in order, yield the index that `InitSpec` describes: legacy and bundled builtins, then extra-path dev versions, then redirects over ids in ascending order, then default choices |
| Modules.InstanceModules.LoadBuiltinDir | companion/lib/Instance/Modules.ts:190-196 | The loop assigns each candidate to its module's builtin slot, as `LoadBuiltins` describes |
| Modules.InstanceModules.LoadDevDir | companion/lib/Instance/Modules.ts:198-207 | The loop stores each candidate as its module's `dev` version, as `LoadDevs` describes |
| Modules.InstanceModules.BuildRedirects | companion/lib/Instance/Modules.ts:214-225 | The nested loops push exactly the redirects `Redirects` lists |
| Modules.InstanceModules.RecordVersionRedirects | companion/lib/Instance/Modules.ts:216-222 | The pushes for one module's copies |
| Modules.InstanceModules.RecordRedirects | companion/lib/Instance/Modules.ts:218-221 | The pushes for one manifest's legacy ids |
| Modules.InstanceModules.ChooseVersions | companion/lib/Instance/Modules.ts:250-277 | The loop applies the default choice to each visited module |
| Modules.InstanceModules.VerifyInstanceTypeIsCurrent | companion/lib/Instance/Modules.ts:357-364 | An unknown or unreplaced id is returned as is. Otherwise the first replacement is returned: one hop, not followed further |
| Modules.InstanceModules.GetModulesJson | companion/lib/Instance/Modules.ts:386-417 | The result has a key for exactly the modules with a selected version, each mapped to that module's client JSON |
| Modules.InstanceModules.GetModuleManifest | companion/lib/Instance/Modules.ts:422-424 | An unknown module gives nothing; a known module gives its selected version, as `getSelectedVersion` defines it |
| Modules.InstanceModules.GetHelpForModule | companion/lib/Instance/Modules.ts:429-459 | Help is found exactly when the module is known, the looked-up copy has a help path, and that file can be read. The base URL names the module and the version (`current` for the default). Every failure answers `nofile` |
| Modules.InstanceModules.GetHelpAsset | companion/lib/Instance/Modules.ts:464-486 | A file is sent exactly when all of these hold: the dot-stripped module id and the version (`current` for the default) find a copy with a help path and a base path; the dot-stripped file name has an allowed extension; the file under `companion/` exists. The file part of the path sent holds no `..` |
| Installer.RootDirIsFirstDirectory | companion/lib/Instance/InstalledModulesManager.ts:132-138 | The root directory is set exactly when some entry is a directory, and it is then the name of the first one |
| Installer.SeenNameStripsRoot | companion/lib/Instance/InstalledModulesManager.ts:140 | Entries before the first directory are matched unstripped. After it, the root prefix is stripped exactly when the name starts with it |
| Installer.ManifestNoneIff | companion/lib/Instance/InstalledModulesManager.ts:142-171 | The walk finds no manifest exactly when no entry's stripped name is `companion/manifest.json` |
| Installer.ManifestIsFirstMatch | companion/lib/Instance/InstalledModulesManager.ts:142-152 | The manifest is the concatenated data of the first entry whose stripped name matches |
| Installer.ExtractManifestFromTar | companion/lib/Instance/InstalledModulesManager.ts:125-181 | The entry loop, with its mutable `rootDir` and data buffers, returns what `ManifestFrom` describes |
| Installer.DecideChain | companion/lib/Instance/InstalledModulesManager.ts:84-120 | The checks run in order and the first failure wins. Non-bytes input gets the type error. A missing or empty manifest gets the missing-manifest error. An existing `{id}-{version}` directory gets `Module {id} v{version} already exists`. Otherwise the handler proceeds into that directory, which lies under `custom-modules` when the manifest id and version hold no `/` |
| Installer.ModuleDirsApart | companion/lib/Instance/InstalledModulesManager.ts:65-66 | Store and custom modules live in distinct directories. For a manifest whose id and version hold no `/`, the module directory does not lie inside the store directory |
| Installer.JoinSegments | companion/lib/Instance/InstalledModulesManager.ts:104 | Joining never lengthens the path beyond its segments, and relative segments none of which is `.`, `..` or empty are appended unchanged |
| Installer.ModuleDirJoinsPlainly | companion/lib/Instance/InstalledModulesManager.ts:104 | The `{id}-{version}` segment is never `.`, `..` or empty, so without a `/` in it `path.join` appends it unchanged |
| Installer.ManifestIdEscapes | companion/lib/Instance/InstalledModulesManager.ts:104 | `path.join` resolves `..`: a manifest id of `../store-modules/x` with version `1.0.0` places the module directory inside `store-modules` |
| Installer.InstalledModulesManager.constructor | companion/lib/Instance/InstalledModulesManager.ts:60-69 | The two directories are `store-modules` and `custom-modules` under the configuration directory |
| Installer.InstalledModulesManager.Init | companion/lib/Instance/InstalledModulesManager.ts:74-77 | Both directories exist afterwards |
| Installer.InstalledModulesManager.InstallCustomModule | companion/lib/Instance/InstalledModulesManager.ts:84-121 | A refusal returns its message and changes nothing. Otherwise the directory is created, unless that fails; `installed(moduleDir, manifest)` is emitted even when creating the directory failed; and null is returned |
| ModuleStore.FindStoreVersion | companion/lib/Instance/ModuleStore.ts:77 | Returns the first version with that id, and nothing exactly when none has it |
| ModuleStore.ModuleStoreService.constructor | companion/lib/Instance/ModuleStore.ts:34-47 | The list is the cached one, or empty with `lastUpdated` 0. A refresh is scheduled exactly when `lastUpdated` is 0 |
| ModuleStore.ModuleStoreService.GetCachedModuleVersionInfo | companion/lib/Instance/ModuleStore.ts:73-78 | An unknown module gives null. Otherwise the result is the first of its versions with that id, or null |
| ModuleStore.ModuleStoreService.BeginRefresh | companion/lib/Instance/ModuleStore.ts:81-83 | While a refresh runs, another start returns at once and changes nothing. Otherwise the refresh is marked running |
| ModuleStore.ModuleStoreService.FinishRefresh | companion/lib/Instance/ModuleStore.ts:96-110 | On success the list is stamped with the current time, stored under `module_store_list` and broadcast. A swallowed failure changes nothing. Either way no refresh is running afterwards |
| ModuleStore.ModuleStoreService.Subscribe | companion/lib/Instance/ModuleStore.ts:57-66 | A refresh starts exactly when `lastUpdated < now - 21600000` and none is running; the answer is the list as it stands |
| ModuleStore.RefreshStoreData | companion/lib/Instance/ModuleStore.ts:81-111 | A refresh begun while none runs ends with none running, and on success holds the new list. One begun while another runs changes nothing |
| VersionsTable.CollectInstalledIds | webui/src/Modules/ModuleVersionsTable.tsx:32-39 | The installed loop collects each truthy release id exactly once, skips the rest, and keeps the ids and the map's keys equal |
| VersionsTable.CollectInstalledLast | webui/src/Modules/ModuleVersionsTable.tsx:35-38 | Each collected id maps to the last installed release with that id |
| VersionsTable.CollectStoreIds | webui/src/Modules/ModuleVersionsTable.tsx:40-44 | The store loop adds each store version id once, keeping ids already present |
| VersionsTable.CollectStoreMap | webui/src/Modules/ModuleVersionsTable.tsx:40-44 | The store map holds exactly the store version ids, each mapped to the last version with that id |
| VersionsTable.NotOlderIsPreorder | webui/src/Modules/ModuleVersionsTable.tsx:46 | The comparator `semver.compare(b, a)` orders valid versions totally and transitively |
| VersionsTable.CollectAllProps | webui/src/Modules/ModuleVersionsTable.tsx:32-44 | The id set is exactly the union of truthy installed release ids and store ids, without repeats, and both maps hold the last entry per id |
| VersionsTable.VersionOrderCorrect | webui/src/Modules/ModuleVersionsTable.tsx:46 | Whenever the sort does not throw (fewer than two ids, or all valid), the sorted ids are the collected ids, once each, in descending semver order, and with two or more ids each is valid |
| VersionsTable.TableIdsCorrect | webui/src/Modules/ModuleVersionsTable.tsx:32-97 | Whenever the sort does not throw, the table lists each installed or store version id exactly once, newest first |
| VersionsTable.TableRowCorrect | webui/src/Modules/ModuleVersionsTable.tsx:97-106 | Each row carries installed info exactly when that id is installed, and store info exactly when the store lists it, always at least one of the two. It is flagged latest-stable or latest-prerelease exactly when that slot exists and has the row's id |
| VersionsTable.ModuleVersionsTable | webui/src/Modules/ModuleVersionsTable.tsx:28-107 | For every input the source renders (fewer than two ids, or all valid versions), the two loops, the sort and the row mapping produce the rows `TableRows` describes |
| VersionsTable.RowControl | webui/src/Modules/ModuleVersionsTable.tsx:138-249 | A row with no info renders nothing. An installed version shows a lock if builtin, else a remove button. Otherwise the install control is "no longer available" without a truthy `tarUrl`, checked before API compatibility, then "not compatible", then the install button |
| VersionsTable.ListedRowsRender | webui/src/Modules/ModuleVersionsTable.tsx:97-152 | Every listed row renders a control. Remove is offered only for an installed non-builtin version; install only for a version not installed, listed by the store with a `tarUrl`, and compatible |
| ModulesList.Toggle | webui/src/Modules2/ModulesList.tsx:50-55 | A toggle flips exactly one kind and leaves the other three unchanged |
| ModulesList.ToggleTwice | webui/src/Modules2/ModulesList.tsx:50-55 | Toggling a kind twice restores the settings |
| ModulesList.LoadVisibility | webui/src/Modules2/ModulesList.tsx:209-228 | Stored settings are used as they are. Stored `null` becomes `{}`, which hides every kind. With nothing readable stored, all four kinds are shown and that default is saved |
| ModulesList.ReleaseKinds | webui/src/Modules2/ModulesList.tsx:74-81 | The reduce reports whether some release is builtin and whether some release is not |
| ModulesList.IsVisibleMeans | webui/src/Modules2/ModulesList.tsx:70-85 | A module is visible exactly when dev is on and it has a dev version, or custom is on and it has custom versions, or builtin is on and some release is builtin, or store is on and some release is not builtin |
| ModulesList.CandidatesKeys | webui/src/Modules2/ModulesList.tsx:68-97 | `candidatesObj` has one key per visible module id and no other |
| ModulesList.CandidatesLast | webui/src/Modules2/ModulesList.tsx:87-96 | Each key holds the last visible search result with that id |
| ModulesList.LowerIdFirstIsPreorder | webui/src/Modules2/ModulesList.tsx:101-107 | The comparator on lower-cased ids is a total preorder |
| ModulesList.ReorderedRecord | webui/src/Modules2/ModulesList.tsx:100 | Reordering the entries of an object keeps keys distinct and every entry an entry of the object |
| ModulesList.RowsOrder | webui/src/Modules2/ModulesList.tsx:99-111 | Without a filter the rows are the candidates sorted by lower-cased id; with a filter they are the candidates in insertion order |
| ModulesList.ListRowsCorrect | webui/src/Modules2/ModulesList.tsx:68-111 | One row per visible module id, each showing the last visible result with that id. Without a filter the rows are ascending by lower-cased id; with one they keep first-seen order |
| ModulesList.HiddenCountNonNegative | webui/src/Modules2/ModulesList.tsx:125 | When every search result is an installed module, there are never more rows than modules, so the hidden count is not negative |
| ModulesList.ModulesList | webui/src/Modules2/ModulesList.tsx:64-125 | The candidate loop and the optional sort produce the rows `ListRows` describes, and the hidden count is the module count minus the row count |
| SemVer.CompareVersionsProps | companion/lib/Instance/ModuleInfo.ts:41 | Precedence comparison is antisymmetric, total and transitive, and ties exactly the versions that differ only in build metadata |
| Util.SortedKeys | companion/lib/Instance/Modules.ts:214 | The module ids in strictly ascending order, each exactly once |
| Sorting.SortCorrect | webui/src/Modules/ModuleVersionsTable.tsx:46 | Sorting gives a permutation of its input, ordered by the comparator |

## Left out

- Gzip decompression, tar decoding and extraction, and `JSON.parse` of the manifest are foreign libraries. The archive is an already-decoded sequence of entries, and manifest parsing is a function parameter. Their failure paths are therefore not modelled: an invalid gzip stream, "Failed to uncompress data", a tar stream error, and an exception from `JSON.parse`.
- The filesystem is represented only by sets of existing paths and a map of readable help files. This covers `existsSync`, `mkdirp`, `rmdir`, `stat`, `readFile` and `sendFile`. `path.join` is plain concatenation with `/` in the directory paths of the installer and the help routes. `JoinSegments` models its resolution of `..` only to show where a module directory lands.
- Installer.ModuleDirsApart: holds only for manifests whose id and version contain no `/`. The handler never validates the manifest id, so an uploaded archive can be placed outside `custom-modules`: `ManifestIdEscapes` shows one inside `store-modules`, and an id such as `../../../tmp/x` leaves the configuration directory altogether.
- Installer.DecideChain: that the chosen directory lies under `custom-modules` is stated only for a manifest id and version without `/`, for the same reason.
- Installer.InstalledModulesManager.InstallCustomModule: the extraction into the new directory and its clean-up on failure are not modelled. Only the directory's creation, or a failure to create it, is recorded.
- Sockets, rooms, event emitters, express routing, logging, progress messages, timers (`setTimeout`, `setImmediate`) and the clock are wiring. The clock is a parameter `now`. An emitted event is recorded as a value (`installedEvents`, `broadcasts`).
- ModuleStore.ModuleStoreService.FinishRefresh: the catalogue is a parameter in place of the hard-coded placeholder table. Any throwing step is folded into a single failed outcome.
- Directory scanning (`InstanceModuleScanner`) is not part of this model. Its results are the candidate lists that `InitInstances` takes. Only the bundled directory is searched.
- `reloadExtraModule` and the commented-out `chooseBestVersion` are dead code and are not modelled.
- Modules.InstanceModules.InitInstances: the log loop that follows the choice, and `#lastModulesJson`, are not modelled. The latter is never assigned, so subscribing always answers `getModulesJson()`.
- Each module's entry is a value in a map owned by `InstanceModules`, not a shared object. Updates in place and aliasing of `NewModuleInfo` objects are therefore not captured.
- Modules.InstanceModules.GetModulesJson: the result is a map. The key order of the returned object is not modelled.
- Records.Get: keys inherited from `Object.prototype` (`toString`, `constructor`, `__proto__`, `hasOwnProperty`, ...) are not modelled. For such a version id, `releaseVersions[id]` and `customVersions[id]` in `ModuleInfo.getVersion` yield the inherited member rather than `undefined`, and `getCachedModuleVersionInfo` throws when it calls `versions.find` on it; the model answers None in both places, so `ClientMirrorsServer` is claimed only for other ids.
- Util.SortedKeys: `localeCompare` is modelled as `<` on strings.
- ModulesList.LowerIdFirst: `toLocaleLowerCase` is modelled as ASCII lower-casing.
- npm `semver` leniency (a leading `v`, whitespace, loose mode) is not modelled. Only strict Semantic Versioning 2.0.0 strings are valid. Its limits are not modelled either: npm rejects numeric parts above `Number.MAX_SAFE_INTEGER` and strings longer than 256 characters, which the model's unbounded parser accepts.
- Objects used as dictionaries enumerate keys in insertion order. JavaScript's ordering of integer-like keys first is not modelled, and neither are `undefined` values inside records (the `compact` calls).
- Sorting.SortCorrect: stability of the sort is not proved. The model's sort is stable, and so is `Array.prototype.sort`.
- ModulesList.ModulesList: the `try`/`catch` around the list build is not modelled, and neither is the fuzzy search behind `useFilteredProducts`. The search results are an input. The error branch only renders an alert.
- ModulesList.LoadVisibility: a stored object missing some keys is not modelled. Stored settings are either a complete object or `null`.
- VersionsTable.RowControl: `isModuleApiVersionCompatible` is not part of this model and is a function parameter. The busy spinners of the buttons, the release date and the deprecation icon are rendering only.
- The store version shape read by the version table (`ModuleStoreModuleInfoVersion`) is not part of this model. Its fields are taken from the reads in the table.
- `companion/lib/Instance/UserModulesManager.ts` and the purely presentational React files are not modelled.
