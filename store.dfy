/** The server's cache of the module store catalogue
    (`ModuleStoreService` in companion/lib/Instance/ModuleStore.ts). The
    clock and the catalogue fetch are parameters; the fake delays and
    progress messages are not modelled. */
module ModuleStore {
  import opened Util
  import opened Records

  /** ModuleStoreCacheVersionEntry */
  datatype StoreVersion = StoreVersion(id: string, isPrerelease: bool, releasedAt: int, tarUrl: string)

  /** ModuleStoreListCacheEntry, with the list of versions the lookups read. */
  datatype StoreModule = StoreModule(
    id: string,
    name: string,
    manufacturer: string,
    products: seq<string>,
    keywords: seq<string>,
    storeUrl: string,
    githubUrl: Option<string>,
    versions: seq<StoreVersion>)

  /** ModuleStoreListCacheStore: when the list was fetched (ms since the
      epoch, 0 for never) and the modules by id. */
  datatype ListStore = ListStore(lastUpdated: int, modules: Record<StoreModule>)

  const CacheStoreListKey := "module_store_list"

  /** Six hours, in milliseconds. */
  const SubscribeRefreshInterval := 1000 * 60 * 60 * 6

  /** `versions.find((v) => v.id === versionId) ?? null` */
  function FindStoreVersion(vs: seq<StoreVersion>, versionId: string): (r: Option<StoreVersion>)
    ensures r.None? <==> forall i | 0 <= i < |vs| :: vs[i].id != versionId
    ensures r.Some? ==> exists i | 0 <= i < |vs| ::
      && vs[i] == r.value
      && r.value.id == versionId
      && forall j | 0 <= j < i :: vs[j].id != versionId
  {
    if |vs| == 0 then None
    else if vs[0].id == versionId then Some(vs[0])
    else
      var r := FindStoreVersion(vs[1..], versionId);
      assert r.Some? ==> exists i | 1 <= i < |vs| ::
        && vs[i] == r.value
        && forall j | 0 <= j < i :: vs[j].id != versionId;
      r
  }

  /** The cached list is stale when it is more than six hours older than
      `now`. */
  predicate IsStale(lastUpdated: int, now: int) {
    lastUpdated < now - SubscribeRefreshInterval
  }

  /** ModuleStoreService. `cache` is the part of the data cache this service
      writes; `broadcasts` are the lists sent to the store room. */
  class ModuleStoreService {
    var listStore: ListStore
    var isRefreshingStoreData: bool
    var refreshScheduled: bool
    var cache: map<string, ListStore>
    var broadcasts: seq<ListStore>

    /** The constructor reads the cached list (an empty list updated at 0
        when none is cached) and schedules a refresh exactly when the list
        has never been fetched. */
    constructor(cached: map<string, ListStore>)
      ensures listStore == (if CacheStoreListKey in cached then cached[CacheStoreListKey] else ListStore(0, []))
      ensures refreshScheduled <==> listStore.lastUpdated == 0
      ensures !isRefreshingStoreData
      ensures cache == cached && broadcasts == []
    {
      var list := if CacheStoreListKey in cached then cached[CacheStoreListKey] else ListStore(0, []);
      listStore := list;
      isRefreshingStoreData := false;
      cache := cached;
      broadcasts := [];
      refreshScheduled := list.lastUpdated == 0;
    }

    /** `getCachedModuleVersionInfo(moduleId, versionId)`: null for an unknown
        module, otherwise the first of its versions with that id, or null. */
    function GetCachedModuleVersionInfo(moduleId: string, versionId: string): (r: Option<StoreVersion>)
      reads this
      ensures Get(listStore.modules, moduleId).None? ==> r.None?
      ensures Get(listStore.modules, moduleId).Some? ==>
        r == FindStoreVersion(Get(listStore.modules, moduleId).value.versions, versionId)
      ensures r.Some? ==> r.value.id == versionId
    {
      var entry := Get(listStore.modules, moduleId);
      if entry.None? then None else FindStoreVersion(entry.value.versions, versionId)
    }

    /** The synchronous start of `refreshStoreData`: it does nothing while a
        refresh is running, and otherwise marks one as running. */
    method BeginRefresh() returns (started: bool)
      modifies this
      ensures started <==> !old(isRefreshingStoreData)
      ensures isRefreshingStoreData
      ensures listStore == old(listStore) && cache == old(cache) && broadcasts == old(broadcasts)
      ensures refreshScheduled == old(refreshScheduled)
    {
      if isRefreshingStoreData {
        return false;
      }
      isRefreshingStoreData := true;
      return true;
    }

    /** The end of a running `refreshStoreData`. `fetched` is the catalogue
        obtained, or None when a step threw; the error is swallowed. On
        success the list is stamped with `now`, stored under
        `module_store_list` and sent to the store room. Either way the
        refresh is no longer running. */
    method FinishRefresh(now: int, fetched: Option<Record<StoreModule>>)
      requires isRefreshingStoreData
      modifies this
      ensures !isRefreshingStoreData
      ensures fetched.Some? ==>
        && listStore == ListStore(now, fetched.value)
        && cache == old(cache)[CacheStoreListKey := listStore]
        && broadcasts == old(broadcasts) + [listStore]
      ensures fetched.None? ==>
        listStore == old(listStore) && cache == old(cache) && broadcasts == old(broadcasts)
      ensures refreshScheduled == old(refreshScheduled)
    {
      if fetched.Some? {
        listStore := ListStore(now, fetched.value);
        cache := cache[CacheStoreListKey := listStore];
        broadcasts := broadcasts + [listStore];
      }
      isRefreshingStoreData := false;
    }

    /** `modules-store:subscribe` at time `now`: starts a refresh exactly when
        the list is stale and none is running, and answers with the list as
        it is. */
    method Subscribe(now: int) returns (list: ListStore, refreshStarted: bool)
      modifies this
      ensures list == old(listStore) && listStore == old(listStore)
      ensures refreshStarted <==> IsStale(old(listStore).lastUpdated, now) && !old(isRefreshingStoreData)
      ensures isRefreshingStoreData <==> old(isRefreshingStoreData) || IsStale(old(listStore).lastUpdated, now)
      ensures cache == old(cache) && broadcasts == old(broadcasts)
    {
      refreshStarted := false;
      if listStore.lastUpdated < now - SubscribeRefreshInterval {
        refreshStarted := BeginRefresh();
      }
      list := listStore;
    }
  }

  /** A refresh that runs to the end, successful or not, leaves no refresh
      running; one begun while another runs changes nothing. */
  method RefreshStoreData(s: ModuleStoreService, now: int, fetched: Option<Record<StoreModule>>)
    modifies s
    ensures !old(s.isRefreshingStoreData) ==> !s.isRefreshingStoreData
    ensures old(s.isRefreshingStoreData) ==>
      && s.isRefreshingStoreData
      && s.listStore == old(s.listStore) && s.cache == old(s.cache) && s.broadcasts == old(s.broadcasts)
    ensures !old(s.isRefreshingStoreData) && fetched.Some? ==> s.listStore == ListStore(now, fetched.value)
  {
    var started := s.BeginRefresh();
    if started {
      s.FinishRefresh(now, fetched);
    }
  }
}
