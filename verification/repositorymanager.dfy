/**
 * The registry of configured repositories (`MultipleSubversionRepositoryManagerImpl`): id
 * allocation under the cluster lock, the cached map of managers loaded from the stored
 * property sets, and the order in which creating, updating and removing a repository touch
 * the store, the cache, the cluster and the revision index.
 *
 * The lock, the cluster broadcast and the index calls are recorded as events of a trace; the
 * index calls' own effects belong to `RevisionIndexers`.
 */
module RepositoryManagers {
  import opened Wrappers
  import opened JavaLang
  import opened PropertySets
  import SvnProperties
  import SM = SubversionManagers

  const FIRST_REPO_ID: int := 1

  /** The steps an operation takes outside its own state, in order. */
  datatype Event =
    | Lock
    | PersistLastId(id: int)
    | Unlock
    | CacheReset
    | BroadcastAdd(id: int)
    | IndexAdd(id: int)
    | BroadcastRemove(id: int)
    | IndexRemove(id: int)
    | PropertiesRemoved(id: int)
    | ManagerUpdated(id: int)

  /** What lies outside the model: the server each repository talks to, and whether
      constructing a manager over a property set throws an IllegalArgumentException. */
  datatype Environment = Environment(servers: int -> SM.Server, rejects: (int, PropertySet) -> bool)

  /** The stored counter `last.repo.id` (0 when never written), the stored property set of each
      repository (an absent entry is an empty set), the cached manager map (`None` after a
      reset: the next read reloads it), and whether the revision indexer exists. */
  datatype Registry = Registry(
    lastRepoId: int,
    stored: map<int, PropertySet>,
    cache: Option<map<int, SM.Manager>>,
    indexing: bool)

  /** The plugin as constructed: nothing cached, no indexer yet. */
  function NewRegistry(lastRepoId: int, stored: map<int, PropertySet>): Registry {
    Registry(lastRepoId, stored, None, false)
  }

  /** The property set stored for an id. */
  function StoredAt(reg: Registry, id: int): PropertySet {
    if id in reg.stored then reg.stored[id] else map[]
  }

  // ---------------------------------------------------------------------------------------------
  // Loading the manager map.

  /** A manager exists for `id` when its property set has keys and construction succeeds. */
  predicate Loadable(env: Environment, stored: map<int, PropertySet>, id: int) {
    id in stored && stored[id] != map[] && !env.rejects(id, stored[id])
  }

  /** The loading loop from `i` up to `last`. */
  function LoadFrom(env: Environment, stored: map<int, PropertySet>, i: int, last: int): (r: map<int, SM.Manager>)
    ensures forall id :: id in r <==> i <= id <= last && Loadable(env, stored, id)
    ensures forall id :: id in r ==> id in stored && r[id] == SM.NewManager(id, stored[id], env.servers(id))
    decreases if i <= last then last - i + 1 else 0
  {
    if i > last then map[]
    else
      var rest := LoadFrom(env, stored, i + 1, last);
      if Loadable(env, stored, i) then rest[i := SM.NewManager(i, stored[i], env.servers(i))] else rest
  }

  /** `loadManagersFromJiraProperties`: a manager for every id from 1 to `last.repo.id` whose
      property set is non-empty and accepted, and for no other id. */
  function LoadManagers(env: Environment, reg: Registry): (r: map<int, SM.Manager>)
    ensures forall id :: id in r <==> FIRST_REPO_ID <= id <= reg.lastRepoId && Loadable(env, reg.stored, id)
    ensures forall id :: id in r ==> id in reg.stored && r[id].id == id && r[id].props == reg.stored[id]
  {
    LoadFrom(env, reg.stored, FIRST_REPO_ID, reg.lastRepoId)
  }

  /** The cached reference's `get`: the cached map, loading it first after a reset. */
  function Cached(env: Environment, reg: Registry): (r: (Registry, map<int, SM.Manager>))
    ensures r.0 == reg.(cache := Some(r.1))
    ensures reg.cache.Some? ==> r.1 == reg.cache.value
    ensures reg.cache.None? ==> r.1 == LoadManagers(env, reg)
  {
    if reg.cache.Some? then (reg, reg.cache.value) else (reg.(cache := Some(LoadManagers(env, reg))), LoadManagers(env, reg))
  }

  /** The cached map expires after this many minutes without a read (`expireAfterAccess`). */
  const CACHE_EXPIRY_MINUTES: int := 30

  /** The passing of `idle` minutes in which nothing read the cached map: once the expiry time
      has passed the map is dropped, as a reset drops it, and nothing else changes. */
  function Expire(reg: Registry, idle: int): (r: Registry)
    ensures idle >= CACHE_EXPIRY_MINUTES ==> r.cache.None?
    ensures idle < CACHE_EXPIRY_MINUTES ==> r == reg
    ensures r.(cache := reg.cache) == reg
  {
    if idle >= CACHE_EXPIRY_MINUTES then reg.(cache := None) else reg
  }

  /** After the expiry time a read sees the store again: the answer for any id is a fresh
      manager over its stored property set, whatever the expired map held, and the reloaded
      map is cached. */
  lemma ExpiredReadReloads(env: Environment, reg: Registry, idle: int, id: int)
    requires idle >= CACHE_EXPIRY_MINUTES
    ensures var r := GetRepository(env, Expire(reg, idle), id);
            && (r.1.Some? <==> FIRST_REPO_ID <= id <= reg.lastRepoId && Loadable(env, reg.stored, id))
            && (r.1.Some? ==> r.1.value == SM.NewManager(id, reg.stored[id], env.servers(id)))
            && r.0 == reg.(cache := Some(LoadManagers(env, reg)))
  {
    assert Expire(reg, idle).(cache := None) == reg.(cache := None);
  }

  /** Before the expiry time a read is answered from the cached map, even when the store has
      changed since the map was loaded. */
  lemma FreshReadUsesCache(env: Environment, reg: Registry, idle: int, id: int)
    requires idle < CACHE_EXPIRY_MINUTES && reg.cache.Some?
    ensures var r := GetRepository(env, Expire(reg, idle), id);
            && r.0 == reg
            && (r.1.Some? <==> id in reg.cache.value)
            && (r.1.Some? ==> r.1.value == reg.cache.value[id])
  {
  }

  /** `getRepository`: answered from the cached map alone; after a reset, from a fresh load of
      the store. */
  function GetRepository(env: Environment, reg: Registry, id: int): (r: (Registry, Option<SM.Manager>))
    ensures reg.cache.Some? ==> r.0 == reg
    ensures reg.cache.Some? ==> (r.1.Some? <==> id in reg.cache.value)
    ensures reg.cache.Some? && r.1.Some? ==> r.1.value == reg.cache.value[id]
    ensures reg.cache.None? ==> (r.1.Some? <==> FIRST_REPO_ID <= id <= reg.lastRepoId && Loadable(env, reg.stored, id))
    ensures reg.cache.None? && r.1.Some? ==> r.1.value == SM.NewManager(id, reg.stored[id], env.servers(id))
  {
    var (reg1, managers) := Cached(env, reg);
    (reg1, if id in managers then Some(managers[id]) else None)
  }

  /** `getRepositoryList`: the managers of the cached map. */
  function GetRepositoryList(env: Environment, reg: Registry): (r: (Registry, set<SM.Manager>))
    ensures reg.cache.Some? ==> r.0 == reg && r.1 == reg.cache.value.Values
    ensures reg.cache.None? ==> r.1 == LoadManagers(env, reg).Values
    ensures r.0.cache == Some(Cached(env, reg).1)
  {
    var (reg1, managers) := Cached(env, reg);
    (reg1, managers.Values)
  }

  /** Every cached manager sits under its own id, inside the allocated range, as loading
      leaves it. */
  predicate CacheConsistent(reg: Registry) {
    reg.cache.Some? ==>
      forall id :: id in reg.cache.value ==> reg.cache.value[id].id == id && FIRST_REPO_ID <= id <= reg.lastRepoId
  }

  // ---------------------------------------------------------------------------------------------
  // Lifecycle and indexing flag.

  /** `afterPropertiesSet`: the revision indexer and message service are created. */
  function AfterPropertiesSet(reg: Registry): (r: Registry)
    ensures r.indexing
    ensures r.(indexing := reg.indexing) == reg
  {
    reg.(indexing := true)
  }

  /** `isIndexingRevisions`: whether the revision indexer has been created. */
  predicate IsIndexingRevisions(reg: Registry) {
    reg.indexing
  }

  /** The plugin indexes revisions exactly once `afterPropertiesSet` has run. */
  lemma IndexingAfterPropertiesSet(lastRepoId: int, stored: map<int, PropertySet>, reg: Registry)
    ensures !IsIndexingRevisions(NewRegistry(lastRepoId, stored))
    ensures IsIndexingRevisions(AfterPropertiesSet(reg))
  {
  }

  /** How `onStart` ends: nothing to start, the indexer started, or its InfrastructureException
      logged. No outcome propagates an exception. */
  datatype StartOutcome = NotIndexing | Started | StartFailureLogged

  /** `onStart`: start the indexer when there is one; `startFails` says whether starting it
      throws an InfrastructureException. */
  function OnStart(reg: Registry, startFails: bool): (r: StartOutcome)
    ensures r.NotIndexing? <==> !IsIndexingRevisions(reg)
    ensures r.StartFailureLogged? <==> IsIndexingRevisions(reg) && startFails
  {
    if !IsIndexingRevisions(reg) then NotIndexing
    else if startFails then StartFailureLogged
    else Started
  }

  // ---------------------------------------------------------------------------------------------
  // Creating a repository.

  /** Why `createRepository` throws: a `null` revision-indexing flag or cache size
      (NullPointerException while filling the set), a rejected construction, or a failing
      local index add. */
  datatype CreateError = UnboxFailure | ConstructionRejected | IndexAddFailure

  datatype CreateResult = CreateResult(registry: Registry, trace: seq<Event>, manager: Result<SM.Manager, CreateError>)

  /** The id `createRepository` allocates: one past the stored counter, in 64-bit arithmetic. */
  function NewId(reg: Registry): int {
    Wrap64(reg.lastRepoId + 1)
  }

  /** Whether the new repository's manager gets built: the property set fills without a
      NullPointerException and construction accepts it. */
  predicate Made(env: Environment, reg: Registry, config: SvnProperties.SubversionProperties) {
    var f := SvnProperties.FillPropertySet(config, StoredAt(reg, NewId(reg)));
    f.Filled? && !env.rejects(NewId(reg), f.ps)
  }

  /** `createRepository`. `addFails` says whether the local `addRepository` throws. */
  function CreateRepository(env: Environment, reg: Registry, config: SvnProperties.SubversionProperties,
                            addFails: bool): (r: CreateResult)
    // the id is allocated and persisted under the lock before anything else
    ensures r.registry.lastRepoId == NewId(reg)
    ensures |r.trace| >= 3 && r.trace[..3] == [Lock, PersistLastId(NewId(reg)), Unlock]
    // the outcome
    ensures r.manager.Ok? <==> Made(env, reg, config) && !(IsIndexingRevisions(reg) && addFails)
    ensures r.manager.Ok? ==> r.manager.value.id == NewId(reg)
                              && r.manager.value.props == StoredAt(r.registry, NewId(reg))
    ensures r.registry.indexing == reg.indexing
  {
    var id := NewId(reg);
    var locked := [Lock, PersistLastId(id), Unlock];
    var numbered := reg.(lastRepoId := id);
    match SvnProperties.FillPropertySet(config, StoredAt(reg, id))
    case UnboxFailed(partial) =>
      CreateResult(numbered.(stored := reg.stored[id := partial]), locked, Err(UnboxFailure))
    case Filled(ps) =>
      var written := numbered.(stored := reg.stored[id := ps]);
      if env.rejects(id, ps) then CreateResult(written, locked, Err(ConstructionRejected))
      else
        var m := SM.NewManager(id, ps, env.servers(id));
        var reset := written.(cache := None);
        if !IsIndexingRevisions(reg) then CreateResult(reset, locked + [CacheReset], Ok(m))
        else
          CreateResult(reset, locked + [CacheReset, BroadcastAdd(id), IndexAdd(id)],
                       if addFails then Err(IndexAddFailure) else Ok(m))
  }

  /** After allocation: nothing more when the manager is not built; otherwise the cache reset,
      then, only when indexing, the broadcast and the local index add, in that order. */
  lemma CreateStepOrder(env: Environment, reg: Registry, config: SvnProperties.SubversionProperties, addFails: bool)
    ensures var r := CreateRepository(env, reg, config, addFails);
            && (!Made(env, reg, config) ==> |r.trace| == 3 && r.registry.cache == reg.cache)
            && (Made(env, reg, config) ==> r.registry.cache.None?)
            && (Made(env, reg, config) && !IsIndexingRevisions(reg) ==> r.trace[3..] == [CacheReset])
            && (Made(env, reg, config) && IsIndexingRevisions(reg) ==>
                  r.trace[3..] == [CacheReset, BroadcastAdd(NewId(reg)), IndexAdd(NewId(reg))])
  {
  }

  /** No other repository's stored properties change. */
  lemma CreateKeepsOthers(env: Environment, reg: Registry, config: SvnProperties.SubversionProperties, addFails: bool, k: int)
    requires k != NewId(reg)
    ensures StoredAt(CreateRepository(env, reg, config, addFails).registry, k) == StoredAt(reg, k)
  {
  }

  /** The manager is built exactly when both boxed fields are given and construction accepts
      the filled set. */
  lemma MadeWhenBoxedFieldsGiven(env: Environment, reg: Registry, config: SvnProperties.SubversionProperties)
    ensures Made(env, reg, config) <==>
              && config.revisionIndexing.Some? && config.revisionCacheSize.Some?
              && !env.rejects(NewId(reg), SvnProperties.FillPropertySet(config, StoredAt(reg, NewId(reg))).ps)
  {
  }

  /** Successive creations hand out consecutive ids, none of them already in use. */
  lemma CreateAllocatesFreshId(env: Environment, reg: Registry, config: SvnProperties.SubversionProperties, addFails: bool)
    requires 0 <= reg.lastRepoId < LONG_MAX
    ensures var r := CreateRepository(env, reg, config, addFails);
            && r.registry.lastRepoId == reg.lastRepoId + 1
            && reg.lastRepoId + 1 !in LoadManagers(env, reg)
  {
  }

  /** A repository created successfully is what the registry answers for its id afterwards. */
  lemma CreateThenGet(env: Environment, reg: Registry, config: SvnProperties.SubversionProperties, addFails: bool)
    requires 0 <= reg.lastRepoId < LONG_MAX
    requires CreateRepository(env, reg, config, addFails).manager.Ok?
    ensures var r := CreateRepository(env, reg, config, addFails);
            GetRepository(env, r.registry, r.manager.value.id).1 == Some(r.manager.value)
  {
    var id := NewId(reg);
    var r := CreateRepository(env, reg, config, addFails);
    var ps := SvnProperties.FillPropertySet(config, StoredAt(reg, id)).ps;
    SvnProperties.FillWritesAll(config, StoredAt(reg, id));
    assert Root in ps;
    assert r.registry.stored == reg.stored[id := ps] && r.registry.cache.None?;
    assert r.manager.value == SM.NewManager(id, ps, env.servers(id));
    assert FIRST_REPO_ID <= id <= r.registry.lastRepoId && Loadable(env, r.registry.stored, id);
  }

  // ---------------------------------------------------------------------------------------------
  // Updating a repository.

  /** Why `updateRepository` throws: no manager under the id (NullPointerException), or the
      manager's `update` failing to fill its property set. */
  datatype UpdateError = NoSuchRepository | UpdateFailure

  datatype UpdateResult = UpdateResult(registry: Registry, trace: seq<Event>, manager: Result<SM.Manager, UpdateError>)

  /** `updateRepository`: update the cached manager, whose property set is the stored one, then
      reset the cache. */
  function UpdateRepository(env: Environment, reg: Registry, id: int, config: SvnProperties.SubversionProperties): (r: UpdateResult)
    ensures r.manager == Err(NoSuchRepository) <==> id !in Cached(env, reg).1
    ensures r.manager.Ok? <==> id in Cached(env, reg).1 && config.revisionIndexing.Some? && config.revisionCacheSize.Some?
    ensures r.manager.Ok? ==> r.trace == [ManagerUpdated(id), CacheReset] && r.registry.cache.None?
    ensures r.manager.Err? ==> CacheReset !in r.trace && r.registry.cache.Some?
    ensures r.manager.Ok? ==> SM.DisplayName(r.manager.value) == SvnProperties.StoredDisplayName(config)
    ensures r.registry.lastRepoId == reg.lastRepoId && r.registry.indexing == reg.indexing
  {
    var (reg1, managers) := Cached(env, reg);
    if id !in managers then UpdateResult(reg1, [], Err(NoSuchRepository))
    else
      var m := managers[id];
      match SM.Update(m, config)
      case UpdateFailed(m1) =>
        UpdateResult(reg1.(stored := reg1.stored[m.id := m1.props], cache := Some(managers[id := m1])),
                     [ManagerUpdated(id)], Err(UpdateFailure))
      case Updated(m1) =>
        SM.UpdateDisplayName(m, config);
        UpdateResult(reg1.(stored := reg1.stored[m.id := m1.props], cache := None),
                     [ManagerUpdated(id), CacheReset], Ok(m1))
  }

  /** After a successful update, reading the repository back from the store gives the new
      display name. */
  lemma UpdateThenGet(env: Environment, reg: Registry, id: int, config: SvnProperties.SubversionProperties)
    requires CacheConsistent(reg)
    requires UpdateRepository(env, reg, id, config).manager.Ok?
    ensures var r := UpdateRepository(env, reg, id, config);
            var g := GetRepository(env, r.registry, id).1;
            && (g.Some? <==> !env.rejects(id, r.manager.value.props))
            && (g.Some? ==> SM.DisplayName(g.value) == SvnProperties.StoredDisplayName(config))
  {
    UpdateWritesStore(env, reg, id, config);
    var r := UpdateRepository(env, reg, id, config);
    var m1 := r.manager.value;
    assert r.registry.stored[id] == m1.props && r.registry.cache.None?;
    var g := GetRepository(env, r.registry, id).1;
    assert g.Some? <==> !env.rejects(id, m1.props);
    if g.Some? {
      SM.DisplayNameOfProps(g.value, m1);
    }
  }

  /** A successful update stores the manager's filled property set under the id, which lies in
      the allocated range, and resets the cache. */
  lemma UpdateWritesStore(env: Environment, reg: Registry, id: int, config: SvnProperties.SubversionProperties)
    requires CacheConsistent(reg)
    requires UpdateRepository(env, reg, id, config).manager.Ok?
    ensures var r := UpdateRepository(env, reg, id, config);
            && r.registry.stored == reg.stored[id := r.manager.value.props]
            && r.registry.cache.None? && r.registry.lastRepoId == reg.lastRepoId
            && FIRST_REPO_ID <= id <= reg.lastRepoId
            && r.manager.value.props != map[]
  {
    var managers := Cached(env, reg).1;
    var m := managers[id];
    assert m.id == id && FIRST_REPO_ID <= id <= reg.lastRepoId;
    var d := SM.Deactivate(m, None);
    SvnProperties.FillWritesAll(config, d.props);
    var ps := SvnProperties.FillPropertySet(config, d.props).ps;
    assert Root in ps;
  }

  // ---------------------------------------------------------------------------------------------
  // Removing a repository.

  datatype RemoveResult = RemoveResult(registry: Registry, trace: seq<Event>, succeeded: bool)

  /** `removeRepository`: broadcast the removal, remove the index entries of the cached
      manager's id, delete the stored properties and reset the cache; any exception on the way
      is rethrown as an InfrastructureException (`succeeded` false). Before
      `afterPropertiesSet` the message service does not exist and the first step throws.
      `removeFails` says whether the local `removeEntries` throws. */
  function RemoveRepository(env: Environment, reg: Registry, id: int, removeFails: bool): (r: RemoveResult)
    ensures !IsIndexingRevisions(reg) ==> r == RemoveResult(reg, [], false)
    ensures IsIndexingRevisions(reg) ==> |r.trace| >= 1 && r.trace[0] == BroadcastRemove(id)
    ensures r.succeeded <==> IsIndexingRevisions(reg) && id in Cached(env, reg).1 && !removeFails
    ensures r.succeeded ==> && r.trace == [BroadcastRemove(id), IndexRemove(Cached(env, reg).1[id].id), PropertiesRemoved(id), CacheReset]
                            && id !in r.registry.stored && r.registry.cache.None?
    ensures !r.succeeded ==> r.registry.stored == reg.stored && PropertiesRemoved(id) !in r.trace
    ensures forall k :: k != id ==> StoredAt(r.registry, k) == StoredAt(reg, k)
  {
    if !IsIndexingRevisions(reg) then RemoveResult(reg, [], false)
    else
      var (reg1, managers) := Cached(env, reg);
      if id !in managers then RemoveResult(reg1, [BroadcastRemove(id)], false)
      else if removeFails then RemoveResult(reg1, [BroadcastRemove(id), IndexRemove(managers[id].id)], false)
      else
        RemoveResult(reg1.(stored := reg1.stored - {id}, cache := None),
                     [BroadcastRemove(id), IndexRemove(managers[id].id), PropertiesRemoved(id), CacheReset], true)
  }

  /** After a successful removal the registry no longer answers for the id, and answers for
      every other id as a fresh load before the removal would. */
  lemma RemoveThenGet(env: Environment, reg: Registry, id: int, removeFails: bool, other: int)
    requires RemoveRepository(env, reg, id, removeFails).succeeded
    ensures var r := RemoveRepository(env, reg, id, removeFails);
            && GetRepository(env, r.registry, id).1.None?
            && (other != id ==> GetRepository(env, r.registry, other).1 == GetRepository(env, reg.(cache := None), other).1)
  {
    var r := RemoveRepository(env, reg, id, removeFails);
    if other != id {
      assert Loadable(env, r.registry.stored, other) <==> Loadable(env, reg.stored, other);
    }
  }

  /** With a consistent cache the index entries removed are those of the id being removed. */
  lemma RemoveUsesRepositoryId(env: Environment, reg: Registry, id: int, removeFails: bool)
    requires CacheConsistent(reg)
    requires RemoveRepository(env, reg, id, removeFails).succeeded
    ensures RemoveRepository(env, reg, id, removeFails).trace == [BroadcastRemove(id), IndexRemove(id), PropertiesRemoved(id), CacheReset]
  {
  }
}
