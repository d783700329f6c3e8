/**
 * One configured repository (`SubversionManagerImpl`): its stored configuration, the state of
 * its connection, the revision range it streams to the indexer, the single-revision lookup
 * with its log-entry cache, and the memoised web-link configuration.
 *
 * The remote server is a value (`Server`) describing how it answers during the operation
 * being modelled.
 */
module SubversionManagers {
  import opened Wrappers
  import opened JavaLang
  import opened PropertySets
  import opened SvnLog
  import LinkRenderers
  import SvnProperties

  /** The cache capacity used when the configured size is not positive. */
  const DEFAULT_CACHE_SIZE: int := 10000

  /** How `activate` fares: the root URL may be rejected before a session exists, or the
      session may be created and then fail its connection test. */
  datatype Connection = Connects | UrlRejected(message: Option<string>) | TestFails(message: Option<string>)

  /** A log request that fails after handing over `delivered` entries. */
  datatype LogFailure = LogFailure(delivered: nat, message: Option<string>)

  /** The remote repository: how it answers a connection attempt and a request for its
      latest revision, the entries it reports for a revision range (in reporting order), an
      optional failure part-way through such a report, and the revisions whose single-entry
      fetch fails. */
  datatype Server = Server(
    connection: Connection,
    latestRevision: Result<int, Option<string>>,
    history: seq<LogEntry>,
    logFailure: Option<LogFailure>,
    fetchFaults: map<int, Option<string>>)

  datatype Manager = Manager(
    id: int,
    props: PropertySet,
    server: Server,
    active: bool,
    inactiveMessage: Option<string>,
    hasSession: bool,
    cache: map<int, LogEntry>,
    cacheSize: int,
    viewLinkSet: bool,
    viewLink: Option<LinkRenderers.ViewLinkFormat>,
    renderer: LinkRenderers.Renderer)

  // ---------------------------------------------------------------------------------------------
  // Connection state.

  /** `activate`: a successful connection test makes the manager active; any failure makes it
      inactive with the failure's message. A session exists afterwards unless the URL was
      rejected before one was created. */
  function Activate(m: Manager): (r: Manager)
    ensures r.active <==> m.server.connection.Connects?
    ensures !r.active ==> r.inactiveMessage == m.server.connection.message
    ensures r.active ==> r.inactiveMessage == m.inactiveMessage
    ensures r.hasSession == (m.server.connection.UrlRejected? ==> m.hasSession)
    ensures r.(active := m.active, inactiveMessage := m.inactiveMessage, hasSession := m.hasSession) == m
  {
    match m.server.connection
    case Connects => m.(active := true, hasSession := true)
    case UrlRejected(msg) => m.(active := false, inactiveMessage := msg)
    case TestFails(msg) => m.(active := false, inactiveMessage := msg, hasSession := true)
  }

  /** `deactivate`: drops the session and records why. */
  function Deactivate(m: Manager, message: Option<string>): (r: Manager)
    ensures !r.active && !r.hasSession && r.inactiveMessage == message
    ensures r.(active := m.active, inactiveMessage := m.inactiveMessage, hasSession := m.hasSession) == m
  {
    m.(active := false, inactiveMessage := message, hasSession := false)
  }

  // ---------------------------------------------------------------------------------------------
  // Configuration reads.

  /** `getDisplayName`: the stored name when the key exists, otherwise the root. */
  function DisplayName(m: Manager): (name: Option<string>)
    ensures PropertySets.DisplayName in m.props ==> name == GetString(m.props, PropertySets.DisplayName)
    ensures PropertySets.DisplayName !in m.props ==> name == GetString(m.props, Root)
  {
    if PropertySets.DisplayName !in m.props then GetString(m.props, Root)
    else GetString(m.props, PropertySets.DisplayName)
  }

  /** The display name depends on the property set alone. */
  lemma DisplayNameOfProps(a: Manager, b: Manager)
    requires a.props == b.props
    ensures DisplayName(a) == DisplayName(b)
  {
  }

  /** The web-link configuration a property set describes: none at all when every one of the
      six templates is `null`. */
  function ViewLinkFormatOf(ps: PropertySet): (f: Option<LinkRenderers.ViewLinkFormat>)
    ensures f.None? <==>
              && GetString(ps, LinkFormatPath).None?
              && GetString(ps, LinkFormatChangeset).None?
              && GetString(ps, LinkFormatFileAdded).None?
              && GetString(ps, LinkFormatFileModified).None?
              && GetString(ps, LinkFormatFileReplaced).None?
              && GetString(ps, LinkFormatFileDeleted).None?
    ensures f.Some? ==> f.value.viewFormat == GetString(ps, LinkFormatPath)
                        && f.value.changesetFormat == GetString(ps, LinkFormatChangeset)
                        && f.value.linkType == GetString(ps, LinkFormatType)
  {
    var path := GetString(ps, LinkFormatPath);
    var changeset := GetString(ps, LinkFormatChangeset);
    var added := GetString(ps, LinkFormatFileAdded);
    var modified := GetString(ps, LinkFormatFileModified);
    var replaced := GetString(ps, LinkFormatFileReplaced);
    var deleted := GetString(ps, LinkFormatFileDeleted);
    if path.Some? || changeset.Some? || added.Some? || modified.Some? || replaced.Some? || deleted.Some? then
      Some(LinkRenderers.ViewLinkFormat(GetString(ps, LinkFormatType), changeset, added, modified, replaced, deleted, path))
    else None
  }

  /** `getViewLinkFormat`: computed from the properties on the first call, then remembered
      until `update` clears the flag. Returns the manager with its memo filled in. */
  function GetViewLinkFormat(m: Manager): (r: (Manager, Option<LinkRenderers.ViewLinkFormat>))
    ensures r.0.viewLinkSet && r.0.viewLink == r.1
    ensures m.viewLinkSet ==> r.0 == m && r.1 == m.viewLink
    ensures !m.viewLinkSet ==> r.1 == ViewLinkFormatOf(m.props)
    ensures r.0.(viewLinkSet := m.viewLinkSet, viewLink := m.viewLink) == m
  {
    if m.viewLinkSet then (m, m.viewLink)
    else
      var f := ViewLinkFormatOf(m.props);
      (m.(viewLinkSet := true, viewLink := f), f)
  }

  /** `getRevisioningCacheSize` as `setup` uses it. */
  function CacheCapacity(ps: PropertySet): (n: int)
    ensures n > 0
    ensures GetInt(ps, RevisionCacheSize) > 0 ==> n == GetInt(ps, RevisionCacheSize)
  {
    if GetInt(ps, RevisionCacheSize) > 0 then GetInt(ps, RevisionCacheSize) else DEFAULT_CACHE_SIZE
  }

  /** `setup`: choose the renderer from the web-link configuration, start an empty cache, and
      try to connect. */
  function Setup(m: Manager): (r: Manager)
    ensures r.viewLinkSet
    ensures r.renderer.NullRenderer? <==> r.viewLink.None?
    ensures r.renderer.FormatRenderer? ==> r.renderer.formats == LinkRenderers.NewLinkFormatRenderer(r.viewLink)
    ensures r.cache == map[] && r.cacheSize == CacheCapacity(m.props)
    ensures r.active <==> m.server.connection.Connects?
    ensures r.id == m.id && r.props == m.props && r.server == m.server
  {
    var (m1, f) := GetViewLinkFormat(m);
    var renderer := if f.Some? then LinkRenderers.FormatRenderer(LinkRenderers.NewLinkFormatRenderer(f))
                    else LinkRenderers.NullRenderer;
    Activate(m1.(renderer := renderer, cache := map[], cacheSize := CacheCapacity(m.props)))
  }

  /** The constructor: a manager over stored properties, set up at once. */
  function NewManager(id: int, props: PropertySet, server: Server): (r: Manager)
    ensures r.id == id && r.props == props && r.server == server
    ensures r.viewLink == ViewLinkFormatOf(props)
    ensures r.active <==> server.connection.Connects?
  {
    Setup(Manager(id, props, server, false, None, false, map[], 0, false, None, LinkRenderers.NullRenderer))
  }

  /** What `update` leaves behind: the reconfigured manager, or the manager after a failed
      write of the new configuration (the NullPointerException propagates to the caller). */
  datatype UpdateOutcome = Updated(manager: Manager) | UpdateFailed(manager: Manager)

  /** `update`: disconnect, write the new configuration into the property set, forget the
      memoised web-link configuration, and set up again. */
  function Update(m: Manager, config: SvnProperties.SubversionProperties): (r: UpdateOutcome)
    ensures r.Updated? <==> config.revisionIndexing.Some? && config.revisionCacheSize.Some?
    ensures r.UpdateFailed? ==> !r.manager.active && r.manager.inactiveMessage.None?
    ensures r.Updated? ==> r.manager.viewLink == ViewLinkFormatOf(r.manager.props)
    ensures r.manager.id == m.id
  {
    var d := Deactivate(m, None);
    match SvnProperties.FillPropertySet(config, d.props)
    case UnboxFailed(partial) => UpdateFailed(d.(props := partial))
    case Filled(ps) => Updated(Setup(d.(props := ps, viewLinkSet := false)))
  }

  /** After an update the display name is the configured name, or the root when no name was
      given. */
  lemma UpdateDisplayName(m: Manager, config: SvnProperties.SubversionProperties)
    requires config.revisionIndexing.Some? && config.revisionCacheSize.Some?
    ensures DisplayName(Update(m, config).manager) == SvnProperties.StoredDisplayName(config)
  {
    var d := Deactivate(m, None);
    SvnProperties.FillReadBack(config, d.props);
    SvnProperties.FillWritesAll(config, d.props);
  }

  /** The memo survives changes to the stored properties: once read, the web-link
      configuration stays what it was until `update`. */
  lemma ViewLinkFormatMemoised(m: Manager, newProps: PropertySet)
    ensures var (m1, f) := GetViewLinkFormat(m);
            GetViewLinkFormat(m1.(props := newProps)).1 == f
  {
  }

  /** After an update the web-link configuration is absent exactly when all six templates
      given were `null`. */
  lemma UpdateViewLinkFormat(m: Manager, config: SvnProperties.SubversionProperties)
    requires config.revisionIndexing.Some? && config.revisionCacheSize.Some?
    ensures Update(m, config).manager.viewLink.None? <==>
              && config.viewFormat.None? && config.changesetFormat.None?
              && config.fileAddedFormat.None? && config.fileModifiedFormat.None?
              && config.fileReplacedFormat.None? && config.fileDeletedFormat.None?
  {
    var d := Deactivate(m, None);
    SvnProperties.FillReadBackFormats(config, d.props);
  }

  // ---------------------------------------------------------------------------------------------
  // Streaming a revision range.

  /** The first revision requested after `cursor`: one past it, never below 0 (computed in
      64-bit arithmetic). */
  function RetrieveStart(cursor: int): (start: int)
    ensures start >= 0
    ensures IsLong(cursor + 1) && cursor + 1 >= 0 ==> start == cursor + 1
    ensures IsLong(cursor) && cursor < 0 ==> start == 0
  {
    var next := Wrap64(cursor + 1);
    if next < 0 then 0 else next
  }

  /** The entries of `history` whose revision lies in [start, latest], in reporting order. */
  function InRange(history: seq<LogEntry>, start: int, latest: int): (r: seq<LogEntry>)
    ensures |r| <= |history|
    ensures forall i :: 0 <= i < |r| ==> start <= r[i].revision <= latest
    ensures forall e :: e in r <==> e in history && start <= e.revision <= latest
    decreases |history|
  {
    if |history| == 0 then []
    else
      var rest := InRange(history[1..], start, latest);
      assert forall e :: e in history <==> e == history[0] || e in history[1..];
      if start <= history[0].revision <= latest then [history[0]] + rest else rest
  }

  lemma {:induction false} InRangeIncreasing(history: seq<LogEntry>, start: int, latest: int)
    requires StrictlyIncreasing(history)
    ensures StrictlyIncreasing(InRange(history, start, latest))
    decreases |history|
  {
    if |history| > 0 {
      assert StrictlyIncreasing(history[1..]) by {
        forall i, j | 0 <= i < j < |history[1..]|
          ensures history[1..][i].revision < history[1..][j].revision
        {
          assert history[1..][i] == history[i + 1] && history[1..][j] == history[j + 1];
        }
      }
      InRangeIncreasing(history[1..], start, latest);
      var rest := InRange(history[1..], start, latest);
      forall e | e in rest ensures history[0].revision < e.revision {
        var k :| 0 <= k < |history[1..]| && history[1..][k] == e;
        assert history[k + 1] == e;
      }
    }
  }

  /** The outcome of `getLogEntries` as seen by its handler: the entries handed over in
      order, and the failure message when the latest revision or the log could not be read
      (after which the manager is deactivated). */
  datatype LogRun = LogRun(entries: seq<LogEntry>, failure: Option<Option<string>>)

  /** The entries `getLogEntries(cursor, handler)` hands to the handler. */
  function LogRunOf(m: Manager, cursor: int): (run: LogRun)
    ensures !m.active ==> run == LogRun([], None)
    ensures m.active && m.server.latestRevision.Err? ==> run == LogRun([], Some(m.server.latestRevision.error))
    ensures m.active && m.server.latestRevision.Ok? && 0 < m.server.latestRevision.value <= cursor ==>
              run == LogRun([], None)
    ensures forall i :: 0 <= i < |run.entries| ==>
              RetrieveStart(cursor) <= run.entries[i].revision <= m.server.latestRevision.value
    ensures run.entries <= InRange(m.server.history, RetrieveStart(cursor), if m.server.latestRevision.Ok? then m.server.latestRevision.value else 0)
    ensures run.failure.None? && m.active && m.server.latestRevision.Ok?
            && !(0 < m.server.latestRevision.value <= cursor) ==>
              run.entries == InRange(m.server.history, RetrieveStart(cursor), m.server.latestRevision.value)
    ensures run.failure.Some? ==> m.server.latestRevision.Err? || m.server.logFailure.Some?
  {
    if !m.active then LogRun([], None)
    else match m.server.latestRevision
      case Err(msg) => LogRun([], Some(msg))
      case Ok(latest) =>
        if latest > 0 && latest <= cursor then LogRun([], None)
        else
          var selected := InRange(m.server.history, RetrieveStart(cursor), latest);
          match m.server.logFailure
          case None => LogRun(selected, None)
          case Some(f) =>
            var n := if f.delivered < |selected| then f.delivered else |selected|;
            LogRun(selected[..n], Some(f.message))
  }

  /** The manager after `getLogEntries` completes: deactivated with the failure's message if
      reading the latest revision or the log failed, otherwise unchanged. */
  function AfterLogRun(m: Manager, run: LogRun): (r: Manager)
    ensures run.failure.None? ==> r == m
    ensures run.failure.Some? ==> !r.active && !r.hasSession && r.inactiveMessage == run.failure.value
  {
    if run.failure.Some? then Deactivate(m, run.failure.value) else m
  }

  /** An inactive manager delivers nothing and stays as it is. */
  lemma InactiveDeliversNothing(m: Manager, cursor: int)
    requires !m.active
    ensures LogRunOf(m, cursor).entries == []
    ensures AfterLogRun(m, LogRunOf(m, cursor)) == m
  {
  }

  // ---------------------------------------------------------------------------------------------
  // Fetching one revision.

  /** The entry a server reports for one revision, if it has one. */
  function FindRevision(history: seq<LogEntry>, rev: int): (r: Option<LogEntry>)
    ensures r.Some? ==> r.value in history && r.value.revision == rev
    ensures r.None? ==> forall e :: e in history ==> e.revision != rev
    decreases |history|
  {
    if |history| == 0 then None
    else if history[0].revision == rev then Some(history[0])
    else FindRevision(history[1..], rev)
  }

  datatype FetchError = IllegalState | Infrastructure(message: Option<string>)

  /** `getLogEntry`: refused when inactive; served from the cache when the revision was
      fetched before; otherwise asked of the server, caching what it returns. A server failure
      deactivates the manager and is rethrown. A revision the server does not have yields
      `null`. */
  function GetLogEntry(m: Manager, rev: int): (r: (Manager, Result<Option<LogEntry>, FetchError>))
    ensures !m.active ==> r == (m, Err(IllegalState))
    ensures m.active && rev in m.cache ==> r == (m, Ok(Some(m.cache[rev])))
    ensures r.1.Ok? && r.1.value.Some? ==> r.1.value.value.revision == rev || rev in m.cache
    ensures r.1.Ok? && r.1.value.Some? ==> rev in r.0.cache && r.0.cache[rev] == r.1.value.value
    ensures r.1.Err? && r.1.error.Infrastructure? ==> !r.0.active && r.0.inactiveMessage == r.1.error.message
    ensures m.active && rev !in m.cache && rev in m.server.fetchFaults ==>
              r.1 == Err(Infrastructure(m.server.fetchFaults[rev])) && r.0.cache == m.cache
    ensures m.active && rev !in m.cache && rev !in m.server.fetchFaults ==>
              && r.1 == Ok(FindRevision(m.server.history, rev))
              && r.0.cache == (if FindRevision(m.server.history, rev).Some?
                               then m.cache[rev := FindRevision(m.server.history, rev).value] else m.cache)
              && r.0.(cache := m.cache) == m
  {
    if !m.active then (m, Err(IllegalState))
    else if rev in m.cache then (m, Ok(Some(m.cache[rev])))
    else if rev in m.server.fetchFaults then
      var msg := m.server.fetchFaults[rev];
      (Deactivate(m, msg), Err(Infrastructure(msg)))
    else match FindRevision(m.server.history, rev)
      case None => (m, Ok(None))
      case Some(e) => (m.(cache := m.cache[rev := e]), Ok(Some(e)))
  }

  /** Every cached entry is the server's entry for its revision. */
  predicate CacheAgrees(m: Manager) {
    forall k :: k in m.cache ==> FindRevision(m.server.history, k) == Some(m.cache[k])
  }

  /** The cache is transparent: an active manager whose cache agrees with its server answers
      a revision with the server's entry for it, and its cache still agrees afterwards. */
  lemma GetLogEntryAgrees(m: Manager, rev: int)
    requires m.active && CacheAgrees(m) && rev !in m.server.fetchFaults
    ensures GetLogEntry(m, rev).1 == Ok(FindRevision(m.server.history, rev))
    ensures CacheAgrees(GetLogEntry(m, rev).0)
  {
  }

  /** A revision once fetched is served from the cache afterwards, whatever the server now
      says about it. */
  lemma GetLogEntryCached(m: Manager, rev: int, later: Server)
    requires GetLogEntry(m, rev).1.Ok? && GetLogEntry(m, rev).1.value.Some?
    ensures var m1 := GetLogEntry(m, rev).0;
            GetLogEntry(m1.(server := later), rev) == (m1.(server := later), GetLogEntry(m, rev).1)
  {
  }
}
