# Subversion integration for JIRA, modelled in Dafny

This project models the core of the JIRA Subversion plugin. The plugin keeps a Lucene index of
the commits of one or more Subversion repositories, and answers the issue and project tabs of
JIRA from that index. The model is functional. Each Java operation is a Dafny function over
immutable values. The JIRA services, SVNKit and Lucene it calls become parameters ("oracles"):
a map, a predicate or an `Option` result standing for what the service answers, or a
`Result` error standing for the exception it throws.

Modules, following the plugin's classes:

- `Wrappers`, `JavaLang`, `Sequences`: `Option` and `Result`, and the Java library behaviour
  the plugin relies on. This covers `Integer.parseInt`, `Long.parseLong`, `Integer.toString`,
  `String.trim`, `StringUtils.isBlank`, `equalsIgnoreCase` and 32-bit wrap-around.
- `SvnLog`: log entries, changed paths and the repository server as a history of commits.
- `PropertySets`: the JIRA property set that stores each repository's configuration.
- `SvnProperties`, `PropertiesLoaders`: the repository configuration, how it is written to a
  property set (`fillPropertySet`), and how it is read from `subversion-jira-plugin.properties`.
- `Base64`, `Passwords`: password encryption, which is Base64 over the platform charset.
- `SubversionManagers`: one repository connection (`SubversionManagerImpl`). This covers
  activation, the web-link configuration, the log-entry cache, and delivering the log to the
  indexer.
- `RepositoryManagers`: the registry of repositories (`MultipleSubversionRepositoryManagerImpl`).
  It handles loading, the cached map, and creating, updating and removing repositories.
- `IndexMessages`: the cluster messages that keep every node's index in step.
- `Documents`, `RevisionIndexers`, `Queries`: the revision indexer. This covers the index
  documents, one update pass over all repositories, removing a repository's entries, and the
  three queries (by issue, by project, by version).
- `TabPanels`, `IssueTabPanels`, `ProjectTabPanels`: the issue tab and the project tab.
- `RevisionActions`: one commit as shown on the issue tab, with issue keys upper-cased in its
  message.
- `LinkRenderers`, `TextReplace`: the web links (ViewVC, FishEye and the like) around
  revisions and paths.
- `SchedulerLaunchers`: the start-up latch that schedules the index-update service once the
  plugin is fully started.
- `Timeouts`: the SVNKit read and connect timeouts taken from system properties.
- `RepositoryLists`: the repository list of the administration page, sorted by name.

Notable behaviours of the code that the model keeps:

- An `IndexException` raised while catching up a repository's cursor (the reader opened in
  `updateLastRevisionIndexed`) is not caught per repository. It aborts the whole update pass
  (`RevisionIndexers.Resume`, `RevisionIndexers.Pass`).
- On the project tab, a blank, absent or garbled version parameter selects version 0. It does
  not select all versions (`ProjectTabPanels.GarbledVersionIsNotAll`).
- The issue tab always sorts descending: `sortAscending` is fixed to `false`. With a page size
  of 0 or less and exactly one commit, the "more" hack calls `get(0)` on an empty list and
  throws (`IssueTabPanels.MarkPage`).
- The project tab's `subList(0, pageSize)` throws for a negative page size
  (`ProjectTabPanels.Truncate`).
- The version query keeps a commit the server does not have as `null`. The project tab's
  action constructor then dereferences it, and the page throws a NullPointerException that
  nothing catches (`ProjectTabPanels.VersionQueryNullIffMissing`, `ProjectTabPanels.VersionPage`).
- The loader reads neither the web-link type nor the view format from the properties file.
  Both are always `null` (`PropertiesLoaders.RepositoryFields`).
- `hasDocument` probes the reader opened before the pass. Commits indexed earlier in the same
  pass are therefore not seen by it (`RevisionIndexers.NewDocuments`). Duplicate freedom then
  rests on each server delivering increasing revisions (`RevisionIndexers.PassNoDuplicates`).

All source paths below are under `src/main/java/com/atlassian/jira/plugin/ext/subversion/`
of the plugin.

## Model

| member | source | states |
|---|---|---|
| Documents.ProjectsOfKeys | src/main/java/com/atlassian/jira/plugin/ext/subversion/revisions/RevisionIndexer.java:379-386 | one project key per issue key, in key order, each the project of the upper-cased key |
| Documents.GetDocument | src/main/java/com/atlassian/jira/plugin/ext/subversion/revisions/RevisionIndexer.java:356-389 | the document carries the repository id, the revision, the message, the author and date exactly when set, and the issue keys found in the upper-cased message |
| Documents.GetDocumentProjects | src/main/java/com/atlassian/jira/plugin/ext/subversion/revisions/RevisionIndexer.java:376-386 | every project of an issue key appears once among the project fields, and no other project does |
| Documents.ProjectsDistinctKeys | src/main/java/com/atlassian/jira/plugin/ext/subversion/revisions/RevisionIndexer.java:379-386 | when the keys belong to different projects, the project fields are the keys' projects in key order |
| RevisionIndexers.HighestRevision | src/main/java/com/atlassian/jira/plugin/ext/subversion/revisions/RevisionIndexer.java:330-338 | none exactly when the index holds no document of the repository; otherwise the largest revision indexed for it |
| RevisionIndexers.CatchUp | src/main/java/com/atlassian/jira/plugin/ext/subversion/revisions/RevisionIndexer.java:311-346 | a negative cursor is raised to the highest indexed revision of the repository when that is larger, and never lowered |
| RevisionIndexers.NewDocuments | src/main/java/com/atlassian/jira/plugin/ext/subversion/revisions/RevisionIndexer.java:235-250 | the documents written are exactly those of the indexable commits that the reader snapshot does not already hold, all for this repository |
| RevisionIndexers.IndexDirectory | src/main/java/com/atlassian/jira/plugin/ext/subversion/revisions/RevisionIndexer.java:155-176 | no usable index when JIRA gives no index path; otherwise the index as it stands |
| RevisionIndexers.HasDocument | src/main/java/com/atlassian/jira/plugin/ext/subversion/revisions/RevisionIndexer.java:285-308 | true exactly when the index holds a document of that repository and revision |
| RevisionIndexers.MatchCountPositive | src/main/java/com/atlassian/jira/plugin/ext/subversion/revisions/RevisionIndexer.java:285-308 | the count of matching documents is positive exactly when one exists |
| RevisionIndexers.AdvanceCursor | src/main/java/com/atlassian/jira/plugin/ext/subversion/revisions/RevisionIndexer.java:251-254 | the cursor ends where it was or on the revision of a scanned commit above the starting cursor |
| RevisionIndexers.IndexableAt | src/main/java/com/atlassian/jira/plugin/ext/subversion/revisions/RevisionIndexer.java:238-250 | the position found is in range and holds an indexable commit, or there is no such commit |
| RevisionIndexers.Handled | src/main/java/com/atlassian/jira/plugin/ext/subversion/revisions/RevisionIndexer.java:235-250 | the commits handled are a prefix of those delivered; only a handler failure cuts them short, at an indexable commit |
| RevisionIndexers.Activated | src/main/java/com/atlassian/jira/plugin/ext/subversion/revisions/RevisionIndexer.java:195-201 | an active manager is used as it is; activation keeps the id and the server |
| RevisionIndexers.StartCursor | src/main/java/com/atlassian/jira/plugin/ext/subversion/revisions/RevisionIndexer.java:206-212 | a non-negative cursor is used as is; a negative one is caught up and never decreases |
| RevisionIndexers.Scan | src/main/java/com/atlassian/jira/plugin/ext/subversion/revisions/RevisionIndexer.java:228-263 | only this repository's documents and cursor change; a scan ends indexed, or caught when the handler fails |
| RevisionIndexers.Resume | src/main/java/com/atlassian/jira/plugin/ext/subversion/revisions/RevisionIndexer.java:206-268 | never skipped; aborts exactly when a negative cursor must be caught up and the catch-up reader cannot be opened, leaving everything unchanged |
| RevisionIndexers.Step | src/main/java/com/atlassian/jira/plugin/ext/subversion/revisions/RevisionIndexer.java:192-268 | skipped exactly when the repository stays inactive after activation or has no cursor; an abort changes nothing; a caught failure needs a fault |
| RevisionIndexers.Pass | src/main/java/com/atlassian/jira/plugin/ext/subversion/revisions/RevisionIndexer.java:192-269 | one manager per repository, the index only grows, and the set of cursors is unchanged |
| RevisionIndexers.EnsureIndex | src/main/java/com/atlassian/jira/plugin/ext/subversion/revisions/RevisionIndexer.java:120-176 | an existing index is kept; without an index path nothing changes; an absent index is created when creation succeeds, every current cursor reset to -1; a usable index exists afterwards exactly when the path is set and the index existed or was created |
| RevisionIndexers.UpdateIndex | src/main/java/com/atlassian/jira/plugin/ext/subversion/revisions/RevisionIndexer.java:184-271 | without an index path, or without a usable index, nothing happens; otherwise the index only grows and the cursor keys are those after the index check |
| RevisionIndexers.NewDocumentsAbove | src/main/java/com/atlassian/jira/plugin/ext/subversion/revisions/RevisionIndexer.java:235-250 | documents inherit any lower bound on the revisions of the delivered commits |
| RevisionIndexers.NewDocumentsIncreasing | src/main/java/com/atlassian/jira/plugin/ext/subversion/revisions/RevisionIndexer.java:235-250 | along strictly increasing commits the new documents have strictly increasing revisions |
| RevisionIndexers.NewDocumentsFresh | src/main/java/com/atlassian/jira/plugin/ext/subversion/revisions/RevisionIndexer.java:240-246 | every new document is for this repository and for a revision the snapshot does not hold |
| RevisionIndexers.AppendKeepsNoDuplicates | src/main/java/com/atlassian/jira/plugin/ext/subversion/revisions/RevisionIndexer.java:285-308 | appending documents for distinct new revisions of one repository keeps the index free of duplicate revisions |
| RevisionIndexers.DeliveredIncreasing | src/main/java/com/atlassian/jira/plugin/ext/subversion/SubversionManagerImpl.java:123-132 | a server reporting its history in increasing order delivers increasing commits to the handler |
| RevisionIndexers.ScanNoDuplicates | src/main/java/com/atlassian/jira/plugin/ext/subversion/revisions/RevisionIndexer.java:235-257 | a scan never adds a second document for a revision of a repository |
| RevisionIndexers.StepNoDuplicates | src/main/java/com/atlassian/jira/plugin/ext/subversion/revisions/RevisionIndexer.java:192-268 | processing one repository never adds a second document for a revision |
| RevisionIndexers.PassNoDuplicates | src/main/java/com/atlassian/jira/plugin/ext/subversion/revisions/RevisionIndexer.java:184-271 | a whole update pass never creates a duplicate document when every server reports increasing revisions |
| RevisionIndexers.AdvanceCursorMonotone | src/main/java/com/atlassian/jira/plugin/ext/subversion/revisions/RevisionIndexer.java:251-254 | the cursor never drops below where the scan started |
| RevisionIndexers.AdvanceCursorIncreasing | src/main/java/com/atlassian/jira/plugin/ext/subversion/revisions/RevisionIndexer.java:251-254 | over increasing commits the cursor ends on the last commit's revision when that is above the start, else where it was |
| RevisionIndexers.StepCursorMonotone | src/main/java/com/atlassian/jira/plugin/ext/subversion/revisions/RevisionIndexer.java:192-268 | no repository's cursor moves backwards during one repository's step |
| RevisionIndexers.PassCursorMonotone | src/main/java/com/atlassian/jira/plugin/ext/subversion/revisions/RevisionIndexer.java:184-271 | no cursor moves backwards during a pass |
| RevisionIndexers.ScanCursorEnd | src/main/java/com/atlassian/jira/plugin/ext/subversion/revisions/RevisionIndexer.java:235-257 | a fault-free scan leaves the cursor on the last revision delivered, or where it started when nothing came |
| RevisionIndexers.StepCursorEnd | src/main/java/com/atlassian/jira/plugin/ext/subversion/revisions/RevisionIndexer.java:203-257 | a fault-free step scans from the caught-up cursor and ends on the last revision delivered |
| RevisionIndexers.PassAppend | src/main/java/com/atlassian/jira/plugin/ext/subversion/revisions/RevisionIndexer.java:192-269 | a caught failure in one repository does not stop the pass: passing over two lists is passing over each in turn |
| RevisionIndexers.AddRepository | src/main/java/com/atlassian/jira/plugin/ext/subversion/revisions/RevisionIndexer.java:625-636 | the repository's cursor is reset to -1 and the index updated; the returned state is the update's even when its pass aborted, and the error is reported exactly then; without an index path only the reset happens |
| RevisionIndexers.AddRepositoryKeepsProgress | src/main/java/com/atlassian/jira/plugin/ext/subversion/revisions/RevisionIndexer.java:625-636 | with a usable index, adding a repository keeps every indexed document, leaves its cursor at -1 or beyond and lowers no other repository's cursor |
| RevisionIndexers.WithoutRepository | src/main/java/com/atlassian/jira/plugin/ext/subversion/revisions/RevisionIndexer.java:651 | exactly the documents of other repositories remain |
| RevisionIndexers.RemoveEntries | src/main/java/com/atlassian/jira/plugin/ext/subversion/revisions/RevisionIndexer.java:638-672 | without an index path or an index nothing changes; a writer that cannot open is an error; otherwise the repository's documents are deleted and its cursor reset to -1 |
| RevisionIndexers.RemoveThenRescan | src/main/java/com/atlassian/jira/plugin/ext/subversion/revisions/RevisionIndexer.java:638-672 | after removal nothing of the repository remains to catch up with, so its next scan starts at revision 0 |
| RevisionIndexers.RemoveKeepsNoDuplicates | src/main/java/com/atlassian/jira/plugin/ext/subversion/revisions/RevisionIndexer.java:651 | removing a repository's documents keeps the index free of duplicates |
| Queries.Insert | src/main/java/com/atlassian/jira/plugin/ext/subversion/revisions/RevisionIndexer.java:448-453 | a repository is added as a key only on its first commit |
| Queries.InsertKeys | src/main/java/com/atlassian/jira/plugin/ext/subversion/revisions/RevisionIndexer.java:448-453 | inserting keeps the repository order, adding a new repository at the end |
| Queries.InsertLookup | src/main/java/com/atlassian/jira/plugin/ext/subversion/revisions/RevisionIndexer.java:448-453 | inserting appends the commit to its repository's list and leaves every other list alone |
| Queries.InsertTotal | src/main/java/com/atlassian/jira/plugin/ext/subversion/revisions/RevisionIndexer.java:448-453 | inserting adds exactly one commit |
| Queries.GroupKeys | src/main/java/com/atlassian/jira/plugin/ext/subversion/revisions/RevisionIndexer.java:430-455 | repositories appear in the order of their first hit, each once |
| Queries.GroupLookup | src/main/java/com/atlassian/jira/plugin/ext/subversion/revisions/RevisionIndexer.java:430-455 | each repository's list holds its hits' commits in hit order |
| Queries.GroupTotal | src/main/java/com/atlassian/jira/plugin/ext/subversion/revisions/RevisionIndexer.java:430-455 | grouping neither drops nor duplicates a commit |
| Queries.WindowFrom | src/main/java/com/atlassian/jira/plugin/ext/subversion/revisions/RevisionIndexer.java:435-437 | the loop keeps at most as many hits as positions remain |
| Queries.Window | src/main/java/com/atlassian/jira/plugin/ext/subversion/revisions/RevisionIndexer.java:432-437 | a query looks at no more than 100 hits |
| Queries.WindowFromSlice | src/main/java/com/atlassian/jira/plugin/ext/subversion/revisions/RevisionIndexer.java:435-437 | the hits kept form one contiguous run of positions |
| Queries.WindowIsSlice | src/main/java/com/atlassian/jira/plugin/ext/subversion/revisions/RevisionIndexer.java:432-437 | the window is the run from max(startIndex, 0) to the smaller of the page end and min(totalHits, 100) |
| Queries.WindowLength | src/main/java/com/atlassian/jira/plugin/ext/subversion/revisions/RevisionIndexer.java:432-437 | without 32-bit overflow of the page end, a window holds at most pageSize hits |
| Queries.Fetch | src/main/java/com/atlassian/jira/plugin/ext/subversion/revisions/RevisionIndexer.java:440-443 | an unconfigured or inactive repository fails the query; otherwise, with a cache that agrees with the server and no fault, the commit with that revision, or null when the history has none |
| Queries.FetchedValue | src/main/java/com/atlassian/jira/plugin/ext/subversion/revisions/RevisionIndexer.java:440-445 | a hit's value is its commit when one is found, and null when its repository has none |
| Queries.Tagged | src/main/java/com/atlassian/jira/plugin/ext/subversion/revisions/RevisionIndexer.java:437-446 | one pair per hit, in hit order: the hit's repository and its value |
| Queries.Present | src/main/java/com/atlassian/jira/plugin/ext/subversion/revisions/RevisionIndexer.java:444-454 | only pairs with a commit, each taken from the list |
| Queries.PresentCons | src/main/java/com/atlassian/jira/plugin/ext/subversion/revisions/RevisionIndexer.java:444-446 | dropping null values distributes over a list's first element |
| Queries.SelectMember | src/main/java/com/atlassian/jira/plugin/ext/subversion/revisions/RevisionIndexer.java:447-453 | a value filed under a repository came from a pair with that repository |
| Queries.SelectPresent | src/main/java/com/atlassian/jira/plugin/ext/subversion/revisions/RevisionIndexer.java:444-453 | grouping after dropping null values equals dropping them from each group |
| Queries.MissingCount | src/main/java/com/atlassian/jira/plugin/ext/subversion/revisions/RevisionIndexer.java:444-445 | at most one missing commit per hit |
| Queries.Collect | src/main/java/com/atlassian/jira/plugin/ext/subversion/revisions/RevisionIndexer.java:435-455 | fails exactly when some hit's lookup fails; otherwise the version query gets every hit tagged with its repository and value, the other queries exactly the non-null ones, in hit order |
| Queries.CollectValueCons | src/main/java/com/atlassian/jira/plugin/ext/subversion/revisions/RevisionIndexer.java:435-455 | collecting the first hit in front of the rest's values gives the whole window's values, and the missing count grows by one exactly for a null value |
| Queries.ByIssue | src/main/java/com/atlassian/jira/plugin/ext/subversion/revisions/RevisionIndexer.java:416-463 | no index gives null; otherwise it fails exactly when some hit of the window fails its lookup, and otherwise gives a map |
| Queries.ByProject | src/main/java/com/atlassian/jira/plugin/ext/subversion/revisions/RevisionIndexer.java:477-533 | no index or no hit list gives null; otherwise the issue query's grouping over the project hits |
| Queries.ByVersion | src/main/java/com/atlassian/jira/plugin/ext/subversion/revisions/RevisionIndexer.java:548-623 | no index or no hit list gives null; otherwise it fails exactly when some hit of the window fails its lookup, and otherwise gives a map |
| Queries.VersionQueryKeys | src/main/java/com/atlassian/jira/plugin/ext/subversion/revisions/RevisionIndexer.java:554-577 | the keys searched are those of issues fixed in or affected by the version that the user may see |
| Queries.IssueQueryKeys | src/main/java/com/atlassian/jira/plugin/ext/subversion/revisions/RevisionIndexer.java:679-693 | the keys searched are the issue's key and every previous key, and no other |
| Queries.ByIssueGrouping | src/main/java/com/atlassian/jira/plugin/ext/subversion/revisions/RevisionIndexer.java:444-454 | the issue query never returns a null commit and files each found commit under its hit's repository in hit order |
| Queries.ByVersionKeepsEveryHit | src/main/java/com/atlassian/jira/plugin/ext/subversion/revisions/RevisionIndexer.java:604-614 | the version query keeps one value, possibly null, for every hit in the window: one repository per distinct hit repository, and under each exactly that repository's hit values in order |
| Queries.MissingAsymmetry | src/main/java/com/atlassian/jira/plugin/ext/subversion/revisions/RevisionIndexer.java:444-454 | on the same hits, each repository's list of the issue query is the version query's list with its nulls removed; the totals differ by the missing count |
| Queries.WindowMember | src/main/java/com/atlassian/jira/plugin/ext/subversion/revisions/RevisionIndexer.java:432-437 | every hit of the window is a hit of the query |
| Queries.ByIssueMatchesKeys | src/main/java/com/atlassian/jira/plugin/ext/subversion/revisions/RevisionIndexer.java:416-463 | every commit the issue query returns was found for an indexed hit carrying the issue's key or a previous key, and is filed under that hit's repository |
| Queries.ByVersionMatchesKeys | src/main/java/com/atlassian/jira/plugin/ext/subversion/revisions/RevisionIndexer.java:548-623 | every value the version query returns, null included, belongs to an indexed hit carrying a permitted key of the version's issues, filed under that hit's repository |
| SubversionManagers.Activate | src/main/java/com/atlassian/jira/plugin/ext/subversion/SubversionManagerImpl.java:231-253 | active exactly when the connection test passes; a failure records its message; a session remains unless the URL was rejected; nothing else changes |
| SubversionManagers.Deactivate | src/main/java/com/atlassian/jira/plugin/ext/subversion/SubversionManagerImpl.java:265-277 | inactive, no session, the given message recorded, nothing else changed |
| SubversionManagers.DisplayName | src/main/java/com/atlassian/jira/plugin/ext/subversion/SubversionManagerImpl.java:194-196 | the stored display name when its key exists, otherwise the root |
| SubversionManagers.ViewLinkFormatOf | src/main/java/com/atlassian/jira/plugin/ext/subversion/SubversionManagerImpl.java:281-292 | no web-link configuration exactly when all six templates are unset; otherwise the stored templates and type |
| SubversionManagers.GetViewLinkFormat | src/main/java/com/atlassian/jira/plugin/ext/subversion/SubversionManagerImpl.java:279-297 | computed once from the properties and then memoised; only the memo changes |
| SubversionManagers.CacheCapacity | src/main/java/com/atlassian/jira/plugin/ext/subversion/SubversionManagerImpl.java:75-78 | the configured cache size when positive, otherwise 10000; always positive |
| SubversionManagers.Setup | src/main/java/com/atlassian/jira/plugin/ext/subversion/SubversionManagerImpl.java:64-82 | the plain renderer exactly when there is no web-link configuration; an empty cache of the configured capacity; active exactly when the connection test passes |
| SubversionManagers.NewManager | src/main/java/com/atlassian/jira/plugin/ext/subversion/SubversionManagerImpl.java:49-53 | a new manager keeps its id, properties and server, computes its web-link configuration and tries to connect |
| SubversionManagers.Update | src/main/java/com/atlassian/jira/plugin/ext/subversion/SubversionManagerImpl.java:55-62 | succeeds exactly when both boxed fields are given; a failed fill leaves the manager disconnected; the web-link memo is recomputed (SVN-190) |
| SubversionManagers.UpdateDisplayName | src/main/java/com/atlassian/jira/plugin/ext/subversion/SubversionManagerImpl.java:55-62 | after an update the display name is the configured one, or the root when none is given |
| SubversionManagers.ViewLinkFormatMemoised | src/main/java/com/atlassian/jira/plugin/ext/subversion/SubversionManagerImpl.java:279-297 | once computed, the web-link configuration ignores later property changes |
| SubversionManagers.UpdateViewLinkFormat | src/main/java/com/atlassian/jira/plugin/ext/subversion/SubversionManagerImpl.java:55-62 | after an update there is no web-link configuration exactly when all six templates are unset |
| SubversionManagers.RetrieveStart | src/main/java/com/atlassian/jira/plugin/ext/subversion/SubversionManagerImpl.java:112-115 | the log starts one past the cursor, and never below revision 0 |
| SubversionManagers.InRange | src/main/java/com/atlassian/jira/plugin/ext/subversion/SubversionManagerImpl.java:123 | exactly the history entries whose revision lies in the requested range |
| SubversionManagers.InRangeIncreasing | src/main/java/com/atlassian/jira/plugin/ext/subversion/SubversionManagerImpl.java:123 | a range of an increasing history is increasing |
| SubversionManagers.LogRunOf | src/main/java/com/atlassian/jira/plugin/ext/subversion/SubversionManagerImpl.java:84-145 | an inactive manager, a failed latest-revision request or an up-to-date cursor delivers nothing; otherwise a prefix of the range, all of it without a failure |
| SubversionManagers.AfterLogRun | src/main/java/com/atlassian/jira/plugin/ext/subversion/SubversionManagerImpl.java:94-98 | a failure deactivates the manager with its message; otherwise nothing changes |
| SubversionManagers.InactiveDeliversNothing | src/main/java/com/atlassian/jira/plugin/ext/subversion/SubversionManagerImpl.java:86-89 | an inactive manager delivers no commits and stays as it was |
| SubversionManagers.FindRevision | src/main/java/com/atlassian/jira/plugin/ext/subversion/SubversionManagerImpl.java:159-164 | the entry found is in the history with the asked revision; none means no entry has it |
| SubversionManagers.GetLogEntry | src/main/java/com/atlassian/jira/plugin/ext/subversion/SubversionManagerImpl.java:147-174 | an inactive manager throws; a cached entry is returned as is; an uncached lookup answers the history's entry, caches a found one and changes nothing else; a server failure deactivates the manager and leaves the cache as it was |
| SubversionManagers.GetLogEntryAgrees | src/main/java/com/atlassian/jira/plugin/ext/subversion/SubversionManagerImpl.java:147-174 | a cache that agrees with the server answers exactly what the server's history holds, and still agrees afterwards |
| SubversionManagers.GetLogEntryCached | src/main/java/com/atlassian/jira/plugin/ext/subversion/SubversionManagerImpl.java:151-173 | after a successful lookup the same revision is answered from the cache whatever the server does |
| Base64.EncodeChar | src/main/java/com/atlassian/jira/plugin/ext/subversion/SubversionManagerImpl.java:317 | every sextet encodes to a character of the base 64 alphabet |
| Base64.DecodeEncodeChar | src/main/java/com/atlassian/jira/plugin/ext/subversion/SubversionManagerImpl.java:308 | decoding a character gives back the sextet that encoded it |
| Base64.SextetsOf | src/main/java/com/atlassian/jira/plugin/ext/subversion/SubversionManagerImpl.java:317 | four sextets per three bytes, and two or three for a final partial group |
| Base64.BytesOfSextetsOf | src/main/java/com/atlassian/jira/plugin/ext/subversion/SubversionManagerImpl.java:308 | bytes survive the trip through sextets |
| Base64.Padding | src/main/java/com/atlassian/jira/plugin/ext/subversion/SubversionManagerImpl.java:317 | padding brings the text to a multiple of four with '=' only |
| Base64.Encode | src/main/java/com/atlassian/jira/plugin/ext/subversion/SubversionManagerImpl.java:317 | the text is alphabet characters and padding, four characters per started group of three bytes |
| Base64.SextetsInEncoded | src/main/java/com/atlassian/jira/plugin/ext/subversion/SubversionManagerImpl.java:308 | reading the characters of an encoding gives back its sextets, whatever the padding |
| Base64.DecodeEncode | src/main/java/com/atlassian/jira/plugin/ext/subversion/SubversionManagerImpl.java:304-318 | decoding an encoding gives the original bytes back |
| Passwords.CharsetEncode | src/main/java/com/atlassian/jira/plugin/ext/subversion/SubversionManagerImpl.java:317 | one byte per character; ASCII characters keep their code, others become '?' |
| Passwords.CharsetDecode | src/main/java/com/atlassian/jira/plugin/ext/subversion/SubversionManagerImpl.java:310 | one character per byte |
| Passwords.CharsetRoundTrip | src/main/java/com/atlassian/jira/plugin/ext/subversion/SubversionManagerImpl.java:310-317 | ASCII text survives the trip through bytes |
| Passwords.EncryptPassword | src/main/java/com/atlassian/jira/plugin/ext/subversion/SubversionManagerImpl.java:313-318 | null stays null; otherwise a base 64 text whose bytes are the password's |
| Passwords.DecryptPassword | src/main/java/com/atlassian/jira/plugin/ext/subversion/SubversionManagerImpl.java:304-311 | null stays null; otherwise one character per decoded byte |
| Passwords.DecryptEncrypt | src/main/java/com/atlassian/jira/plugin/ext/subversion/SubversionManagerImpl.java:304-318 | decrypting an encrypted password gives it back, null and every ASCII password |
| SvnProperties.StoredDisplayName | src/main/java/com/atlassian/jira/plugin/ext/subversion/SvnProperties.java:38 | the display name when given, otherwise the root |
| SvnProperties.LeadingWrites | src/main/java/com/atlassian/jira/plugin/ext/subversion/SvnProperties.java:37-40 | the writes before the first unboxing touch exactly the root, name, user and password keys |
| SvnProperties.TrailingWrites | src/main/java/com/atlassian/jira/plugin/ext/subversion/SvnProperties.java:42-50 | the writes after the indexing flag touch exactly the remaining keys |
| SvnProperties.FillPropertySet | src/main/java/com/atlassian/jira/plugin/ext/subversion/SvnProperties.java:36-52 | the fill completes exactly when both boxed fields are given |
| SvnProperties.FillWritesOnly | src/main/java/com/atlassian/jira/plugin/ext/subversion/SvnProperties.java:36-52 | a fill writes only its own keys; a failed unboxing leaves the writes made before it |
| SvnProperties.FillReadBack | src/main/java/com/atlassian/jira/plugin/ext/subversion/SvnProperties.java:37-43 | reading the filled set gives back each configured value, the display name defaulted to the root and the password encrypted |
| SvnProperties.FillReadBackFormats | src/main/java/com/atlassian/jira/plugin/ext/subversion/SvnProperties.java:44-50 | reading the filled set gives back the link type and each template |
| SvnProperties.FilledPasswordRecoverable | src/main/java/com/atlassian/jira/plugin/ext/subversion/SvnProperties.java:40 | the stored password decrypts to the configured one |
| RepositoryManagers.LoadFrom | src/main/java/com/atlassian/jira/plugin/ext/subversion/MultipleSubversionRepositoryManagerImpl.java:163-168 | a manager for exactly the ids in range whose property set is non-empty and accepted by construction, each built from its stored set |
| RepositoryManagers.LoadManagers | src/main/java/com/atlassian/jira/plugin/ext/subversion/MultipleSubversionRepositoryManagerImpl.java:157-182 | managers for exactly the ids from 1 to last.repo.id that load, each with its id and stored properties |
| RepositoryManagers.Cached | src/main/java/com/atlassian/jira/plugin/ext/subversion/MultipleSubversionRepositoryManagerImpl.java:103-107 | the cached map when there is one, otherwise a fresh load, which becomes the cache |
| RepositoryManagers.Expire | src/main/java/com/atlassian/jira/plugin/ext/subversion/MultipleSubversionRepositoryManagerImpl.java:103-107 | 30 minutes or more without a read drop the cached map and nothing else; less changes nothing |
| RepositoryManagers.ExpiredReadReloads | src/main/java/com/atlassian/jira/plugin/ext/subversion/MultipleSubversionRepositoryManagerImpl.java:103-107 | after the expiry time a read answers from a fresh load of the store and caches it, whatever the expired map held |
| RepositoryManagers.FreshReadUsesCache | src/main/java/com/atlassian/jira/plugin/ext/subversion/MultipleSubversionRepositoryManagerImpl.java:103-107 | before the expiry time a read is answered from the cached map, even if the store changed |
| RepositoryManagers.GetRepository | src/main/java/com/atlassian/jira/plugin/ext/subversion/MultipleSubversionRepositoryManagerImpl.java:248-250 | answered from the cached map alone; after a reset, from a fresh load |
| RepositoryManagers.GetRepositoryList | src/main/java/com/atlassian/jira/plugin/ext/subversion/MultipleSubversionRepositoryManagerImpl.java:244-246 | the managers of the cached map, loading it after a reset |
| RepositoryManagers.AfterPropertiesSet | src/main/java/com/atlassian/jira/plugin/ext/subversion/MultipleSubversionRepositoryManagerImpl.java:111-117 | the indexer exists afterwards and nothing else changes |
| RepositoryManagers.IndexingAfterPropertiesSet | src/main/java/com/atlassian/jira/plugin/ext/subversion/MultipleSubversionRepositoryManagerImpl.java:236-238 | the plugin indexes revisions exactly once afterPropertiesSet has run |
| RepositoryManagers.OnStart | src/main/java/com/atlassian/jira/plugin/ext/subversion/MultipleSubversionRepositoryManagerImpl.java:119-129 | the indexer is started only when there is one; a start failure is logged, not thrown |
| RepositoryManagers.CreateRepository | src/main/java/com/atlassian/jira/plugin/ext/subversion/MultipleSubversionRepositoryManagerImpl.java:184-207 | allocates last.repo.id + 1 under the lock; succeeds exactly when the manager is built and any local index add succeeds; the manager reads the stored set |
| RepositoryManagers.CreateStepOrder | src/main/java/com/atlassian/jira/plugin/ext/subversion/MultipleSubversionRepositoryManagerImpl.java:198-206 | after allocation: cache reset, then broadcast and local add only when indexing |
| RepositoryManagers.CreateKeepsOthers | src/main/java/com/atlassian/jira/plugin/ext/subversion/MultipleSubversionRepositoryManagerImpl.java:210-213 | no other repository's stored properties change |
| RepositoryManagers.MadeWhenBoxedFieldsGiven | src/main/java/com/atlassian/jira/plugin/ext/subversion/MultipleSubversionRepositoryManagerImpl.java:210-213 | the manager is built exactly when both boxed fields are given and construction accepts the filled set |
| RepositoryManagers.CreateAllocatesFreshId | src/main/java/com/atlassian/jira/plugin/ext/subversion/MultipleSubversionRepositoryManagerImpl.java:190-196 | successive creations hand out consecutive ids, none already loaded |
| RepositoryManagers.CreateThenGet | src/main/java/com/atlassian/jira/plugin/ext/subversion/MultipleSubversionRepositoryManagerImpl.java:184-250 | a repository created successfully is what the registry answers for its id afterwards |
| RepositoryManagers.UpdateRepository | src/main/java/com/atlassian/jira/plugin/ext/subversion/MultipleSubversionRepositoryManagerImpl.java:215-221 | fails for an unknown id; otherwise updates the manager and then resets the cache; the display name becomes the configured one |
| RepositoryManagers.UpdateThenGet | src/main/java/com/atlassian/jira/plugin/ext/subversion/MultipleSubversionRepositoryManagerImpl.java:215-250 | after an update the registry answers with the new display name, unless construction now rejects the set |
| RepositoryManagers.UpdateWritesStore | src/main/java/com/atlassian/jira/plugin/ext/subversion/MultipleSubversionRepositoryManagerImpl.java:215-221 | an update stores the filled set under the id and resets the cache |
| RepositoryManagers.RemoveRepository | src/main/java/com/atlassian/jira/plugin/ext/subversion/MultipleSubversionRepositoryManagerImpl.java:223-234 | broadcast, index removal, property removal, cache reset in that order; any failure leaves the store unchanged; other ids untouched |
| RepositoryManagers.RemoveThenGet | src/main/java/com/atlassian/jira/plugin/ext/subversion/MultipleSubversionRepositoryManagerImpl.java:223-250 | after removal the id is unknown and other ids answer as after a reload |
| RepositoryManagers.RemoveUsesRepositoryId | src/main/java/com/atlassian/jira/plugin/ext/subversion/MultipleSubversionRepositoryManagerImpl.java:228 | with a consistent cache the index entries removed are those of the id removed |
| IndexMessages.TypeOf | src/main/java/com/atlassian/jira/plugin/ext/subversion/messages/DefaultIndexMessageService.java:110 | a type is recognised exactly from its constant's name |
| IndexMessages.CreateMessage | src/main/java/com/atlassian/jira/plugin/ext/subversion/messages/DefaultIndexMessageService.java:123-125 | the message splits on the separator into exactly the type name and the printed id |
| IndexMessages.Parse | src/main/java/com/atlassian/jira/plugin/ext/subversion/messages/DefaultIndexMessageService.java:127-138 | blank messages and malformed ones are rejected; otherwise the first token is a type name and the second is non-blank |
| IndexMessages.SplitTwo | src/main/java/com/atlassian/jira/plugin/ext/subversion/messages/DefaultIndexMessageService.java:132 | splitting a two-token message gives its two tokens |
| IndexMessages.SplitLeading | src/main/java/com/atlassian/jira/plugin/ext/subversion/messages/DefaultIndexMessageService.java:132 | the first two tokens survive whatever follows |
| IndexMessages.TypeNameShape | src/main/java/com/atlassian/jira/plugin/ext/subversion/messages/DefaultIndexMessageService.java:123-125 | type names hold no separator and are not blank |
| IndexMessages.IdShape | src/main/java/com/atlassian/jira/plugin/ext/subversion/messages/DefaultIndexMessageService.java:123-125 | a printed id holds no separator and is not blank |
| IndexMessages.ParseCreate | src/main/java/com/atlassian/jira/plugin/ext/subversion/messages/DefaultIndexMessageService.java:123-138 | every message the service sends parses back to its type and printed id |
| IndexMessages.ParseIgnoresTrailingTokens | src/main/java/com/atlassian/jira/plugin/ext/subversion/messages/DefaultIndexMessageService.java:132-137 | tokens after the second are ignored |
| IndexMessages.ParseRejectsMissingToken | src/main/java/com/atlassian/jira/plugin/ext/subversion/messages/DefaultIndexMessageService.java:133-135 | a message without a separator, or with an empty first token, is rejected |
| IndexMessages.NeedsReset | src/main/java/com/atlassian/jira/plugin/ext/subversion/messages/DefaultIndexMessageService.java:147-151 | a reset exactly when the map the cached reference returns lacks the repository; that map is never null |
| IndexMessages.NeedsResetLoadsOnDemand | src/main/java/com/atlassian/jira/plugin/ext/subversion/messages/DefaultIndexMessageService.java:147-151 | a loaded map is reset exactly when it lacks the repository; an unloaded one is loaded from the store first and reset exactly when the store has no usable repository under the id |
| IndexMessages.IndexAction | src/main/java/com/atlassian/jira/plugin/ext/subversion/messages/DefaultIndexMessageService.java:42-54 | an add message indexes and a remove message deletes, both for the id carried |
| IndexMessages.Receive | src/main/java/com/atlassian/jira/plugin/ext/subversion/messages/DefaultIndexMessageService.java:87-101 | other channels are ignored; unparsable messages rejected; a non-numeric id throws; otherwise the cache is reset exactly when the map the cached reference returns lacks the repository, before the index action |
| IndexMessages.ReceiveCreated | src/main/java/com/atlassian/jira/plugin/ext/subversion/messages/DefaultIndexMessageService.java:42-66 | a sent add or remove message triggers its index action for that id, after a cache reset when needed |
| IndexMessages.ReceiveKnownRepository | src/main/java/com/atlassian/jira/plugin/ext/subversion/messages/DefaultIndexMessageService.java:147-151 | a node whose map knows the repository does not reset the cache |
| LinkRenderers.KeepUsable | src/main/java/com/atlassian/jira/plugin/ext/subversion/linkrenderer/LinkFormatRenderer.java:31-61 | a template is kept exactly when it is set and not blank |
| LinkRenderers.NewLinkFormatRenderer | src/main/java/com/atlassian/jira/plugin/ext/subversion/linkrenderer/LinkFormatRenderer.java:28-65 | without a configuration no template is kept; otherwise each usable template and only those |
| LinkRenderers.BlankFormatUnusable | src/main/java/com/atlassian/jira/plugin/ext/subversion/linkrenderer/LinkFormatRenderer.java:32-33 | a template of spaces and control characters only is never used |
| LinkRenderers.NormalisePath | src/main/java/com/atlassian/jira/plugin/ext/subversion/linkrenderer/LinkFormatRenderer.java:109-111 | a non-empty path gets a leading '/' when it lacks one; null and empty paths stay |
| LinkRenderers.LinkPath | src/main/java/com/atlassian/jira/plugin/ext/subversion/linkrenderer/LinkFormatRenderer.java:107-129 | without a template the normalised path; with one, an anchor to the substituted target whose text is the path |
| LinkRenderers.Href | src/main/java/com/atlassian/jira/plugin/ext/subversion/linkrenderer/LinkFormatRenderer.java:116-121 | a template without a dollar sign is the target unchanged |
| LinkRenderers.HrefNoDollar | src/main/java/com/atlassian/jira/plugin/ext/subversion/linkrenderer/LinkFormatRenderer.java:116-121 | no substitution applies to a template without a dollar sign |
| LinkRenderers.ChangeFormat | src/main/java/com/atlassian/jira/plugin/ext/subversion/linkrenderer/LinkFormatRenderer.java:77-93 | each change letter selects its template; an unknown letter uses the replaced one |
| LinkRenderers.ChangePathLink | src/main/java/com/atlassian/jira/plugin/ext/subversion/linkrenderer/LinkFormatRenderer.java:77-93 | the path link renders the change path with the template of its change letter |
| LinkRenderers.CopySrcLink | src/main/java/com/atlassian/jira/plugin/ext/subversion/linkrenderer/LinkFormatRenderer.java:67-71 | the copy source is rendered with the path template and the copy-from path |
| LinkRenderers.RevisionLink | src/main/java/com/atlassian/jira/plugin/ext/subversion/linkrenderer/LinkFormatRenderer.java:95-105 | '#n' plain, or as an anchor into the changeset template with ${rev} replaced |
| LinkRenderers.NullRevisionLink | src/main/java/com/atlassian/jira/plugin/ext/subversion/linkrenderer/NullLinkRenderer.java:16-18 | the plain revision link reads back as the revision number |
| LinkRenderers.ParseLongOfIntToStringIfLong | src/main/java/com/atlassian/jira/plugin/ext/subversion/linkrenderer/NullLinkRenderer.java:16-18 | a 64-bit revision printed in decimal parses back |
| LinkRenderers.NullChangePathLink | src/main/java/com/atlassian/jira/plugin/ext/subversion/linkrenderer/NullLinkRenderer.java:20-22 | the path exactly as reported |
| LinkRenderers.NullCopySrcLink | src/main/java/com/atlassian/jira/plugin/ext/subversion/linkrenderer/NullLinkRenderer.java:24-26 | the copy-from path, ' #' and the copy-from revision |
| LinkRenderers.RenderRevision | src/main/java/com/atlassian/jira/plugin/ext/subversion/linkrenderer/SubversionLinkRenderer.java:12-13 | the null renderer prints the revision; a renderer without a changeset template gives '#' and the revision |
| LinkRenderers.RenderChangePath | src/main/java/com/atlassian/jira/plugin/ext/subversion/linkrenderer/SubversionLinkRenderer.java:15 | the null renderer gives the bare path; the format renderer links the path with the template of the change type |
| LinkRenderers.RenderCopySrc | src/main/java/com/atlassian/jira/plugin/ext/subversion/linkrenderer/SubversionLinkRenderer.java:17 | the null renderer gives the copy path and ' #' and the copy revision; the format renderer answers null exactly when it has no path template and the path is null |
| LinkRenderers.NormalisePathIdempotent | src/main/java/com/atlassian/jira/plugin/ext/subversion/linkrenderer/LinkFormatRenderer.java:109-111 | at most one '/' is ever prepended |
| LinkRenderers.NoDollarNoPlaceholder | src/main/java/com/atlassian/jira/plugin/ext/subversion/linkrenderer/LinkFormatRenderer.java:118-121 | text without '$' contains no placeholder |
| LinkRenderers.HrefWithoutPlaceholders | src/main/java/com/atlassian/jira/plugin/ext/subversion/linkrenderer/LinkFormatRenderer.java:113-123 | a template without placeholders is used verbatim as the target of the link |
| LinkRenderers.NoDollarInNumber | src/main/java/com/atlassian/jira/plugin/ext/subversion/linkrenderer/LinkFormatRenderer.java:120-121 | printed numbers contain no '$', so substituted revisions are never rescanned as placeholders |
| LinkRenderers.RevisionLinkSubstitutes | src/main/java/com/atlassian/jira/plugin/ext/subversion/linkrenderer/LinkFormatRenderer.java:95-99 | a changeset template with one ${rev} links '#n' to the template with n substituted |
| LinkRenderers.ChangePathLinkDispatch | src/main/java/com/atlassian/jira/plugin/ext/subversion/linkrenderer/LinkFormatRenderer.java:82-92 | the four change letters select their own template; every other letter falls back to the replaced one |
| LinkRenderers.NullChangePathLinkIgnoresEntry | src/main/java/com/atlassian/jira/plugin/ext/subversion/linkrenderer/NullLinkRenderer.java:20-22 | the plain path link never depends on the commit |
| LinkRenderers.Examples | src/main/java/com/atlassian/jira/plugin/ext/subversion/linkrenderer/NullLinkRenderer.java:24-26 | examples of path normalisation and of the plain copy-source text |
| TextReplace.ReplaceAllAbsent | src/main/java/com/atlassian/jira/plugin/ext/subversion/linkrenderer/LinkFormatRenderer.java:98 | a text without the pattern comes back unchanged |
| TextReplace.ReplaceAll | src/main/java/com/atlassian/jira/plugin/ext/subversion/linkrenderer/LinkFormatRenderer.java:98 | replacing a pattern by itself changes nothing |
| TextReplace.ReplaceAllFirstOccurrence | src/main/java/com/atlassian/jira/plugin/ext/subversion/linkrenderer/LinkFormatRenderer.java:118-121 | the leftmost occurrence is replaced and the scan resumes after it |
| TextReplace.ReplaceAllCopiesPrefix | src/main/java/com/atlassian/jira/plugin/ext/subversion/linkrenderer/LinkFormatRenderer.java:118-121 | the text before the first occurrence is copied unchanged |
| TextReplace.ShiftOccurs | src/main/java/com/atlassian/jira/plugin/ext/subversion/linkrenderer/LinkFormatRenderer.java:118-121 | an occurrence in a text's tail is one position further in the text |
| RevisionActions.RewriteKey | src/main/java/com/atlassian/jira/plugin/ext/subversion/issuetabpanels/changes/SubversionRevisionAction.java:111-112 | rewriting a key keeps the message length |
| RevisionActions.RewriteKeys | src/main/java/com/atlassian/jira/plugin/ext/subversion/issuetabpanels/changes/SubversionRevisionAction.java:111-112 | rewriting all keys keeps the message length |
| RevisionActions.RewriteLogMessage | src/main/java/com/atlassian/jira/plugin/ext/subversion/issuetabpanels/changes/SubversionRevisionAction.java:106-115 | null stays null; the rewritten message has the original's length |
| RevisionActions.ToUpperIdempotent | src/main/java/com/atlassian/jira/plugin/ext/subversion/issuetabpanels/changes/SubversionRevisionAction.java:108 | upper-casing twice is upper-casing once |
| RevisionActions.CaseOnlyTransitive | src/main/java/com/atlassian/jira/plugin/ext/subversion/issuetabpanels/changes/SubversionRevisionAction.java:111-112 | differing only in case is transitive |
| RevisionActions.RewriteKeyCaseOnly | src/main/java/com/atlassian/jira/plugin/ext/subversion/issuetabpanels/changes/SubversionRevisionAction.java:111-112 | rewriting an upper-case key only upper-cases characters |
| RevisionActions.RewriteKeysCaseOnly | src/main/java/com/atlassian/jira/plugin/ext/subversion/issuetabpanels/changes/SubversionRevisionAction.java:106-115 | rewriting every key only changes the case of characters |
| RevisionActions.RewriteKeyUnchanged | src/main/java/com/atlassian/jira/plugin/ext/subversion/issuetabpanels/changes/SubversionRevisionAction.java:111-112 | text whose every case variant of the key already is the key comes back unchanged |
| RevisionActions.MatchesAtCaseOnly | src/main/java/com/atlassian/jira/plugin/ext/subversion/issuetabpanels/changes/SubversionRevisionAction.java:112 | case-insensitive matching sees the same positions in texts that differ only in case |
| RevisionActions.RewriteKeyIdempotent | src/main/java/com/atlassian/jira/plugin/ext/subversion/issuetabpanels/changes/SubversionRevisionAction.java:111-112 | rewriting an upper-case key twice is rewriting it once |
| RevisionActions.RewriteKeyFirstMatch | src/main/java/com/atlassian/jira/plugin/ext/subversion/issuetabpanels/changes/SubversionRevisionAction.java:112 | the leftmost case variant of the key is written as the key |
| RevisionActions.RewriteKeysUnchanged | src/main/java/com/atlassian/jira/plugin/ext/subversion/issuetabpanels/changes/SubversionRevisionAction.java:106-115 | a message whose keys already appear only in upper case is left exactly as it was |
| RevisionActions.NewRevisionAction | src/main/java/com/atlassian/jira/plugin/ext/subversion/issuetabpanels/changes/SubversionRevisionAction.java:36-48 | the entry is copied with only its message rewritten, and the repository id kept |
| RevisionActions.ActionMessageCaseOnly | src/main/java/com/atlassian/jira/plugin/ext/subversion/issuetabpanels/changes/SubversionRevisionAction.java:41-46 | the shown message differs from the commit's only in the case of some characters |
| RevisionActions.TimePerformed | src/main/java/com/atlassian/jira/plugin/ext/subversion/issuetabpanels/changes/SubversionRevisionAction.java:63-68 | the commit date, or an error exactly when it has none |
| RevisionActions.ChangeTypesExclusive | src/main/java/com/atlassian/jira/plugin/ext/subversion/issuetabpanels/changes/SubversionRevisionAction.java:82-96 | the change-type tests are exclusive and one holds exactly for A, M, R and D |
| TabPanels.PageParameter | src/main/java/com/atlassian/jira/plugin/ext/subversion/issuetabpanels/changes/SubversionRevisionsTabPanel.java:178-198 | a blank or absent parameter gives the default; otherwise the parsed int, or a NumberFormatException |
| TabPanels.PageParameterOfIntToString | src/main/java/com/atlassian/jira/plugin/ext/subversion/issuetabpanels/changes/SubversionRevisionsTabPanel.java:178-198 | a page parameter written in decimal is read back exactly |
| TabPanels.Flatten | src/main/java/com/atlassian/jira/plugin/ext/subversion/issuetabpanels/changes/SubversionRevisionsTabPanel.java:80-84 | one item per commit over all repositories |
| TabPanels.FlattenInsert | src/main/java/com/atlassian/jira/plugin/ext/subversion/issuetabpanels/changes/SubversionRevisionsTabPanel.java:80-84 | filing one more commit adds exactly that commit to the flattened list |
| TabPanels.FlattenGroup | src/main/java/com/atlassian/jira/plugin/ext/subversion/issuetabpanels/changes/SubversionRevisionsTabPanel.java:80-84 | the flattened grouping holds exactly the hits' commits, as a multiset |
| TabPanels.FlattenGroupMissing | src/main/java/com/atlassian/jira/plugin/ext/subversion/revisions/RevisionIndexer.java:604-613 | a commit kept as null in the version query's items is still null in the flattened map |
| TabPanels.FlattenGroupPresent | src/main/java/com/atlassian/jira/plugin/ext/subversion/issuetabpanels/changes/SubversionRevisionsTabPanel.java:80-84 | grouping and flattening commits that are all non-null gives commits that are all non-null |
| TabPanels.ShowPanel | src/main/java/com/atlassian/jira/plugin/ext/subversion/issuetabpanels/changes/SubversionRevisionsTabPanel.java:213-217 | shown only while indexing, and then exactly when the user may view version control |
| IssueTabPanels.Actions | src/main/java/com/atlassian/jira/plugin/ext/subversion/issuetabpanels/changes/SubversionRevisionsTabPanel.java:80-84 | none exactly when a commit is null; otherwise one action per commit in order |
| IssueTabPanels.Commits | src/main/java/com/atlassian/jira/plugin/ext/subversion/issuetabpanels/changes/SubversionRevisionsTabPanel.java:80-84 | one commit item per action, in order |
| IssueTabPanels.MarkPage | src/main/java/com/atlassian/jira/plugin/ext/subversion/issuetabpanels/changes/SubversionRevisionsTabPanel.java:89-114 | with more actions than the page size the first is dropped and the new first becomes the marker rebuilt from its commit; a single action leaves nothing to mark and throws |
| IssueTabPanels.Render | src/main/java/com/atlassian/jira/plugin/ext/subversion/issuetabpanels/changes/SubversionRevisionsTabPanel.java:73-117 | the query's runtime exception propagates; null gives the no-index message and an empty map the no-entries message; messages appear only then |
| TabPanels.PageStart | src/main/java/com/atlassian/jira/plugin/ext/subversion/issuetabpanels/changes/SubversionRevisionsTabPanel.java:68 | the first hit of a page is a 32-bit int, equal to page index times page size whenever that product fits in an int |
| IssueTabPanels.GetActions | src/main/java/com/atlassian/jira/plugin/ext/subversion/issuetabpanels/changes/SubversionRevisionsTabPanel.java:58-125 | a malformed page parameter throws; with well-formed ones a caught index failure gives exactly the empty list; no index gives the no-index message |
| IssueTabPanels.GetActionsRenders | src/main/java/com/atlassian/jira/plugin/ext/subversion/issuetabpanels/changes/SubversionRevisionsTabPanel.java:58-125 | with well-formed page parameters and no caught failure, the tab is the issue query for pageSize + 1 hits from the page start, rendered |
| IssueTabPanels.IssueQueryHasNoNullEntry | src/main/java/com/atlassian/jira/plugin/ext/subversion/issuetabpanels/changes/SubversionRevisionsTabPanel.java:80-84 | the issue query's commits are never null, so actions can always be built |
| IssueTabPanels.IssueQueryBound | src/main/java/com/atlassian/jira/plugin/ext/subversion/issuetabpanels/changes/SubversionRevisionsTabPanel.java:66-71 | the issue query returns at most pageSize + 1 commits |
| IssueTabPanels.NoIndexMessage | src/main/java/com/atlassian/jira/plugin/ext/subversion/issuetabpanels/changes/SubversionRevisionsTabPanel.java:73-75 | without an index the tab shows the no-index message |
| IssueTabPanels.NoEntriesMessage | src/main/java/com/atlassian/jira/plugin/ext/subversion/issuetabpanels/changes/SubversionRevisionsTabPanel.java:76-78 | with no commits the tab shows the no-entries message |
| IssueTabPanels.RenderPartialPage | src/main/java/com/atlassian/jira/plugin/ext/subversion/issuetabpanels/changes/SubversionRevisionsTabPanel.java:86-92 | up to a page of commits is shown in reverse query order, unmarked |
| IssueTabPanels.RenderFullPage | src/main/java/com/atlassian/jira/plugin/ext/subversion/issuetabpanels/changes/SubversionRevisionsTabPanel.java:92-114 | a full extra commit drops the newest-last item and marks the new first, leaving exactly pageSize items |
| IssueTabPanels.MarkerKeepsCommit | src/main/java/com/atlassian/jira/plugin/ext/subversion/issuetabpanels/changes/SubversionRevisionsTabPanel.java:107-113 | the marker's message differs from the commit's only in case |
| IssueTabPanels.FullPage | src/main/java/com/atlassian/jira/plugin/ext/subversion/issuetabpanels/changes/SubversionRevisionsTabPanel.java:58-117 | for a whole request with more commits than the page size, the tab shows exactly pageSize items with the marker first |
| ProjectTabPanels.VersionParameter | src/main/java/com/atlassian/jira/plugin/ext/subversion/projecttabpanels/SubversionProjectTabPanel.java:193-209 | blank, absent or unparsable gives 0; otherwise the parsed long |
| ProjectTabPanels.VersionParameterRoundTrip | src/main/java/com/atlassian/jira/plugin/ext/subversion/projecttabpanels/SubversionProjectTabPanel.java:193-209 | a version written in decimal is read back, and selects all versions exactly when it is -1 |
| ProjectTabPanels.GarbledVersionIsNotAll | src/main/java/com/atlassian/jira/plugin/ext/subversion/projecttabpanels/SubversionProjectTabPanel.java:193-209 | a missing or garbled version parameter never selects all versions |
| ProjectTabPanels.SelectedVersion | src/main/java/com/atlassian/jira/plugin/ext/subversion/projecttabpanels/SubversionProjectTabPanel.java:104-111 | no version for -1; otherwise whatever the version manager finds |
| ProjectTabPanels.ProjectActions | src/main/java/com/atlassian/jira/plugin/ext/subversion/projecttabpanels/SubversionProjectTabPanel.java:165-184 | none exactly when a commit is null (the action's constructor throws); otherwise one action per commit in order, carrying its repository id and the entry with only its message rewritten |
| ProjectTabPanels.RecentCommits | src/main/java/com/atlassian/jira/plugin/ext/subversion/projecttabpanels/SubversionProjectTabPanel.java:150-180 | no index or a caught index failure gives no commits; otherwise the project query without a version and the version query with one: a lookup failure propagates, a null commit fails with a null entry exactly when the map holds one, and otherwise one action per commit in query order |
| ProjectTabPanels.Truncate | src/main/java/com/atlassian/jira/plugin/ext/subversion/projecttabpanels/SubversionProjectTabPanel.java:114-120 | more commits than the page size are cut to it and flagged; a negative page size throws IllegalArgumentException |
| ProjectTabPanels.GetHtml | src/main/java/com/atlassian/jira/plugin/ext/subversion/projecttabpanels/SubversionProjectTabPanel.java:87-131 | a malformed page parameter throws; the page shows at most pageSize commits; no version number for all versions, otherwise the number cast to int |
| ProjectTabPanels.GetHtmlPropagates | src/main/java/com/atlassian/jira/plugin/ext/subversion/projecttabpanels/SubversionProjectTabPanel.java:87-131 | with well-formed page parameters, an exception while collecting the commits (a failed lookup or a null entry) is the page's exception |
| ProjectTabPanels.GetHtmlTruncates | src/main/java/com/atlassian/jira/plugin/ext/subversion/projecttabpanels/SubversionProjectTabPanel.java:87-131 | with well-formed page parameters the page is the selected query's commits cut to the page size, with the version number cast to int |
| ProjectTabPanels.UrlPrefix | src/main/java/com/atlassian/jira/plugin/ext/subversion/projecttabpanels/SubversionProjectTabPanel.java:239-245 | 'browse' on a 6.3 build, 'projects' otherwise |
| ProjectTabPanels.PageIsPrefixOfQuery | src/main/java/com/atlassian/jira/plugin/ext/subversion/projecttabpanels/SubversionProjectTabPanel.java:114-120 | the page keeps the query's first commits in order and flags more exactly when one was cut |
| ProjectTabPanels.ProjectQueryHasNoNullEntry | src/main/java/com/atlassian/jira/plugin/ext/subversion/revisions/RevisionIndexer.java:511-515 | the project query drops a commit the server lacks, so building its actions never meets a null |
| ProjectTabPanels.VersionQueryNullIffMissing | src/main/java/com/atlassian/jira/plugin/ext/subversion/revisions/RevisionIndexer.java:604-613 | the version query's map holds a null exactly when some hit of the window names a revision its server does not have |
| ProjectTabPanels.ProjectPage | src/main/java/com/atlassian/jira/plugin/ext/subversion/projecttabpanels/SubversionProjectTabPanel.java:87-131 | for all versions the page never fails on a null entry and shows the project query's first commits, flagging more exactly when it returned the extra one |
| ProjectTabPanels.VersionPage | src/main/java/com/atlassian/jira/plugin/ext/subversion/projecttabpanels/SubversionProjectTabPanel.java:87-180 | for a known version, a null commit in that version's query makes the page throw; otherwise the page shows the query's first commits, flags more exactly when it returned the extra one, and carries the number cast to int |
| ProjectTabPanels.UnknownVersionShowsProject | src/main/java/com/atlassian/jira/plugin/ext/subversion/projecttabpanels/SubversionProjectTabPanel.java:104-111 | a version the version manager does not know shows the project query while the template still gets the number |
| SchedulerLaunchers.IsLifecycleReady | src/main/java/com/atlassian/jira/plugin/ext/subversion/revisions/scheduling/clustersafe/SchedulerLauncher.java:108-110 | the event is recorded; the answer is true exactly when it was new and completes the set |
| SchedulerLaunchers.RegisterService | src/main/java/com/atlassian/jira/plugin/ext/subversion/revisions/scheduling/clustersafe/SchedulerLauncher.java:120-133 | the service is added exactly when none of that name exists |
| SchedulerLaunchers.OnLifecycleEvent | src/main/java/com/atlassian/jira/plugin/ext/subversion/revisions/scheduling/clustersafe/SchedulerLauncher.java:84-93 | when the latch opens the listener is unregistered first; otherwise nothing happens; the service is added only then |
| SchedulerLaunchers.AfterPropertiesSetCall | src/main/java/com/atlassian/jira/plugin/ext/subversion/revisions/scheduling/clustersafe/SchedulerLauncher.java:51-55 | the listener is registered before the event is counted |
| SchedulerLaunchers.OnPluginEnabled | src/main/java/com/atlassian/jira/plugin/ext/subversion/revisions/scheduling/clustersafe/SchedulerLauncher.java:68-73 | only the enabling of this plugin counts |
| SchedulerLaunchers.Answers | src/main/java/com/atlassian/jira/plugin/ext/subversion/revisions/scheduling/clustersafe/SchedulerLauncher.java:108-110 | one answer per event |
| SchedulerLaunchers.SeenAfter | src/main/java/com/atlassian/jira/plugin/ext/subversion/revisions/scheduling/clustersafe/SchedulerLauncher.java:108-110 | the events seen only grow |
| SchedulerLaunchers.SeenAfterSnoc | src/main/java/com/atlassian/jira/plugin/ext/subversion/revisions/scheduling/clustersafe/SchedulerLauncher.java:108-110 | one more event adds it to the seen set |
| SchedulerLaunchers.AnswerIsCompletion | src/main/java/com/atlassian/jira/plugin/ext/subversion/revisions/scheduling/clustersafe/SchedulerLauncher.java:95-110 | the latch answers true exactly at the event that completes the set |
| SchedulerLaunchers.EveryEventCounted | src/main/java/com/atlassian/jira/plugin/ext/subversion/revisions/scheduling/clustersafe/SchedulerLauncher.java:140-144 | every event is one of the three |
| SchedulerLaunchers.CompleteStaysComplete | src/main/java/com/atlassian/jira/plugin/ext/subversion/revisions/scheduling/clustersafe/SchedulerLauncher.java:108-110 | once complete the set stays complete |
| SchedulerLaunchers.LatchOpensAtMostOnce | src/main/java/com/atlassian/jira/plugin/ext/subversion/revisions/scheduling/clustersafe/SchedulerLauncher.java:95-110 | over any run of events the latch opens at most once |
| SchedulerLaunchers.RepeatedEventNeverOpens | src/main/java/com/atlassian/jira/plugin/ext/subversion/revisions/scheduling/clustersafe/SchedulerLauncher.java:109 | an event already seen never opens the latch |
| SchedulerLaunchers.ThirdDistinctEventOpens | src/main/java/com/atlassian/jira/plugin/ext/subversion/revisions/scheduling/clustersafe/SchedulerLauncher.java:95-110 | any order of the three distinct events opens the latch on the third and only then |
| SchedulerLaunchers.OtherPluginIgnored | src/main/java/com/atlassian/jira/plugin/ext/subversion/revisions/scheduling/clustersafe/SchedulerLauncher.java:68-73 | another plugin's enabling leaves the latch unchanged |
| Timeouts.TrimOpt | src/main/java/com/atlassian/jira/plugin/ext/subversion/ISVNAuthenticationManagerDelegator.java:73-88 | null stays null |
| Timeouts.GetTimeout | src/main/java/com/atlassian/jira/plugin/ext/subversion/ISVNAuthenticationManagerDelegator.java:73-88 | blank after trimming gives the default; otherwise the parsed value when it is a non-negative int, else the default |
| Timeouts.ReadTimeout | src/main/java/com/atlassian/jira/plugin/ext/subversion/ISVNAuthenticationManagerDelegator.java:90-92 | never negative; two minutes when unset |
| Timeouts.ConnectTimeout | src/main/java/com/atlassian/jira/plugin/ext/subversion/ISVNAuthenticationManagerDelegator.java:94-96 | never negative; two minutes when unset |
| Timeouts.TimeoutNonNegative | src/main/java/com/atlassian/jira/plugin/ext/subversion/ISVNAuthenticationManagerDelegator.java:73-88 | a timeout is never negative when its default is not |
| Timeouts.TrimNoPadding | src/main/java/com/atlassian/jira/plugin/ext/subversion/ISVNAuthenticationManagerDelegator.java:76 | text without surrounding whitespace is unchanged by trimming |
| Timeouts.TimeoutOfIntToString | src/main/java/com/atlassian/jira/plugin/ext/subversion/ISVNAuthenticationManagerDelegator.java:73-88 | a non-negative int in decimal is used as is, 0 included |
| Timeouts.NegativeTimeoutIgnored | src/main/java/com/atlassian/jira/plugin/ext/subversion/ISVNAuthenticationManagerDelegator.java:73-88 | a negative value falls back to the default |
| Timeouts.TimeoutsIndependent | src/main/java/com/atlassian/jira/plugin/ext/subversion/ISVNAuthenticationManagerDelegator.java:23-29 | the two timeouts read different properties |
| PropertiesLoaders.Suffix | src/main/java/com/atlassian/jira/plugin/ext/subversion/SvnPropertiesLoader.java:56-59 | no suffix for the default repository, otherwise '.' and the number |
| PropertiesLoaders.SuffixInjective | src/main/java/com/atlassian/jira/plugin/ext/subversion/SvnPropertiesLoader.java:56-59 | different repositories have different key suffixes |
| PropertiesLoaders.Get | src/main/java/com/atlassian/jira/plugin/ext/subversion/SvnPropertiesLoader.java:62-73 | the value of the suffixed key, null when unset |
| PropertiesLoaders.GetSubversionProperty | src/main/java/com/atlassian/jira/plugin/ext/subversion/SvnPropertiesLoader.java:55-101 | null exactly when the root key is missing; a present cache size that does not parse throws |
| PropertiesLoaders.ReadRepository | src/main/java/com/atlassian/jira/plugin/ext/subversion/SvnPropertiesLoader.java:61-95 | the root is the suffixed root key's value; link type and view format are never read |
| PropertiesLoaders.RepositoryFields | src/main/java/com/atlassian/jira/plugin/ext/subversion/SvnPropertiesLoader.java:61-95 | each field is its suffixed key's value; indexing is whether the value is 'true' in any case, set only when present; link type and view format are never read |
| PropertiesLoaders.RootKeys | src/main/java/com/atlassian/jira/plugin/ext/subversion/SvnPropertiesLoader.java:61 | the root keys of repositories 1 to n |
| PropertiesLoaders.RootKeysOnly | src/main/java/com/atlassian/jira/plugin/ext/subversion/SvnPropertiesLoader.java:61 | those are the only keys in the set |
| PropertiesLoaders.RootKeysCount | src/main/java/com/atlassian/jira/plugin/ext/subversion/SvnPropertiesLoader.java:56-61 | n repositories have n distinct root keys |
| PropertiesLoaders.Pigeonhole | src/main/java/com/atlassian/jira/plugin/ext/subversion/SvnPropertiesLoader.java:40-50 | the loop reaches a missing root within as many steps as the file has keys |
| PropertiesLoaders.SubsetCard | src/main/java/com/atlassian/jira/plugin/ext/subversion/SvnPropertiesLoader.java:40-50 | a subset is no larger than its superset |
| PropertiesLoaders.GetReadsRoots | src/main/java/com/atlassian/jira/plugin/ext/subversion/SvnPropertiesLoader.java:55-101 | `getSubversionProperty` answers `null` exactly for a number whose root key is missing |
| PropertiesLoaders.LoadFrom | src/main/java/com/atlassian/jira/plugin/ext/subversion/SvnPropertiesLoader.java:40-50 | each repository read has its root key present, and the loop stops at the first missing number |
| PropertiesLoaders.LoadFromFails | src/main/java/com/atlassian/jira/plugin/ext/subversion/SvnPropertiesLoader.java:40-50 | the loop fails exactly when some repository read before the first missing root fails, and then with that read's error |
| PropertiesLoaders.GetSvnPropertiesSucceeds | src/main/java/com/atlassian/jira/plugin/ext/subversion/SvnPropertiesLoader.java:32-53 | loading succeeds exactly when the default root is set and every cache size up to the first missing root parses; a failure is the missing default root or else a bad cache size |
| PropertiesLoaders.LoadSvnProperties | src/main/java/com/atlassian/jira/plugin/ext/subversion/SvnPropertiesLoader.java:23-53 | an unreadable file throws an InfrastructureException and a missing one a NullPointerException; a loaded file's keys override the system properties, so the default repository's root is the file's when it sets one; no default root anywhere throws |
| PropertiesLoaders.GetSvnProperties | src/main/java/com/atlassian/jira/plugin/ext/subversion/SvnPropertiesLoader.java:32-53 | no default root throws; otherwise the default first, then repositories 1, 2, ... up to the first missing number |
| PropertiesLoaders.LoadFromEntries | src/main/java/com/atlassian/jira/plugin/ext/subversion/SvnPropertiesLoader.java:42-48 | each numbered repository returned is what the loop read for that number, filled in from the default |
| PropertiesLoaders.LoadedRepositories | src/main/java/com/atlassian/jira/plugin/ext/subversion/SvnPropertiesLoader.java:23-53 | repository n of the list is the file's entry for n filled in from the default |
| PropertiesLoaders.CacheSizeRoundTrip | src/main/java/com/atlassian/jira/plugin/ext/subversion/SvnPropertiesLoader.java:78-81 | a cache size written in decimal is read back as the number |
| PropertiesLoaders.IndexingFlag | src/main/java/com/atlassian/jira/plugin/ext/subversion/SvnPropertiesLoader.java:74-77 | the indexing flag is on exactly for 'true' in any case |
| RepositoryLists.DefaultString | src/main/java/com/atlassian/jira/plugin/ext/subversion/action/ViewSubversionRepositoriesAction.java:19-21 | null reads as the empty string |
| RepositoryLists.CompareTo | src/main/java/com/atlassian/jira/plugin/ext/subversion/action/ViewSubversionRepositoriesAction.java:19-21 | zero exactly for equal strings |
| RepositoryLists.CompareToFirstDifference | src/main/java/com/atlassian/jira/plugin/ext/subversion/action/ViewSubversionRepositoriesAction.java:19-21 | at the first difference the result is the difference of the characters |
| RepositoryLists.CompareToPrefix | src/main/java/com/atlassian/jira/plugin/ext/subversion/action/ViewSubversionRepositoriesAction.java:19-21 | when one string prefixes the other the result is the difference of the lengths |
| RepositoryLists.CompareToAntisymmetric | src/main/java/com/atlassian/jira/plugin/ext/subversion/action/ViewSubversionRepositoriesAction.java:19-21 | swapping the arguments negates the result |
| RepositoryLists.CompareToTransitive | src/main/java/com/atlassian/jira/plugin/ext/subversion/action/ViewSubversionRepositoriesAction.java:16-23 | the order the comparator induces is transitive |
| RepositoryLists.CompareToStrictTransitive | src/main/java/com/atlassian/jira/plugin/ext/subversion/action/ViewSubversionRepositoriesAction.java:16-23 | strictly below then at most gives strictly below |
| RepositoryLists.Insert | src/main/java/com/atlassian/jira/plugin/ext/subversion/action/ViewSubversionRepositoriesAction.java:31 | inserting adds exactly the one element |
| RepositoryLists.SortBy | src/main/java/com/atlassian/jira/plugin/ext/subversion/action/ViewSubversionRepositoriesAction.java:31 | the sorted copy is a permutation of the list |
| RepositoryLists.InsertSorted | src/main/java/com/atlassian/jira/plugin/ext/subversion/action/ViewSubversionRepositoriesAction.java:31 | inserting into a sorted list keeps it sorted |
| RepositoryLists.SortSorted | src/main/java/com/atlassian/jira/plugin/ext/subversion/action/ViewSubversionRepositoriesAction.java:31 | the copy is sorted by the comparator |
| RepositoryLists.WithKey | src/main/java/com/atlassian/jira/plugin/ext/subversion/action/ViewSubversionRepositoriesAction.java:31 | only elements with the key, no more than the list has |
| RepositoryLists.WithKeyAppend | src/main/java/com/atlassian/jira/plugin/ext/subversion/action/ViewSubversionRepositoriesAction.java:31 | selecting by key distributes over concatenation |
| RepositoryLists.WithKeyNone | src/main/java/com/atlassian/jira/plugin/ext/subversion/action/ViewSubversionRepositoriesAction.java:31 | a list without the key has no elements with it |
| RepositoryLists.InsertStable | src/main/java/com/atlassian/jira/plugin/ext/subversion/action/ViewSubversionRepositoriesAction.java:31 | an inserted element lands after every element with the same key |
| RepositoryLists.SortStable | src/main/java/com/atlassian/jira/plugin/ext/subversion/action/ViewSubversionRepositoriesAction.java:31 | the sort is stable: elements with equal names keep their order |
| RepositoryLists.SortStableAll | src/main/java/com/atlassian/jira/plugin/ext/subversion/action/ViewSubversionRepositoriesAction.java:31 | stability for every name at once |
| RepositoryLists.DisplayKey | src/main/java/com/atlassian/jira/plugin/ext/subversion/action/ViewSubversionRepositoriesAction.java:19-21 | the display name, or empty when there is none |
| RepositoryLists.GetRepositories | src/main/java/com/atlassian/jira/plugin/ext/subversion/action/ViewSubversionRepositoriesAction.java:29-33 | a permutation of the repository list, sorted by display name, with equally named repositories in their original order |
| RepositoryLists.NameOrder | src/main/java/com/atlassian/jira/plugin/ext/subversion/action/ViewSubversionRepositoriesAction.java:16-31 | a repository whose name compares below another's is listed first |
| RepositoryLists.UnnamedFirst | src/main/java/com/atlassian/jira/plugin/ext/subversion/action/ViewSubversionRepositoriesAction.java:19-31 | repositories without a display name are listed before every named one |

## Left out

- Lucene itself: the index is a sequence of documents, and a query is given by the documents
  it hits in Lucene's order (`projectHits`, `versionHits`). Scoring, analysers, the boolean
  clause limit and the sort implementation are outside the model.
- SVNKit: the repository server is a history of log entries plus failure oracles. Sessions,
  authentication and the wire protocol are not modelled.
- JIRA services are oracles: permissions, issue and version managers, the index path, the
  property-set factory and the message transport. Their answers are parameters. The cluster
  lock that `createRepository` takes around the id allocation is an event of its trace
  (`RepositoryManagers.CreateRepository`); mutual exclusion between nodes is not modelled.
- The LRU eviction of the log-entry cache: the cache is a map. Its capacity is modelled
  (`SubversionManagers.CacheCapacity`) but eviction is not.
- Iteration order of Java `HashSet` and `HashMap`: the order of repositories in a pass and in
  the registry's list is an input sequence.
- Logging, and the `ApplicationProperties`, Velocity and web-resource plumbing of the tabs.
  The Velocity parameter maps are reduced to the values they carry (`ProjectTabPanels.Page`).
- `SubversionProjectRevisionAction` and the HTML templates: a project action is the issue tab's
  action built by the same constructor (`ProjectTabPanels.ProjectActions`). Its descriptor and
  its rendering are not modelled.
- `RepositoryManagers.Cached`: reads no clock. The 30-minute `expireAfterAccess` of the cached
  reference is the separate step `RepositoryManagers.Expire`, taken with the idle time as a
  parameter. The exact instant at which the cache provider drops the map is not modelled.
- `PropertiesLoaders.LoadSvnProperties`: a file that fails part-way leaves its earlier keys in
  the JVM's system properties. The model keeps no system properties across calls, so that
  residue is not modelled.
- `PropertySets`: a stored value of the wrong type, which makes the Java property set throw,
  is not modelled. Values are stored and read back with their own type.
- `PropertiesLoaders.LoadFrom`: the loader's `int` loop counter cannot reach 2^31 in the
  model. Termination follows from the finite property file, so the wrap-around is not
  modelled.
- `Passwords.CharsetEncode`: the platform charset is taken to be ASCII, with other characters
  written as '?'. `Passwords.DecryptEncrypt` is therefore stated for ASCII passwords only.
- `RevisionActions.RewriteKey`: `toUpperCase` and `equalsIgnoreCase` fold ASCII letters only.
  Locale-dependent and non-ASCII case mappings are not modelled.
- `RevisionIndexers.EnsureIndex`: the file system is an oracle. Whether JIRA gives an index
  path (`indexPathSet`) and whether creating the directory fails are parameters. A set path
  whose directory was removed behind the plugin's back is not modelled.
- `IndexMessages.Receive`: the message's id is read with `JavaLang.ParseLong`, so an id
  written with non-ASCII Unicode digits, which `Long.valueOf` accepts, is rejected by the model.
  Two messages handled at once on one node are not modelled.
- `JavaLang.ParseInt`, `JavaLang.ParseLong`: only ASCII digits are read. Java's `parseInt` and
  `parseLong` also accept the decimal digits of other Unicode scripts, which the model treats as
  a NumberFormatException.
- `TabPanels.PageParameter`: rests on `JavaLang.ParseInt`, so a page parameter written in
  non-ASCII Unicode digits gives a NumberFormatException in the model but a number in Java.
- `ProjectTabPanels.VersionParameter`: rests on `JavaLang.ParseLong`, so a version written in
  non-ASCII Unicode digits selects version 0 in the model but that version in Java.
- `Timeouts.GetTimeout`: rests on `JavaLang.ParseInt`, so a timeout written in non-ASCII Unicode
  digits falls back to the default in the model.
- `PropertiesLoaders.GetSubversionProperty`: rests on `JavaLang.ParseInt`, so a cache size
  written in non-ASCII Unicode digits throws in the model but is read in Java.
- `RepositoryLists.CompareTo`: compares the strings' characters as Unicode scalar values.
  Java's `compareTo` compares UTF-16 code units, which orders characters above U+FFFF below
  those between U+E000 and U+FFFF; that difference is not modelled.
- `RepositoryLists.GetRepositories`: sorts with `RepositoryLists.CompareTo`, so names that mix
  supplementary characters with characters from U+E000 to U+FFFF may be listed in another
  order than Java's.
- `Queries.Fetch`: a lookup's effect on its manager (the entry cached, or the manager
  deactivated after a server failure) is not carried back into the registry, neither for
  the later hits of the same query nor for later queries. Each hit is answered by the
  manager as it stood when the query began.
- `getRevisionIndexer` returning `null` before `afterPropertiesSet` is modelled only in the
  registry (`RepositoryManagers.OnStart`). The tabs assume the indexer exists.
- `ProjectTabPanels.GetHtml`: the `showPanel` short-circuit and the Velocity rendering are not
  modelled. The page computed is the template's input.
- `SchedulerLaunchers.RegisterService`: every exception inside `registerService` is logged.
  Such a failure shows only as a missing `AddService` effect.
