/**
 * The project's Subversion tab (`SubversionProjectTabPanel.getHtml`): the recent commits of
 * the project, or of one of its versions, one page at a time, with a flag telling the page
 * whether a further page exists.
 */
module ProjectTabPanels {
  import opened Wrappers
  import opened JavaLang
  import opened SvnLog
  import opened Documents
  import SM = SubversionManagers
  import opened Queries
  import opened RevisionActions
  import opened TabPanels
  import IssueTabPanels

  /** The version number that asks for the commits of all versions. */
  const ALL_VERSIONS: int := -1

  /** `getVersionRequestParameter`: a blank or absent parameter, or one `Long.parseLong`
      rejects, is logged and gives 0. */
  function VersionParameter(param: Option<string>): (r: int)
    ensures IsBlankOpt(param) ==> r == 0
    ensures !IsBlankOpt(param) && ParseLong(param.value).None? ==> r == 0
    ensures !IsBlankOpt(param) && ParseLong(param.value).Some? ==> r == ParseLong(param.value).value
  {
    if IsBlankOpt(param) then 0
    else match ParseLong(param.value)
      case None => 0
      case Some(n) => n
  }

  /** Only a parameter that parses to -1 selects all versions; a version number written in
      decimal is read back exactly. */
  lemma VersionParameterRoundTrip(n: int)
    requires IsLong(n)
    ensures VersionParameter(Some(IntToString(n))) == n
    ensures VersionParameter(Some(IntToString(n))) == ALL_VERSIONS <==> n == -1
  {
    ParseLongOfIntToString(n);
    IntToStringShape(n);
    var s := IntToString(n);
    assert !IsWhitespace(s[|s| - 1]);
  }

  /** A missing or garbled version parameter selects version 0, not all versions. */
  lemma GarbledVersionIsNotAll(param: Option<string>)
    requires IsBlankOpt(param) || ParseLong(param.value).None?
    ensures VersionParameter(param) != ALL_VERSIONS
  {
  }

  /** The version a number selects: none for `ALL_VERSIONS`, otherwise whatever the version
      manager (`lookup`) finds for it, which may be nothing. */
  function SelectedVersion(versionNumber: int, lookup: int -> Option<int>): (v: Option<int>)
    ensures versionNumber == ALL_VERSIONS ==> v.None?
    ensures versionNumber != ALL_VERSIONS ==> v == lookup(versionNumber)
  {
    if versionNumber != ALL_VERSIONS then lookup(versionNumber) else None
  }

  /** The flattened commits as project actions (`SubversionProjectRevisionAction`), in order.
      A project action is built by the issue tab's action constructor, which copies the entry
      with its message rewritten; a `null` commit makes that constructor throw (`None`). */
  function ProjectActions(o: KeyOracle, flat: seq<(int, Option<LogEntry>)>): (r: Option<seq<RevisionAction>>)
    ensures r.Some? <==> forall i :: 0 <= i < |flat| ==> flat[i].1.Some?
    ensures r.Some? ==> |r.value| == |flat|
    ensures r.Some? ==> forall i :: 0 <= i < |flat| ==>
              && r.value[i].repoId == flat[i].0
              && r.value[i].revision.(message := flat[i].1.value.message) == flat[i].1.value
              && r.value[i] == NewRevisionAction(o, flat[i].1.value, flat[i].0)
  {
    IssueTabPanels.Actions(o, flat)
  }

  /** A result shows a query's outcome: a failed query is a lookup error, a `null` map gives
      no commits, a map holding a `null` commit fails with a null entry, and otherwise there
      is one action per commit, repository by repository, in the map's order. */
  predicate Shows(o: KeyOracle, r: Result<seq<RevisionAction>, PanelError>, q: QueryResult) {
    && (q.Err? ==> r == Err(LookupError))
    && (q.Ok? && q.value.None? ==> r == Ok([]))
    && (q.Ok? && q.value.Some? ==>
          var flat := Flatten(q.value.value);
          && (r.Ok? <==> forall i :: 0 <= i < |flat| ==> flat[i].1.Some?)
          && (r.Err? ==> r.error == NullEntry)
          && (r.Ok? ==> && |r.value| == Total(q.value.value)
                        && forall i :: 0 <= i < |r.value| ==> r.value[i] == NewRevisionAction(o, flat[i].1.value, flat[i].0)))
  }

  /** `getRecentCommits`: the project query when no version is selected, the version query
      otherwise; `projectHits` and `versionHits` are what those queries see. A `null` or empty
      result and a caught IndexException or IOException (`indexFails`) give no commits; the
      runtime exceptions of a lookup and of a `null` commit's action propagate. */
  function RecentCommits(o: KeyOracle, index: Option<seq<Document>>, projectHits: Option<seq<Document>>,
                         versionHits: int -> Option<seq<Document>>, managers: map<int, SM.Manager>,
                         version: Option<int>, start: int, pageSize: int, indexFails: bool): (r: Result<seq<RevisionAction>, PanelError>)
    ensures index.None? ==> r == Ok([])
    ensures index.Some? && indexFails ==> r == Ok([])
    ensures r.Err? ==> r.error == LookupError || r.error == NullEntry
    ensures !(index.Some? && indexFails) && version.None? ==>
              Shows(o, r, ByProject(index, projectHits, managers, start, pageSize))
    ensures !(index.Some? && indexFails) && version.Some? ==>
              Shows(o, r, ByVersion(index, versionHits(version.value), managers, start, pageSize))
  {
    if index.Some? && indexFails then Ok([])
    else
      var q := if version.None? then ByProject(index, projectHits, managers, start, pageSize)
               else ByVersion(index, versionHits(version.value), managers, start, pageSize);
      match q
      case Err(_) => Err(LookupError)
      case Ok(None) => Ok([])
      case Ok(Some(g)) =>
        match ProjectActions(o, Flatten(g))
        case None => Err(NullEntry)
        case Some(actions) => Ok(actions)
  }

  /** What `getHtml` puts in the template: the commits, whether more are available, and the
      selected version number as the template sees it, cast to `int` (`None` when all
      versions are shown). */
  datatype Page = Page(commits: seq<RevisionAction>, moreAvailable: bool, versionNumber: Option<int>)

  /** Truncation to the page: with more than `pageSize` commits, the first `pageSize` are kept
      and `moreAvailable` is set. For a negative page size `subList(0, pageSize)` throws an
      IllegalArgumentException, its end lying before its start. */
  function Truncate(commits: seq<RevisionAction>, pageSize: int): (r: Result<(seq<RevisionAction>, bool), PanelError>)
    ensures |commits| <= pageSize ==> r == Ok((commits, false))
    ensures |commits| > pageSize ==> (r.Err? <==> pageSize < 0)
    ensures r.Err? ==> r.error == IllegalArgument
    ensures |commits| > pageSize && r.Ok? ==> r.value.1 && |r.value.0| == pageSize && r.value.0 <= commits
  {
    if |commits| > pageSize then
      if pageSize < 0 then Err(IllegalArgument) else Ok((commits[..pageSize], true))
    else Ok((commits, false))
  }

  /** `getHtml`, reduced to the values it computes: the version number is read first, then the
      page size and the page index; the query asks for `pageSize + 1` commits from
      `pageIndex * pageSize`, both in 32-bit arithmetic. The template receives the version
      number through an `(int)` cast, while the version lookup uses the full `long`. */
  function GetHtml(o: KeyOracle, versionParam: Option<string>, pageIndexParam: Option<string>, pageSizeParam: Option<string>,
                   lookup: int -> Option<int>, index: Option<seq<Document>>, projectHits: Option<seq<Document>>,
                   versionHits: int -> Option<seq<Document>>, managers: map<int, SM.Manager>,
                   indexFails: bool): (r: Result<Page, PanelError>)
    ensures PageParameter(pageSizeParam, NUMBER_OF_REVISIONS).Err? || PageParameter(pageIndexParam, FIRST_PAGE).Err?
            ==> r == Err(NumberFormat)
    ensures r.Ok? ==> (r.value.versionNumber.None? <==> VersionParameter(versionParam) == ALL_VERSIONS)
    ensures r.Ok? && r.value.versionNumber.Some? ==> r.value.versionNumber.value == Wrap32(VersionParameter(versionParam))
    ensures r.Ok? && PageParameter(pageSizeParam, NUMBER_OF_REVISIONS).Ok? ==>
              |r.value.commits| <= PageParameter(pageSizeParam, NUMBER_OF_REVISIONS).value
  {
    var versionNumber := VersionParameter(versionParam);
    var version := SelectedVersion(versionNumber, lookup);
    match PageParameter(pageSizeParam, NUMBER_OF_REVISIONS)
    case Err(e) => Err(e)
    case Ok(pageSize) =>
      match PageParameter(pageIndexParam, FIRST_PAGE)
      case Err(e) => Err(e)
      case Ok(pageIndex) =>
        match RecentCommits(o, index, projectHits, versionHits, managers, version,
                            PageStart(pageIndex, pageSize), Wrap32(pageSize + 1), indexFails)
        case Err(e) => Err(e)
        case Ok(recent) =>
          match Truncate(recent, pageSize)
          case Err(e) => Err(e)
          case Ok((commits, more)) =>
            Ok(Page(commits, more, if versionNumber != ALL_VERSIONS then Some(Wrap32(versionNumber)) else None))
  }

  /** `getUrlPrefix`: `browse` on a 6.3 build, `projects` on any other. */
  function UrlPrefix(buildVersion: string): (r: string)
    ensures r == "browse" <==> StartsWith(buildVersion, "6.3")
    ensures r == "projects" <==> !StartsWith(buildVersion, "6.3")
  {
    if StartsWith(buildVersion, "6.3") then "browse" else "projects"
  }

  // ---------------------------------------------------------------------------------------------
  // Properties of the page.

  /** The page keeps the commits in query order, repository by repository, and flags more
      exactly when a commit had to be cut. */
  lemma PageIsPrefixOfQuery(o: KeyOracle, g: Groups<Option<LogEntry>>, pageSize: int)
    requires pageSize >= 0
    requires ProjectActions(o, Flatten(g)).Some?
    ensures var all := ProjectActions(o, Flatten(g)).value;
            var t := Truncate(all, pageSize);
            && t.Ok?
            && t.value.1 == (Total(g) > pageSize)
            && |t.value.0| == (if Total(g) > pageSize then pageSize else Total(g))
            && forall i :: 0 <= i < |t.value.0| ==> t.value.0[i] == NewRevisionAction(o, Flatten(g)[i].1.value, Flatten(g)[i].0)
  {
  }

  /** With well-formed page parameters and the page end in range, the page is the selected
      query's commits truncated to the page size, with the version number cast to `int`. */
  lemma GetHtmlTruncates(o: KeyOracle, versionParam: Option<string>, pageIndexParam: Option<string>, pageSizeParam: Option<string>,
                         pageIndex: int, pageSize: int, lookup: int -> Option<int>, index: Option<seq<Document>>,
                         projectHits: Option<seq<Document>>, versionHits: int -> Option<seq<Document>>,
                         managers: map<int, SM.Manager>, all: seq<RevisionAction>)
    requires PageParameter(pageSizeParam, NUMBER_OF_REVISIONS) == Ok(pageSize)
    requires PageParameter(pageIndexParam, FIRST_PAGE) == Ok(pageIndex)
    requires 0 <= pageSize < INT_MAX
    requires RecentCommits(o, index, projectHits, versionHits, managers,
                           SelectedVersion(VersionParameter(versionParam), lookup),
                           PageStart(pageIndex, pageSize), pageSize + 1, false) == Ok(all)
    ensures var t := Truncate(all, pageSize);
            var n := VersionParameter(versionParam);
            && t.Ok?
            && GetHtml(o, versionParam, pageIndexParam, pageSizeParam, lookup, index, projectHits, versionHits, managers, false)
               == Ok(Page(t.value.0, t.value.1, if n != ALL_VERSIONS then Some(Wrap32(n)) else None))
  {
    var start := PageStart(pageIndex, pageSize);
    var version := SelectedVersion(VersionParameter(versionParam), lookup);
    assert Wrap32(pageSize + 1) == pageSize + 1;
    var recent := RecentCommits(o, index, projectHits, versionHits, managers, version, start, Wrap32(pageSize + 1), false);
    assert recent == Ok(all);
    var t := Truncate(all, pageSize);
    assert t == Ok((t.value.0, t.value.1));
  }

  /** With well-formed page parameters and the page end in range, a failure of the selected
      query's commits is the page's failure. */
  lemma GetHtmlPropagates(o: KeyOracle, versionParam: Option<string>, pageIndexParam: Option<string>, pageSizeParam: Option<string>,
                          pageIndex: int, pageSize: int, lookup: int -> Option<int>, index: Option<seq<Document>>,
                          projectHits: Option<seq<Document>>, versionHits: int -> Option<seq<Document>>,
                          managers: map<int, SM.Manager>, e: PanelError)
    requires PageParameter(pageSizeParam, NUMBER_OF_REVISIONS) == Ok(pageSize)
    requires PageParameter(pageIndexParam, FIRST_PAGE) == Ok(pageIndex)
    requires 0 <= pageSize < INT_MAX
    requires RecentCommits(o, index, projectHits, versionHits, managers,
                           SelectedVersion(VersionParameter(versionParam), lookup),
                           PageStart(pageIndex, pageSize), pageSize + 1, false) == Err(e)
    ensures GetHtml(o, versionParam, pageIndexParam, pageSizeParam, lookup, index, projectHits, versionHits, managers, false)
            == Err(e)
  {
    assert Wrap32(pageSize + 1) == pageSize + 1;
  }

  /** The project query never holds a `null` commit, so its actions never fail. */
  lemma ProjectQueryHasNoNullEntry(o: KeyOracle, index: Option<seq<Document>>, hits: Option<seq<Document>>,
                                   managers: map<int, SM.Manager>, start: int, pageSize: int)
    requires ByProject(index, hits, managers, start, pageSize).Ok?
    requires ByProject(index, hits, managers, start, pageSize).value.Some?
    ensures ProjectActions(o, Flatten(ByProject(index, hits, managers, start, pageSize).value.value)).Some?
  {
    var items := Collect(Window(hits.value, start, pageSize), managers, false).value;
    FlattenGroupPresent(items);
  }

  /** The version query's commits hold a `null` exactly when a hit of the window names a
      revision its repository's server does not have. */
  lemma VersionQueryNullIffMissing(o: KeyOracle, index: seq<Document>, hits: seq<Document>, managers: map<int, SM.Manager>,
                                   start: int, pageSize: int)
    requires ByVersion(Some(index), Some(hits), managers, start, pageSize).Ok?
    ensures var w := Window(hits, start, pageSize);
            var g := ByVersion(Some(index), Some(hits), managers, start, pageSize).value.value;
            ProjectActions(o, Flatten(g)).None? <==> exists j :: 0 <= j < |w| && Fetch(managers, w[j]).Missing?
  {
    var w := Window(hits, start, pageSize);
    var items := Collect(w, managers, true).value;
    assert items == Tagged(w, managers);
    assert ByVersion(Some(index), Some(hits), managers, start, pageSize).value.value == Group(items);
    if j :| 0 <= j < |w| && Fetch(managers, w[j]).Missing? {
      FlattenGroupMissing(items, j);
    } else {
      TaggedPresent(w, managers);
      FlattenGroupPresent(items);
    }
  }

  /** A window none of whose hits fails or is missing is tagged with values only. */
  lemma TaggedPresent(w: seq<Document>, managers: map<int, SM.Manager>)
    requires forall j :: 0 <= j < |w| ==> !Fetch(managers, w[j]).Failed? && !Fetch(managers, w[j]).Missing?
    ensures forall j :: 0 <= j < |Tagged(w, managers)| ==> Tagged(w, managers)[j].1.Some?
  {
  }

  /** With no version selected and the page end in range, the shown commits are the first
      ones of the project query, and more are flagged exactly when the query returned a full
      extra commit. */
  lemma ProjectPage(o: KeyOracle, pageIndexParam: Option<string>, pageSizeParam: Option<string>, pageIndex: int, pageSize: int,
                    lookup: int -> Option<int>, index: seq<Document>, projectHits: seq<Document>,
                    versionHits: int -> Option<seq<Document>>, managers: map<int, SM.Manager>,
                    g: Groups<Option<LogEntry>>)
    requires PageParameter(pageSizeParam, NUMBER_OF_REVISIONS) == Ok(pageSize)
    requires PageParameter(pageIndexParam, FIRST_PAGE) == Ok(pageIndex)
    requires 0 <= pageSize < INT_MAX
    requires ByProject(Some(index), Some(projectHits), managers, PageStart(pageIndex, pageSize), pageSize + 1) == Ok(Some(g))
    ensures var r := GetHtml(o, Some("-1"), pageIndexParam, pageSizeParam, lookup, Some(index), Some(projectHits),
                             versionHits, managers, false);
            && ProjectActions(o, Flatten(g)).Some?
            && r.Ok? && r.value.versionNumber.None?
            && r.value.moreAvailable == (Total(g) > pageSize)
            && |r.value.commits| == (if Total(g) > pageSize then pageSize else Total(g))
            && r.value.commits <= ProjectActions(o, Flatten(g)).value
  {
    assert VersionParameter(Some("-1")) == ALL_VERSIONS by {
      VersionParameterRoundTrip(-1);
      assert IntToString(-1) == "-1";
    }
    ProjectQueryHasNoNullEntry(o, Some(index), Some(projectHits), managers, PageStart(pageIndex, pageSize), pageSize + 1);
    var all := ProjectActions(o, Flatten(g)).value;
    assert SelectedVersion(ALL_VERSIONS, lookup) == None;
    assert RecentCommits(o, Some(index), Some(projectHits), versionHits, managers, None,
                         PageStart(pageIndex, pageSize), pageSize + 1, false) == Ok(all);
    GetHtmlTruncates(o, Some("-1"), pageIndexParam, pageSizeParam, pageIndex, pageSize, lookup, Some(index),
                     Some(projectHits), versionHits, managers, all);
    PageIsPrefixOfQuery(o, g, pageSize);
  }

  /** With a version selected that the version manager knows, and the page end in range, a
      `null` commit in that version's query makes the page fail; otherwise the shown commits
      are the first ones of the query, more are flagged exactly when the query returned a full
      extra commit, and the template gets the version number cast to `int`. */
  lemma VersionPage(o: KeyOracle, versionParam: Option<string>, pageIndexParam: Option<string>, pageSizeParam: Option<string>,
                    pageIndex: int, pageSize: int, lookup: int -> Option<int>, index: seq<Document>,
                    projectHits: Option<seq<Document>>, versionHits: int -> Option<seq<Document>>,
                    managers: map<int, SM.Manager>, v: int, g: Groups<Option<LogEntry>>)
    requires VersionParameter(versionParam) != ALL_VERSIONS
    requires lookup(VersionParameter(versionParam)) == Some(v)
    requires PageParameter(pageSizeParam, NUMBER_OF_REVISIONS) == Ok(pageSize)
    requires PageParameter(pageIndexParam, FIRST_PAGE) == Ok(pageIndex)
    requires 0 <= pageSize < INT_MAX
    requires ByVersion(Some(index), versionHits(v), managers, PageStart(pageIndex, pageSize), pageSize + 1) == Ok(Some(g))
    ensures var r := GetHtml(o, versionParam, pageIndexParam, pageSizeParam, lookup, Some(index), projectHits,
                             versionHits, managers, false);
            var actions := ProjectActions(o, Flatten(g));
            && (actions.None? ==> r == Err(NullEntry))
            && (actions.Some? ==>
                  && r.Ok? && r.value.versionNumber == Some(Wrap32(VersionParameter(versionParam)))
                  && r.value.moreAvailable == (Total(g) > pageSize)
                  && |r.value.commits| == (if Total(g) > pageSize then pageSize else Total(g))
                  && r.value.commits <= actions.value)
  {
    assert SelectedVersion(VersionParameter(versionParam), lookup) == Some(v);
    if ProjectActions(o, Flatten(g)).None? {
      assert RecentCommits(o, Some(index), projectHits, versionHits, managers, Some(v),
                           PageStart(pageIndex, pageSize), pageSize + 1, false) == Err(NullEntry);
      GetHtmlPropagates(o, versionParam, pageIndexParam, pageSizeParam, pageIndex, pageSize, lookup, Some(index),
                        projectHits, versionHits, managers, NullEntry);
    } else {
      var all := ProjectActions(o, Flatten(g)).value;
      assert RecentCommits(o, Some(index), projectHits, versionHits, managers, Some(v),
                           PageStart(pageIndex, pageSize), pageSize + 1, false) == Ok(all);
      GetHtmlTruncates(o, versionParam, pageIndexParam, pageSizeParam, pageIndex, pageSize, lookup, Some(index),
                       projectHits, versionHits, managers, all);
      PageIsPrefixOfQuery(o, g, pageSize);
    }
  }

  /** A version number the version manager does not know selects no version: the page then
      shows the project query, although the template still receives the number. */
  lemma UnknownVersionShowsProject(o: KeyOracle, versionParam: Option<string>, pageIndexParam: Option<string>, pageSizeParam: Option<string>,
                                   pageIndex: int, pageSize: int, lookup: int -> Option<int>, index: seq<Document>,
                                   projectHits: seq<Document>, versionHits: int -> Option<seq<Document>>,
                                   managers: map<int, SM.Manager>, g: Groups<Option<LogEntry>>)
    requires VersionParameter(versionParam) != ALL_VERSIONS
    requires lookup(VersionParameter(versionParam)).None?
    requires PageParameter(pageSizeParam, NUMBER_OF_REVISIONS) == Ok(pageSize)
    requires PageParameter(pageIndexParam, FIRST_PAGE) == Ok(pageIndex)
    requires 0 <= pageSize < INT_MAX
    requires ByProject(Some(index), Some(projectHits), managers, PageStart(pageIndex, pageSize), pageSize + 1) == Ok(Some(g))
    ensures var r := GetHtml(o, versionParam, pageIndexParam, pageSizeParam, lookup, Some(index), Some(projectHits),
                             versionHits, managers, false);
            && ProjectActions(o, Flatten(g)).Some?
            && r.Ok? && r.value.versionNumber == Some(Wrap32(VersionParameter(versionParam)))
            && r.value.commits <= ProjectActions(o, Flatten(g)).value
  {
    ProjectQueryHasNoNullEntry(o, Some(index), Some(projectHits), managers, PageStart(pageIndex, pageSize), pageSize + 1);
    var all := ProjectActions(o, Flatten(g)).value;
    assert SelectedVersion(VersionParameter(versionParam), lookup) == None;
    assert RecentCommits(o, Some(index), Some(projectHits), versionHits, managers, None,
                         PageStart(pageIndex, pageSize), pageSize + 1, false) == Ok(all);
    GetHtmlTruncates(o, versionParam, pageIndexParam, pageSizeParam, pageIndex, pageSize, lookup, Some(index),
                     Some(projectHits), versionHits, managers, all);
    PageIsPrefixOfQuery(o, g, pageSize);
  }
}
