/**
 * The issue's Subversion tab (`SubversionRevisionsTabPanel.getActions`): one page of the
 * issue's commits, newest first, built from the issue query; when a further page exists the
 * page's first item is a marker action that makes the page render a "More" button.
 */
module IssueTabPanels {
  import opened Wrappers
  import opened JavaLang
  import opened SvnLog
  import opened Sequences
  import opened Documents
  import SM = SubversionManagers
  import opened Queries
  import opened RevisionActions
  import opened TabPanels

  const NO_INDEX_MESSAGE: string := "no.index.error.message"

  const NO_LOG_ENTRIES_MESSAGE: string := "no.log.entries.message"

  /** An entry of the returned list: a message, a commit, or the commit marked as the one
      that carries the "More" button (`LastSubversionRevisionActionInPage`). */
  datatype Item = Message(key: string) | Commit(action: RevisionAction) | LastInPage(action: RevisionAction)

  /** One action per flattened commit, in order; a `null` commit makes the constructor throw. */
  function Actions(o: KeyOracle, flat: seq<(int, Option<LogEntry>)>): (r: Option<seq<RevisionAction>>)
    ensures r.Some? <==> forall i :: 0 <= i < |flat| ==> flat[i].1.Some?
    ensures r.Some? ==> |r.value| == |flat|
    ensures r.Some? ==> forall i :: 0 <= i < |flat| ==> r.value[i] == NewRevisionAction(o, flat[i].1.value, flat[i].0)
    decreases |flat|
  {
    if |flat| == 0 then Some([])
    else if flat[0].1.None? then None
    else match Actions(o, flat[1..])
      case None => None
      case Some(rest) => Some([NewRevisionAction(o, flat[0].1.value, flat[0].0)] + rest)
  }

  /** The actions as list items. */
  function Commits(actions: seq<RevisionAction>): (r: seq<Item>)
    ensures |r| == |actions| && forall i :: 0 <= i < |actions| ==> r[i] == Commit(actions[i])
  {
    seq(|actions|, i requires 0 <= i < |actions| => Commit(actions[i]))
  }

  /** The "More" hack on the reversed actions: with more than a page of them, the first is
      dropped and the new first is rebuilt as the marker from its (already rewritten) commit.
      With a page size below 1 a single action leaves nothing to mark, and `get(0)` throws. */
  function MarkPage(o: KeyOracle, actions: seq<RevisionAction>, pageSize: int): (r: Result<seq<Item>, PanelError>)
    ensures |actions| == 0 || |actions| <= pageSize ==> r == Ok(Commits(actions))
    ensures 0 < |actions| && pageSize < |actions| ==> (r.Err? <==> |actions| == 1)
    ensures r.Err? ==> r.error == IndexOutOfBounds
    ensures r.Ok? ==> forall i :: 0 <= i < |r.value| ==> !r.value[i].Message?
    ensures 0 < |actions| && pageSize < |actions| && r.Ok? ==>
              && |r.value| == |actions| - 1
              && r.value[0] == LastInPage(NewRevisionAction(o, actions[1].revision, actions[1].repoId))
              && forall i :: 1 <= i < |r.value| ==> r.value[i] == Commit(actions[i + 1])
  {
    if |actions| > 0 && |actions| > pageSize then
      var kept := actions[1..];
      if |kept| == 0 then Err(IndexOutOfBounds)
      else Ok([LastInPage(NewRevisionAction(o, kept[0].revision, kept[0].repoId))] + Commits(kept[1..]))
    else Ok(Commits(actions))
  }

  /** What the panel makes of the query's outcome: the query's runtime exceptions propagate,
      `null` and an empty map become a message, and otherwise the commits are flattened,
      reversed and paged. */
  function Render(o: KeyOracle, q: QueryResult, pageSize: int): (r: Result<seq<Item>, PanelError>)
    ensures q.Err? <==> r == Err(LookupError)
    ensures q == Ok(None) <==> r == Ok([Message(NO_INDEX_MESSAGE)])
    ensures q == Ok(Some([])) <==> r == Ok([Message(NO_LOG_ENTRIES_MESSAGE)])
  {
    match q
    case Err(_) => Err(LookupError)
    case Ok(None) => Ok([Message(NO_INDEX_MESSAGE)])
    case Ok(Some(g)) =>
      if |g| == 0 then Ok([Message(NO_LOG_ENTRIES_MESSAGE)])
      else match Actions(o, Flatten(g))
        case None => Err(NullEntry)
        case Some(actions) =>
          var page := MarkPage(o, Reverse(actions), pageSize);
          assert page.Ok? && |page.value| > 0 ==> !page.value[0].Message?;
          page
  }

  /** `getActions`. The two paging parameters are the request's; `index`, `hits` and
      `managers` are what the issue query sees, and `indexFails` says whether opening or
      searching the existing index throws an IndexException or IOException, which the panel
      turns into an empty list. The query asks for `pageSize + 1` hits from
      `pageIndex * pageSize`, both in 32-bit arithmetic. */
  function GetActions(o: KeyOracle, pageIndexParam: Option<string>, pageSizeParam: Option<string>,
                      index: Option<seq<Document>>, hits: seq<Document>, managers: map<int, SM.Manager>,
                      indexFails: bool): (r: Result<seq<Item>, PanelError>)
    ensures PageParameter(pageSizeParam, NUMBER_OF_REVISIONS).Err? || PageParameter(pageIndexParam, FIRST_PAGE).Err?
            ==> r == Err(NumberFormat)
    ensures r.Ok? && index.None? ==> r.value == [Message(NO_INDEX_MESSAGE)]
    ensures index.Some? && indexFails ==> r.Ok? ==> r.value == []
    ensures index.Some? && indexFails && PageParameter(pageSizeParam, NUMBER_OF_REVISIONS).Ok? && PageParameter(pageIndexParam, FIRST_PAGE).Ok?
            ==> r == Ok([])
  {
    match PageParameter(pageSizeParam, NUMBER_OF_REVISIONS)
    case Err(e) => Err(e)
    case Ok(pageSize) =>
      match PageParameter(pageIndexParam, FIRST_PAGE)
      case Err(e) => Err(e)
      case Ok(pageIndex) =>
        if index.Some? && indexFails then Ok([])
        else Render(o, ByIssue(index, hits, managers, PageStart(pageIndex, pageSize), Wrap32(pageSize + 1)), pageSize)
  }

  // ---------------------------------------------------------------------------------------------
  // Properties of the page.

  /** With well-formed page parameters and no caught index failure, the tab is the issue
      query's outcome for the requested page, rendered: its messages, its failures and its
      paged commits. */
  lemma GetActionsRenders(o: KeyOracle, pageIndexParam: Option<string>, pageSizeParam: Option<string>,
                          pageIndex: int, pageSize: int, index: Option<seq<Document>>, hits: seq<Document>,
                          managers: map<int, SM.Manager>)
    requires PageParameter(pageSizeParam, NUMBER_OF_REVISIONS) == Ok(pageSize)
    requires PageParameter(pageIndexParam, FIRST_PAGE) == Ok(pageIndex)
    ensures GetActions(o, pageIndexParam, pageSizeParam, index, hits, managers, false)
            == Render(o, ByIssue(index, hits, managers, PageStart(pageIndex, pageSize), Wrap32(pageSize + 1)), pageSize)
  {
  }

  /** The flattened commits of an issue query are never `null`, so building the actions
      never throws. */
  lemma IssueQueryHasNoNullEntry(o: KeyOracle, index: Option<seq<Document>>, hits: seq<Document>,
                                 managers: map<int, SM.Manager>, start: int, pageSize: int)
    requires ByIssue(index, hits, managers, start, pageSize).Ok?
    requires ByIssue(index, hits, managers, start, pageSize).value.Some?
    ensures Actions(o, Flatten(ByIssue(index, hits, managers, start, pageSize).value.value)).Some?
  {
    var items := Collect(Window(hits, start, pageSize), managers, false).value;
    FlattenGroupPresent(items);
  }

  /** Without overflow of the page end, the issue query returns at most as many commits as
      it was asked for. */
  lemma IssueQueryBound(index: Option<seq<Document>>, hits: seq<Document>, managers: map<int, SM.Manager>,
                        start: int, pageSize: int)
    requires IsInt(start + pageSize) && pageSize >= 0
    requires ByIssue(index, hits, managers, start, pageSize).Ok?
    requires ByIssue(index, hits, managers, start, pageSize).value.Some?
    ensures Total(ByIssue(index, hits, managers, start, pageSize).value.value) <= pageSize
  {
    var items := Collect(Window(hits, start, pageSize), managers, false).value;
    WindowLength(hits, start, pageSize);
    GroupTotal(items);
  }

  /** Without an index directory the tab shows exactly the no-index message. */
  lemma NoIndexMessage(o: KeyOracle, pageIndexParam: Option<string>, pageSizeParam: Option<string>,
                       hits: seq<Document>, managers: map<int, SM.Manager>, indexFails: bool)
    requires PageParameter(pageSizeParam, NUMBER_OF_REVISIONS).Ok? && PageParameter(pageIndexParam, FIRST_PAGE).Ok?
    ensures GetActions(o, pageIndexParam, pageSizeParam, None, hits, managers, indexFails) == Ok([Message(NO_INDEX_MESSAGE)])
  {
  }

  /** When the window holds no commit the tab shows exactly the no-entries message. */
  lemma NoEntriesMessage(o: KeyOracle, pageIndexParam: Option<string>, pageSizeParam: Option<string>,
                         index: seq<Document>, hits: seq<Document>, managers: map<int, SM.Manager>)
    requires PageParameter(pageSizeParam, NUMBER_OF_REVISIONS).Ok? && PageParameter(pageIndexParam, FIRST_PAGE).Ok?
    requires var pageSize := PageParameter(pageSizeParam, NUMBER_OF_REVISIONS).value;
             var pageIndex := PageParameter(pageIndexParam, FIRST_PAGE).value;
             Collect(Window(hits, PageStart(pageIndex, pageSize), Wrap32(pageSize + 1)), managers, false) == Ok([])
    ensures GetActions(o, pageIndexParam, pageSizeParam, Some(index), hits, managers, false) == Ok([Message(NO_LOG_ENTRIES_MESSAGE)])
  {
  }

  /** Up to a page of commits is shown whole, newest (last in the query's flattening)
      first. */
  lemma RenderPartialPage(o: KeyOracle, g: Groups<Option<LogEntry>>, pageSize: int)
    requires |g| > 0 && Total(g) <= pageSize
    requires Actions(o, Flatten(g)).Some?
    ensures var flat := Flatten(g);
            var r := Render(o, Ok(Some(g)), pageSize);
            && r.Ok? && |r.value| == |flat|
            && forall i :: 0 <= i < |flat| ==>
                 r.value[i] == Commit(NewRevisionAction(o, flat[|flat| - 1 - i].1.value, flat[|flat| - 1 - i].0))
  {
  }

  /** A page and one more commit: exactly `pageSize` items are shown, the newest commit is
      left out and the next is the marker, which holds that commit, its message rewritten
      once more. */
  lemma RenderFullPage(o: KeyOracle, g: Groups<Option<LogEntry>>, pageSize: int)
    requires pageSize >= 1 && Total(g) == pageSize + 1
    requires Actions(o, Flatten(g)).Some?
    ensures var flat := Flatten(g);
            var e := flat[|flat| - 2];
            var r := Render(o, Ok(Some(g)), pageSize);
            && r.Ok? && |r.value| == pageSize
            && r.value[0] == LastInPage(NewRevisionAction(o, NewRevisionAction(o, e.1.value, e.0).revision, e.0))
            && forall i :: 1 <= i < pageSize ==>
                 r.value[i] == Commit(NewRevisionAction(o, flat[|flat| - 2 - i].1.value, flat[|flat| - 2 - i].0))
  {
    assert |g| > 0;
  }

  /** The marker shows the same commit as the action it replaces: every field but the message
      is the commit's, and the message differs from the commit's only in case. */
  lemma MarkerKeepsCommit(o: KeyOracle, e: LogEntry, repoId: int)
    requires e.message.Some?
    requires forall k :: k in IssueKeys(o, e.message.value) ==> IsUpper(k)
    requires var once := NewRevisionAction(o, e, repoId).revision.message.value;
             forall k :: k in IssueKeys(o, once) ==> IsUpper(k)
    ensures var marker := NewRevisionAction(o, NewRevisionAction(o, e, repoId).revision, repoId);
            && marker.repoId == repoId
            && marker.revision.(message := e.message) == e
            && CaseOnly(e.message.value, marker.revision.message.value)
  {
    var first := NewRevisionAction(o, e, repoId);
    ActionMessageCaseOnly(o, e, repoId);
    ActionMessageCaseOnly(o, first.revision, repoId);
    var marker := NewRevisionAction(o, first.revision, repoId);
    CaseOnlyTransitive(e.message.value, first.revision.message.value, marker.revision.message.value);
  }

  /** The whole request: when the page end does not overflow and more than a page of the
      issue's commits lies beyond the page start, the tab shows exactly `pageSize` items, the
      first being the marker. */
  lemma FullPage(o: KeyOracle, pageIndexParam: Option<string>, pageSizeParam: Option<string>, pageIndex: int,
                 pageSize: int, index: seq<Document>, hits: seq<Document>, managers: map<int, SM.Manager>,
                 g: Groups<Option<LogEntry>>)
    requires PageParameter(pageSizeParam, NUMBER_OF_REVISIONS) == Ok(pageSize)
    requires PageParameter(pageIndexParam, FIRST_PAGE) == Ok(pageIndex)
    requires 1 <= pageSize < INT_MAX && IsInt(PageStart(pageIndex, pageSize) + pageSize + 1)
    requires ByIssue(Some(index), hits, managers, PageStart(pageIndex, pageSize), pageSize + 1) == Ok(Some(g))
    requires Total(g) > pageSize
    ensures var r := GetActions(o, pageIndexParam, pageSizeParam, Some(index), hits, managers, false);
            && r.Ok? && |r.value| == pageSize
            && r.value[0].LastInPage?
  {
    var start := PageStart(pageIndex, pageSize);
    assert Wrap32(pageSize + 1) == pageSize + 1;
    var q := ByIssue(Some(index), hits, managers, start, pageSize + 1);
    IssueQueryBound(Some(index), hits, managers, start, pageSize + 1);
    IssueQueryHasNoNullEntry(o, Some(index), hits, managers, start, pageSize + 1);
    RenderFullPage(o, g, pageSize);
    assert GetActions(o, pageIndexParam, pageSizeParam, Some(index), hits, managers, false) == Render(o, q, pageSize);
  }
}
