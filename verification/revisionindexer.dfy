/**
 * The incremental revision indexer (`RevisionIndexer`): the update pass that walks every
 * configured repository and adds a document for each new commit mentioning an issue, the
 * per-repository cursor of the last revision scanned, and the lifecycle operations that
 * reset a repository (`addRepository`, `removeEntries`).
 *
 * The Lucene index is a sequence of documents in the order they were written, `None` while
 * the index directory does not exist. The file system and Lucene faults that the pass
 * reacts to are inputs (`Environment`).
 */
module RevisionIndexers {
  import opened Wrappers
  import opened SvnLog
  import opened Documents
  import SM = SubversionManagers

  /** The cursor value of a repository whose indexed revisions are not yet known. */
  const NOT_INDEXED: int := -1

  /** The most hits any index search returns. */
  const MAX_REVISIONS: int := 100

  datatype IndexState = IndexState(index: Option<seq<Document>>, cursors: map<int, int>)

  /** Where processing one repository can fail.
      - `CatchUpOpenFails`: opening the reader that recovers the cursor throws an
        IndexException, which the pass does not catch;
      - `CatchUpSearchFails`: that search throws an IOException;
      - `WriterOpenFails`, `ReaderOpenFails`: opening the writer or the probing reader throws;
      - `HandlerFailsAt(n)`: probing or writing the document for the `n`-th indexable
        commit (counting from 0) throws. */
  datatype RepoFault =
    | NoFault
    | CatchUpOpenFails
    | CatchUpSearchFails
    | WriterOpenFails
    | ReaderOpenFails
    | HandlerFailsAt(n: nat)

  /** The surroundings of one pass: whether JIRA has an index root path, whether creating
      the index directory fails, the key oracle, and the fault (if any) for each repository
      id. */
  datatype Environment = Environment(
    indexPathSet: bool,
    createFails: bool,
    keys: KeyOracle,
    faults: map<int, RepoFault>)

  function FaultOf(env: Environment, repo: int): RepoFault {
    if repo in env.faults then env.faults[repo] else NoFault
  }

  /** No two documents describe the same revision of the same repository. */
  predicate NoDuplicateRevisions(index: seq<Document>) {
    forall i, j :: 0 <= i < j < |index| ==>
      index[i].repository != index[j].repository || index[i].revision != index[j].revision
  }

  // ---------------------------------------------------------------------------------------------
  // Index probes.

  /** The number of documents the repository-and-revision search of `hasDocument` hits. */
  function MatchCount(index: seq<Document>, repo: int, rev: int): (n: nat)
    decreases |index|
  {
    if |index| == 0 then 0
    else (if index[0].repository == repo && index[0].revision == rev then 1 else 0) + MatchCount(index[1..], repo, rev)
  }

  lemma {:induction false} MatchCountPositive(index: seq<Document>, repo: int, rev: int)
    ensures MatchCount(index, repo, rev) > 0 <==>
              exists i :: 0 <= i < |index| && index[i].repository == repo && index[i].revision == rev
    decreases |index|
  {
    if |index| > 0 {
      MatchCountPositive(index[1..], repo, rev);
      assert forall i :: 1 <= i < |index| ==> index[i] == index[1..][i - 1];
    }
  }

  /** `hasDocument`: one hit means the revision is indexed, none means it is not, and several
      (logged as an error) count as indexed: the index holds a document for the revision. */
  function HasDocument(index: seq<Document>, repo: int, rev: int): (r: bool)
    ensures r <==> exists i :: 0 <= i < |index| && index[i].repository == repo && index[i].revision == rev
  {
    MatchCountPositive(index, repo, rev);
    var hits := MatchCount(index, repo, rev);
    if hits == 1 then true else if hits == 0 then false else true
  }

  /** The highest revision indexed for a repository, if any. */
  function HighestRevision(index: seq<Document>, repo: int): (r: Option<int>)
    ensures r.None? <==> forall i :: 0 <= i < |index| ==> index[i].repository != repo
    ensures r.Some? ==> exists i :: 0 <= i < |index| && index[i].repository == repo && index[i].revision == r.value
    ensures r.Some? ==> forall i :: 0 <= i < |index| && index[i].repository == repo ==> index[i].revision <= r.value
    decreases |index|
  {
    if |index| == 0 then None
    else
      var rest := HighestRevision(index[1..], repo);
      assert forall i :: 1 <= i < |index| ==> index[i] == index[1..][i - 1];
      if index[0].repository != repo then
        (if rest.Some? then assert index[1..][0].repository == repo || true; rest else None)
      else if rest.Some? && rest.value > index[0].revision then rest
      else Some(index[0].revision)
  }

  /** `updateLastRevisionIndexed`: the cursor raised to the highest revision indexed for the
      repository. */
  function CatchUp(index: seq<Document>, repo: int, cursor: int): (r: int)
    ensures r >= cursor
    ensures HighestRevision(index, repo).None? ==> r == cursor
    ensures HighestRevision(index, repo).Some? ==>
              r == if HighestRevision(index, repo).value > cursor then HighestRevision(index, repo).value else cursor
  {
    var top := HighestRevision(index, repo);
    if top.Some? && top.value > cursor then top.value else cursor
  }

  // ---------------------------------------------------------------------------------------------
  // The entry handler.

  /** The documents the handler writes for `entries`: one for each indexable commit not
      already in the snapshot the probe reads. */
  function NewDocuments(o: KeyOracle, repo: int, snapshot: seq<Document>, entries: seq<LogEntry>): (r: seq<Document>)
    ensures forall d :: d in r ==>
              exists i :: 0 <= i < |entries| && Indexable(o, entries[i])
                && !HasDocument(snapshot, repo, entries[i].revision) && d == GetDocument(o, repo, entries[i])
    ensures forall i :: 0 <= i < |entries| && Indexable(o, entries[i]) && !HasDocument(snapshot, repo, entries[i].revision)
              ==> GetDocument(o, repo, entries[i]) in r
    ensures forall d :: d in r ==> d.repository == repo
    decreases |entries|
  {
    if |entries| == 0 then []
    else
      var e := entries[0];
      var rest := NewDocuments(o, repo, snapshot, entries[1..]);
      assert forall i :: 1 <= i < |entries| ==> entries[i] == entries[1..][i - 1];
      if Indexable(o, e) && !HasDocument(snapshot, repo, e.revision) then [GetDocument(o, repo, e)] + rest
      else rest
  }

  /** The cursor after the handler has seen `entries`: each commit above `from` (the cursor
      the pass started from) moves it to that commit's revision. */
  function AdvanceCursor(entries: seq<LogEntry>, from: int, cursor: int): (r: int)
    ensures r == cursor || exists i :: 0 <= i < |entries| && entries[i].revision > from && r == entries[i].revision
    decreases |entries|
  {
    if |entries| == 0 then cursor
    else
      var next := if entries[0].revision > from then entries[0].revision else cursor;
      var r := AdvanceCursor(entries[1..], from, next);
      assert forall i :: 1 <= i < |entries| ==> entries[i] == entries[1..][i - 1];
      r
  }

  /** The position of the `n`-th indexable commit, or `|entries|` when there are fewer. */
  function IndexableAt(o: KeyOracle, entries: seq<LogEntry>, n: nat): (p: nat)
    ensures p <= |entries|
    ensures p < |entries| ==> Indexable(o, entries[p])
    decreases |entries|
  {
    if |entries| == 0 then 0
    else if Indexable(o, entries[0]) then (if n == 0 then 0 else 1 + IndexableAt(o, entries[1..], n - 1))
    else 1 + IndexableAt(o, entries[1..], n)
  }

  /** The commits the handler finishes before it throws: those before the failing one. */
  function Handled(o: KeyOracle, entries: seq<LogEntry>, fault: RepoFault): (r: seq<LogEntry>)
    ensures r <= entries
    ensures !fault.HandlerFailsAt? ==> r == entries
    ensures |r| < |entries| ==> fault.HandlerFailsAt? && Indexable(o, entries[|r|])
  {
    if fault.HandlerFailsAt? then entries[..IndexableAt(o, entries, fault.n)] else entries
  }

  // ---------------------------------------------------------------------------------------------
  // One repository.

  /** How processing one repository ended: not attempted, completed, stopped by a fault that
      the pass catches, or stopped by an IndexException that ends the whole pass. */
  datatype StepStatus = Skipped | Indexed | Caught | Aborted

  datatype StepResult = StepResult(index: seq<Document>, cursors: map<int, int>, manager: SM.Manager, status: StepStatus)

  /** The manager the pass works with: activated first when inactive. */
  function Activated(m: SM.Manager): (r: SM.Manager)
    ensures r.id == m.id && r.server == m.server
    ensures m.active ==> r == m
  {
    if m.active then m else SM.Activate(m)
  }

  /** The cursor the scan starts from: a negative cursor is first caught up with the index. */
  function StartCursor(index: seq<Document>, repo: int, cursor: int): (r: int)
    ensures r >= cursor
    ensures cursor >= 0 ==> r == cursor
  {
    if cursor < 0 then CatchUp(index, repo, cursor) else cursor
  }

  /** The effect of one repository's scan on the index and the cursors: documents of this
      repository appended, and only this repository's cursor (which must exist) changed. */
  predicate ConfinedTo(id: int, index: seq<Document>, cursors: map<int, int>, r: StepResult) {
    && index <= r.index
    && (forall i :: |index| <= i < |r.index| ==> r.index[i].repository == id)
    && r.cursors.Keys == cursors.Keys
    && (forall k :: k in cursors && k != id ==> r.cursors[k] == cursors[k])
    && r.manager.id == id
  }

  /** The scan of an active repository from cursor `from`: the handler sees the commits the
      manager delivers, writes the new documents, and moves the cursor. A handler exception
      stops the scan after the commits already handled. */
  function Scan(o: KeyOracle, fault: RepoFault, m: SM.Manager, from: int, index: seq<Document>, cursors: map<int, int>): (r: StepResult)
    requires m.id in cursors
    ensures ConfinedTo(m.id, index, cursors, r) && r.manager.server == m.server
    ensures r.status.Caught? || r.status.Indexed?
    ensures r.status.Caught? ==> fault.HandlerFailsAt?
  {
    var run := SM.LogRunOf(m, from);
    var handled := Handled(o, run.entries, fault);
    var docs := NewDocuments(o, m.id, index, handled);
    var cursors1 := cursors[m.id := AdvanceCursor(handled, from, from)];
    if |handled| < |run.entries| then StepResult(index + docs, cursors1, m, Caught)
    else StepResult(index + docs, cursors1, SM.AfterLogRun(m, run), Indexed)
  }

  /** An active repository with a cursor: recover a negative cursor from the index, open the
      writer and reader, and scan. */
  function Resume(env: Environment, m: SM.Manager, index: seq<Document>, cursors: map<int, int>): (r: StepResult)
    requires m.id in cursors
    ensures ConfinedTo(m.id, index, cursors, r) && r.manager.server == m.server
    ensures !r.status.Skipped?
    ensures r.status.Aborted? <==> cursors[m.id] < 0 && FaultOf(env, m.id).CatchUpOpenFails?
    ensures r.status.Aborted? ==> r.index == index && r.cursors == cursors
    ensures r.status.Caught? ==> !FaultOf(env, m.id).NoFault?
  {
    var fault := FaultOf(env, m.id);
    var c := cursors[m.id];
    if c < 0 && fault.CatchUpOpenFails? then StepResult(index, cursors, m, Aborted)
    else if c < 0 && fault.CatchUpSearchFails? then StepResult(index, cursors, m, Caught)
    else
      var from := StartCursor(index, m.id, c);
      if fault.WriterOpenFails? || fault.ReaderOpenFails? then StepResult(index, cursors[m.id := from], m, Caught)
      else Scan(env.keys, fault, m, from, index, cursors[m.id := from])
  }

  /** The body of the pass's loop for one repository: an inactive repository is activated,
      and skipped if that fails; one without a cursor is skipped too. */
  function Step(env: Environment, m: SM.Manager, index: seq<Document>, cursors: map<int, int>): (r: StepResult)
    ensures ConfinedTo(m.id, index, cursors, r) && r.manager.server == m.server
    ensures r.status.Skipped? <==> !Activated(m).active || m.id !in cursors
    ensures r.status.Skipped? ==> r.index == index && r.cursors == cursors
    ensures r.status.Aborted? ==> r.index == index && r.cursors == cursors
                                  && cursors[m.id] < 0 && FaultOf(env, m.id).CatchUpOpenFails?
    ensures r.status.Caught? ==> !FaultOf(env, m.id).NoFault?
  {
    var m1 := Activated(m);
    if !m1.active || m1.id !in cursors then StepResult(index, cursors, m1, Skipped)
    else Resume(env, m1, index, cursors)
  }

  // ---------------------------------------------------------------------------------------------
  // The pass.

  datatype PassResult = PassResult(index: seq<Document>, cursors: map<int, int>, managers: seq<SM.Manager>, aborted: bool)

  /** The loop of `updateIndex` over the repositories, in list order. An aborting repository
      ends the pass; the rest are left as they were. */
  function Pass(env: Environment, repos: seq<SM.Manager>, index: seq<Document>, cursors: map<int, int>): (r: PassResult)
    ensures |r.managers| == |repos|
    ensures index <= r.index
    ensures r.cursors.Keys == cursors.Keys
    decreases |repos|
  {
    if |repos| == 0 then PassResult(index, cursors, [], false)
    else
      var st := Step(env, repos[0], index, cursors);
      if st.status.Aborted? then PassResult(st.index, st.cursors, [st.manager] + repos[1..], true)
      else
        var rest := Pass(env, repos[1..], st.index, st.cursors);
        PassResult(rest.index, rest.cursors, [st.manager] + rest.managers, rest.aborted)
  }

  /** The ids of a repository list. */
  function Ids(repos: seq<SM.Manager>): set<int> {
    set m | m in repos :: m.id
  }

  /** `indexDirectoryExists`: the index is usable only when JIRA has an index root path and
      the directory exists there. Without a path `new File(null)` throws, which counts as no
      directory. */
  function IndexDirectory(pathSet: bool, s: IndexState): (r: Option<seq<Document>>)
    ensures !pathSet ==> r.None?
    ensures pathSet ==> r == s.index
  {
    if pathSet then s.index else None
  }

  /** `createIndexIfNeeded`: with an index path and no directory there, the index is created,
      which resets every cursor of the current repositories to NOT_INDEXED. Without an index
      path, or when creation fails, nothing changes; the index is then unusable unless it
      already existed at the path. */
  function EnsureIndex(env: Environment, repos: seq<SM.Manager>, s: IndexState): (r: IndexState)
    ensures !env.indexPathSet || s.index.Some? ==> r == s
    ensures IndexDirectory(env.indexPathSet, r).Some? <==> env.indexPathSet && (s.index.Some? || !env.createFails)
    ensures s.index.None? && r.index.Some? ==>
              r.index.value == [] && r.cursors.Keys == Ids(repos)
              && forall k :: k in r.cursors ==> r.cursors[k] == NOT_INDEXED
  {
    if !env.indexPathSet || s.index.Some? || env.createFails then s
    else IndexState(Some([]), map k | k in Ids(repos) :: NOT_INDEXED)
  }

  datatype UpdateResult = UpdateResult(state: IndexState, managers: seq<SM.Manager>, aborted: bool)

  /** `updateIndex`: the pass runs only when `createIndexIfNeeded` reports a usable index. */
  function UpdateIndex(env: Environment, repos: seq<SM.Manager>, s: IndexState): (r: UpdateResult)
    ensures |r.managers| == |repos|
    ensures !env.indexPathSet ==> r == UpdateResult(s, repos, false)
    ensures IndexDirectory(env.indexPathSet, EnsureIndex(env, repos, s)).None? ==> r == UpdateResult(s, repos, false)
    ensures s.index.Some? ==> r.state.index.Some? && s.index.value <= r.state.index.value
    ensures r.state.cursors.Keys == EnsureIndex(env, repos, s).cursors.Keys
  {
    var s1 := EnsureIndex(env, repos, s);
    match IndexDirectory(env.indexPathSet, s1)
    case None => UpdateResult(s, repos, false)
    case Some(index) =>
      var p := Pass(env, repos, index, s1.cursors);
      UpdateResult(IndexState(Some(p.index), p.cursors), p.managers, p.aborted)
  }

  // ---------------------------------------------------------------------------------------------
  // Properties of the pass.

  lemma PrefixIncreasing(s: seq<LogEntry>, t: seq<LogEntry>)
    requires StrictlyIncreasing(t) && s <= t
    ensures StrictlyIncreasing(s)
  {
    forall i, j | 0 <= i < j < |s| ensures s[i].revision < s[j].revision {
      assert s[i] == t[i] && s[j] == t[j];
    }
  }

  lemma TailIncreasing(s: seq<LogEntry>)
    requires StrictlyIncreasing(s) && |s| > 0
    ensures StrictlyIncreasing(s[1..])
  {
    forall i, j | 0 <= i < j < |s[1..]| ensures s[1..][i].revision < s[1..][j].revision {
      assert s[1..][i] == s[i + 1] && s[1..][j] == s[j + 1];
    }
  }

  /** New documents inherit any lower bound of the commits' revisions. */
  lemma {:induction false} NewDocumentsAbove(o: KeyOracle, repo: int, snapshot: seq<Document>, entries: seq<LogEntry>, bound: int)
    requires forall k :: 0 <= k < |entries| ==> entries[k].revision > bound
    ensures forall i :: 0 <= i < |NewDocuments(o, repo, snapshot, entries)| ==>
              NewDocuments(o, repo, snapshot, entries)[i].revision > bound
    decreases |entries|
  {
    if |entries| > 0 {
      NewDocumentsAbove(o, repo, snapshot, entries[1..], bound);
    }
  }

  /** Along strictly increasing commits the new documents have strictly increasing
      revisions. */
  lemma {:induction false} NewDocumentsIncreasing(o: KeyOracle, repo: int, snapshot: seq<Document>, entries: seq<LogEntry>)
    requires StrictlyIncreasing(entries)
    ensures forall i, j :: 0 <= i < j < |NewDocuments(o, repo, snapshot, entries)| ==>
              NewDocuments(o, repo, snapshot, entries)[i].revision < NewDocuments(o, repo, snapshot, entries)[j].revision
    decreases |entries|
  {
    if |entries| > 0 {
      var e, tail := entries[0], entries[1..];
      TailIncreasing(entries);
      NewDocumentsIncreasing(o, repo, snapshot, tail);
      assert forall k :: 0 <= k < |tail| ==> tail[k] == entries[k + 1];
      NewDocumentsAbove(o, repo, snapshot, tail, e.revision);
      var rest := NewDocuments(o, repo, snapshot, tail);
      if Indexable(o, e) && !HasDocument(snapshot, repo, e.revision) {
        assert NewDocuments(o, repo, snapshot, entries) == [GetDocument(o, repo, e)] + rest;
        ConsIncreasing(GetDocument(o, repo, e), rest);
      } else {
        assert NewDocuments(o, repo, snapshot, entries) == rest;
      }
    }
  }

  /** A document below every document of an increasing list heads an increasing list. */
  lemma ConsIncreasing(d: Document, rest: seq<Document>)
    requires forall i, j :: 0 <= i < j < |rest| ==> rest[i].revision < rest[j].revision
    requires forall i :: 0 <= i < |rest| ==> rest[i].revision > d.revision
    ensures forall i, j :: 0 <= i < j < |[d] + rest| ==> ([d] + rest)[i].revision < ([d] + rest)[j].revision
  {
    var r := [d] + rest;
    forall i, j | 0 <= i < j < |r| ensures r[i].revision < r[j].revision {
      assert r[j] == rest[j - 1];
      if i > 0 {
        assert r[i] == rest[i - 1];
      }
    }
  }


  /** Every new document is one the snapshot did not hold. */
  lemma NewDocumentsFresh(o: KeyOracle, repo: int, snapshot: seq<Document>, entries: seq<LogEntry>)
    ensures forall i :: 0 <= i < |NewDocuments(o, repo, snapshot, entries)| ==>
              && NewDocuments(o, repo, snapshot, entries)[i].repository == repo
              && !HasDocument(snapshot, repo, NewDocuments(o, repo, snapshot, entries)[i].revision)
  {
    var r := NewDocuments(o, repo, snapshot, entries);
    forall i | 0 <= i < |r| ensures !HasDocument(snapshot, repo, r[i].revision) {
      assert r[i] in r;
    }
  }

  /** Appending documents for distinct new revisions of one repository keeps the index free of
      duplicates. */
  lemma AppendKeepsNoDuplicates(index: seq<Document>, repo: int, docs: seq<Document>)
    requires NoDuplicateRevisions(index)
    requires forall i :: 0 <= i < |docs| ==> docs[i].repository == repo
    requires forall i, j :: 0 <= i < j < |docs| ==> docs[i].revision < docs[j].revision
    requires forall i :: 0 <= i < |docs| ==> !HasDocument(index, repo, docs[i].revision)
    ensures NoDuplicateRevisions(index + docs)
  {
    var all := index + docs;
    forall i, j | 0 <= i < j < |all|
      ensures all[i].repository != all[j].repository || all[i].revision != all[j].revision
    {
      if j >= |index| && i < |index| {
        assert all[j] == docs[j - |index|] && all[i] == index[i];
        assert !HasDocument(index, repo, all[j].revision);
      } else if i >= |index| {
        assert all[i] == docs[i - |index|] && all[j] == docs[j - |index|];
      }
    }
  }

  /** The commits a scan hands to the handler come in strictly increasing order when the
      server reports its history that way. */
  lemma DeliveredIncreasing(m: SM.Manager, from: int)
    requires StrictlyIncreasing(m.server.history)
    ensures StrictlyIncreasing(SM.LogRunOf(m, from).entries)
  {
    var latest := if m.server.latestRevision.Ok? then m.server.latestRevision.value else 0;
    SM.InRangeIncreasing(m.server.history, SM.RetrieveStart(from), latest);
    PrefixIncreasing(SM.LogRunOf(m, from).entries, SM.InRange(m.server.history, SM.RetrieveStart(from), latest));
  }

  lemma ScanNoDuplicates(o: KeyOracle, fault: RepoFault, m: SM.Manager, from: int, index: seq<Document>, cursors: map<int, int>)
    requires m.id in cursors
    requires NoDuplicateRevisions(index)
    requires StrictlyIncreasing(m.server.history)
    ensures NoDuplicateRevisions(Scan(o, fault, m, from, index, cursors).index)
  {
    var run := SM.LogRunOf(m, from);
    DeliveredIncreasing(m, from);
    var handled := Handled(o, run.entries, fault);
    PrefixIncreasing(handled, run.entries);
    NewDocumentsIncreasing(o, m.id, index, handled);
    NewDocumentsFresh(o, m.id, index, handled);
    var docs := NewDocuments(o, m.id, index, handled);
    assert forall i :: 0 <= i < |docs| ==> docs[i].repository == m.id && !HasDocument(index, m.id, docs[i].revision);
    AppendKeepsNoDuplicates(index, m.id, docs);
  }

  /** One repository never introduces a second document for a revision, provided its server
      reports each revision once, in increasing order. */
  lemma StepNoDuplicates(env: Environment, m: SM.Manager, index: seq<Document>, cursors: map<int, int>)
    requires NoDuplicateRevisions(index)
    requires StrictlyIncreasing(m.server.history)
    ensures NoDuplicateRevisions(Step(env, m, index, cursors).index)
  {
    var m1 := Activated(m);
    if m1.active && m1.id in cursors {
      var fault := FaultOf(env, m1.id);
      var c := cursors[m1.id];
      var from := StartCursor(index, m1.id, c);
      ScanNoDuplicates(env.keys, fault, m1, from, index, cursors[m1.id := from]);
    }
  }

  /** Every server reports each revision once, in increasing order. */
  predicate IncreasingHistories(repos: seq<SM.Manager>) {
    forall k :: 0 <= k < |repos| ==> StrictlyIncreasing(repos[k].server.history)
  }

  /** A pass never creates a duplicate document. */
  lemma {:induction false} PassNoDuplicates(env: Environment, repos: seq<SM.Manager>, index: seq<Document>, cursors: map<int, int>)
    requires NoDuplicateRevisions(index)
    requires IncreasingHistories(repos)
    ensures NoDuplicateRevisions(Pass(env, repos, index, cursors).index)
    decreases |repos|
  {
    if |repos| > 0 {
      StepNoDuplicates(env, repos[0], index, cursors);
      var st := Step(env, repos[0], index, cursors);
      if !st.status.Aborted? {
        assert IncreasingHistories(repos[1..]) by {
          forall k | 0 <= k < |repos[1..]| ensures StrictlyIncreasing(repos[1..][k].server.history) {
            assert repos[1..][k] == repos[k + 1];
          }
        }
        PassNoDuplicates(env, repos[1..], st.index, st.cursors);
      }
    }
  }

  /** The cursor only moves forward while the handler runs. */
  lemma {:induction false} AdvanceCursorMonotone(entries: seq<LogEntry>, from: int, cursor: int)
    requires cursor >= from
    ensures AdvanceCursor(entries, from, cursor) >= from
    decreases |entries|
  {
    if |entries| > 0 {
      var next := if entries[0].revision > from then entries[0].revision else cursor;
      AdvanceCursorMonotone(entries[1..], from, next);
    }
  }

  /** Over increasing commits the cursor ends at the larger of where it started and the
      last commit scanned. */
  lemma {:induction false} AdvanceCursorIncreasing(entries: seq<LogEntry>, from: int, cursor: int)
    requires StrictlyIncreasing(entries) && |entries| > 0
    requires cursor >= from
    ensures AdvanceCursor(entries, from, cursor) ==
              if entries[|entries| - 1].revision > from then entries[|entries| - 1].revision else cursor
    decreases |entries|
  {
    var next := if entries[0].revision > from then entries[0].revision else cursor;
    if |entries| > 1 {
      var tail := entries[1..];
      TailIncreasing(entries);
      assert tail[|tail| - 1] == entries[|entries| - 1];
      AdvanceCursorIncreasing(tail, from, next);
      if entries[|entries| - 1].revision <= from {
        assert entries[0].revision < entries[|entries| - 1].revision;
      }
    }
  }

  /** No step moves a cursor backwards. */
  lemma StepCursorMonotone(env: Environment, m: SM.Manager, index: seq<Document>, cursors: map<int, int>)
    ensures var r := Step(env, m, index, cursors);
            forall k :: k in cursors ==> r.cursors[k] >= cursors[k]
  {
    var m1 := Activated(m);
    var r := Step(env, m, index, cursors);
    if m1.active && m1.id in cursors {
      var c := cursors[m1.id];
      var fault := FaultOf(env, m1.id);
      assert r == Resume(env, m1, index, cursors);
      if !(c < 0 && (fault.CatchUpOpenFails? || fault.CatchUpSearchFails?)) {
        var from := StartCursor(index, m1.id, c);
        var cs := cursors[m1.id := from];
        if !(fault.WriterOpenFails? || fault.ReaderOpenFails?) {
          assert r == Scan(env.keys, fault, m1, from, index, cs);
          var handled := Handled(env.keys, SM.LogRunOf(m1, from).entries, fault);
          AdvanceCursorMonotone(handled, from, from);
          assert r.cursors[m1.id] == AdvanceCursor(handled, from, from);
        }
      }
    }
  }

  /** No pass moves a cursor backwards. */
  lemma {:induction false} PassCursorMonotone(env: Environment, repos: seq<SM.Manager>, index: seq<Document>, cursors: map<int, int>)
    ensures var r := Pass(env, repos, index, cursors);
            forall k :: k in cursors ==> r.cursors[k] >= cursors[k]
    decreases |repos|
  {
    if |repos| > 0 {
      StepCursorMonotone(env, repos[0], index, cursors);
      var st := Step(env, repos[0], index, cursors);
      if !st.status.Aborted? {
        PassCursorMonotone(env, repos[1..], st.index, st.cursors);
      }
    }
  }

  /** A scan without faults ends with the cursor on the last revision delivered, or where it
      started when nothing was delivered. */
  lemma ScanCursorEnd(o: KeyOracle, m: SM.Manager, from: int, index: seq<Document>, cursors: map<int, int>)
    requires m.id in cursors
    requires StrictlyIncreasing(m.server.history)
    ensures var delivered := SM.LogRunOf(m, from).entries;
            var r := Scan(o, NoFault, m, from, index, cursors);
            && r.cursors[m.id] >= from
            && (|delivered| > 0 && delivered[|delivered| - 1].revision > from ==>
                  r.cursors[m.id] == delivered[|delivered| - 1].revision)
            && (|delivered| == 0 ==> r.cursors[m.id] == from)
  {
    var delivered := SM.LogRunOf(m, from).entries;
    assert Handled(o, delivered, NoFault) == delivered;
    assert Scan(o, NoFault, m, from, index, cursors).cursors[m.id] == AdvanceCursor(delivered, from, from);
    DeliveredIncreasing(m, from);
    AdvanceCursorMonotone(delivered, from, from);
    if |delivered| > 0 {
      AdvanceCursorIncreasing(delivered, from, from);
    }
  }

  /** A repository processed without faults: the scan starts from its cursor caught up with
      the index, and ends on the last revision delivered. */
  lemma StepCursorEnd(env: Environment, m: SM.Manager, index: seq<Document>, cursors: map<int, int>)
    requires StrictlyIncreasing(m.server.history)
    requires m.id in cursors && Activated(m).active && FaultOf(env, m.id).NoFault?
    ensures var from := StartCursor(index, m.id, cursors[m.id]);
            var delivered := SM.LogRunOf(Activated(m), from).entries;
            var r := Step(env, m, index, cursors);
            && r.cursors[m.id] >= from
            && (|delivered| > 0 && delivered[|delivered| - 1].revision > from ==>
                  r.cursors[m.id] == delivered[|delivered| - 1].revision)
  {
    var from := StartCursor(index, m.id, cursors[m.id]);
    StepIsScan(env, m, index, cursors);
    ScanCursorEnd(env.keys, Activated(m), from, index, cursors[m.id := from]);
  }

  /** Without a fault, the step of an active repository with a cursor is the scan from the
      caught-up cursor. */
  lemma StepIsScan(env: Environment, m: SM.Manager, index: seq<Document>, cursors: map<int, int>)
    requires m.id in cursors && Activated(m).active && FaultOf(env, m.id).NoFault?
    ensures var from := StartCursor(index, m.id, cursors[m.id]);
            Step(env, m, index, cursors) == Scan(env.keys, NoFault, Activated(m), from, index, cursors[m.id := from])
  {
    var m1 := Activated(m);
    assert Step(env, m, index, cursors) == Resume(env, m1, index, cursors);
  }

  /** Fault isolation: the pass over two lists of repositories is the pass over the first
      followed by the pass over the second, unless the first aborts. A repository whose
      processing throws a caught exception does not stop the repositories after it. */
  lemma {:induction false} PassAppend(env: Environment, a: seq<SM.Manager>, b: seq<SM.Manager>, index: seq<Document>, cursors: map<int, int>)
    requires !Pass(env, a, index, cursors).aborted
    ensures var pa := Pass(env, a, index, cursors);
            var pb := Pass(env, b, pa.index, pa.cursors);
            Pass(env, a + b, index, cursors) == PassResult(pb.index, pb.cursors, pa.managers + pb.managers, pb.aborted)
  {
    var step := StepOf(env);
    PassIsLoop(env, a, index, cursors);
    var pa := Pass(env, a, index, cursors);
    PassIsLoop(env, b, pa.index, pa.cursors);
    PassIsLoop(env, a + b, index, cursors);
    LoopAppend(step, a, b, index, cursors);
  }

  /** The pass's step for an environment, as a value. */
  function StepOf(env: Environment): (step: (SM.Manager, seq<Document>, map<int, int>) -> StepResult)
    ensures forall m, index, cursors :: step(m, index, cursors) == Step(env, m, index, cursors)
  {
    (m: SM.Manager, index: seq<Document>, cursors: map<int, int>) => Step(env, m, index, cursors)
  }

  /** The loop of the pass over any step function. */
  function Loop(step: (SM.Manager, seq<Document>, map<int, int>) -> StepResult, repos: seq<SM.Manager>,
                index: seq<Document>, cursors: map<int, int>): PassResult
    decreases |repos|
  {
    if |repos| == 0 then PassResult(index, cursors, [], false)
    else
      var st := step(repos[0], index, cursors);
      if st.status.Aborted? then PassResult(st.index, st.cursors, [st.manager] + repos[1..], true)
      else
        var rest := Loop(step, repos[1..], st.index, st.cursors);
        PassResult(rest.index, rest.cursors, [st.manager] + rest.managers, rest.aborted)
  }

  lemma {:induction false} PassIsLoop(env: Environment, repos: seq<SM.Manager>, index: seq<Document>, cursors: map<int, int>)
    ensures Pass(env, repos, index, cursors) == Loop(StepOf(env), repos, index, cursors)
    decreases |repos|
  {
    if |repos| > 0 {
      var st := Step(env, repos[0], index, cursors);
      assert StepOf(env)(repos[0], index, cursors) == st;
      PassIsLoop(env, repos[1..], st.index, st.cursors);
    }
  }

  /** Without an abort in `a`, looping over `a + b` is looping over `a` and then over `b`. */
  lemma {:induction false} LoopAppend(step: (SM.Manager, seq<Document>, map<int, int>) -> StepResult,
                                      a: seq<SM.Manager>, b: seq<SM.Manager>, index: seq<Document>, cursors: map<int, int>)
    requires !Loop(step, a, index, cursors).aborted
    ensures var pa := Loop(step, a, index, cursors);
            var pb := Loop(step, b, pa.index, pa.cursors);
            Loop(step, a + b, index, cursors) == PassResult(pb.index, pb.cursors, pa.managers + pb.managers, pb.aborted)
    decreases |a|
  {
    if |a| > 0 {
      var ab := a + b;
      assert ab[0] == a[0] && ab[1..] == a[1..] + b;
      var st := step(a[0], index, cursors);
      LoopAppend(step, a[1..], b, st.index, st.cursors);
      var pa := Loop(step, a[1..], st.index, st.cursors);
      var pb := Loop(step, b, pa.index, pa.cursors);
      assert [st.manager] + (pa.managers + pb.managers) == ([st.manager] + pa.managers) + pb.managers;
    } else {
      assert a + b == b;
    }
  }

  // ---------------------------------------------------------------------------------------------
  // Lifecycle operations.

  datatype IndexError = InfrastructureError | IOError

  /** What `addRepository` leaves behind: the state after the update, which keeps the reset
      cursor and every document written before an exception, and the exception rethrown. */
  datatype AddResult = AddResult(update: UpdateResult, error: Option<IndexError>)

  /** `addRepository`: the repository's cursor is set to NOT_INDEXED and the index updated;
      an exception ending the pass is rethrown as an InfrastructureException, and what the
      pass had done by then stays done. */
  function AddRepository(env: Environment, repos: seq<SM.Manager>, s: IndexState, id: int): (r: AddResult)
    ensures r.error.Some? <==> r.update.aborted
    ensures r.error.Some? ==> r.error.value == InfrastructureError
    ensures |r.update.managers| == |repos|
    ensures s.index.Some? ==> r.update.state.index.Some? && s.index.value <= r.update.state.index.value
    ensures s.index.Some? || !env.indexPathSet ==> id in r.update.state.cursors
    ensures !env.indexPathSet ==> r.update.state == s.(cursors := s.cursors[id := NOT_INDEXED]) && r.error.None?
  {
    var u := UpdateIndex(env, repos, s.(cursors := s.cursors[id := NOT_INDEXED]));
    AddResult(u, if u.aborted then Some(InfrastructureError) else None)
  }

  /** Whether or not the pass aborts, adding a repository keeps every document already
      indexed and lowers no cursor: the added repository's stays at NOT_INDEXED or above. */
  lemma AddRepositoryKeepsProgress(env: Environment, repos: seq<SM.Manager>, s: IndexState, id: int)
    requires env.indexPathSet && s.index.Some?
    ensures var r := AddRepository(env, repos, s, id).update.state;
            && s.index.value <= r.index.value
            && r.cursors[id] >= NOT_INDEXED
            && forall k :: k in s.cursors && k != id ==> r.cursors[k] >= s.cursors[k]
  {
    var s1 := s.(cursors := s.cursors[id := NOT_INDEXED]);
    PassCursorMonotone(env, repos, s.index.value, s1.cursors);
  }

  /** The documents of other repositories. */
  function WithoutRepository(index: seq<Document>, id: int): (r: seq<Document>)
    ensures forall d :: d in r <==> d in index && d.repository != id
    ensures |r| <= |index|
    decreases |index|
  {
    if |index| == 0 then []
    else
      var rest := WithoutRepository(index[1..], id);
      assert forall d :: d in index <==> d == index[0] || d in index[1..];
      if index[0].repository == id then rest else [index[0]] + rest
  }

  /** `removeEntries`: deletes every document of the repository and resets its cursor. An
      index that `indexDirectoryExists` does not find is left alone; failing to open the
      writer is rethrown. */
  function RemoveEntries(s: IndexState, id: int, pathSet: bool, writerFails: bool): (r: Result<IndexState, IndexError>)
    ensures IndexDirectory(pathSet, s).None? ==> r == Ok(s)
    ensures IndexDirectory(pathSet, s).Some? && writerFails ==> r == Err(IOError)
    ensures r.Ok? && IndexDirectory(pathSet, s).Some? ==>
              && r.value.index.Some?
              && (forall d :: d in r.value.index.value <==> d in s.index.value && d.repository != id)
              && r.value.cursors == s.cursors[id := NOT_INDEXED]
  {
    match IndexDirectory(pathSet, s)
    case None => Ok(s)
    case Some(index) =>
      if writerFails then Err(IOError)
      else Ok(IndexState(Some(WithoutRepository(index, id)), s.cursors[id := NOT_INDEXED]))
  }

  /** After `removeEntries` the next pass starts the repository from scratch: nothing of it
      remains to catch up with, so its scan begins at revision 0. */
  lemma RemoveThenRescan(s: IndexState, id: int)
    requires s.index.Some?
    ensures var r := RemoveEntries(s, id, true, false).value;
            && HighestRevision(r.index.value, id).None?
            && StartCursor(r.index.value, id, r.cursors[id]) == NOT_INDEXED
            && SM.RetrieveStart(StartCursor(r.index.value, id, r.cursors[id])) == 0
  {
    var r := RemoveEntries(s, id, true, false).value;
    forall i | 0 <= i < |r.index.value| ensures r.index.value[i].repository != id {
      assert r.index.value[i] in r.index.value;
    }
  }

  /** Removing entries keeps the index free of duplicates. */
  lemma {:induction false} RemoveKeepsNoDuplicates(index: seq<Document>, id: int)
    requires NoDuplicateRevisions(index)
    ensures NoDuplicateRevisions(WithoutRepository(index, id))
    decreases |index|
  {
    if |index| > 0 {
      var tail := index[1..];
      assert NoDuplicateRevisions(tail) by {
        forall i, j | 0 <= i < j < |tail|
          ensures tail[i].repository != tail[j].repository || tail[i].revision != tail[j].revision
        {
          assert tail[i] == index[i + 1] && tail[j] == index[j + 1];
        }
      }
      RemoveKeepsNoDuplicates(tail, id);
      var rest := WithoutRepository(tail, id);
      if index[0].repository != id {
        forall k | 0 <= k < |rest|
          ensures index[0].repository != rest[k].repository || index[0].revision != rest[k].revision
        {
          assert rest[k] in tail;
          var t :| 0 <= t < |tail| && tail[t] == rest[k];
          assert tail[t] == index[t + 1];
        }
      }
    }
  }
}
