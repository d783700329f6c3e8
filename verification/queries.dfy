/**
 * The three index queries of `RevisionIndexer` (`getLogEntriesByRepository`,
 * `getLogEntriesByProject`, `getLogEntriesByVersion`): a page window over the sorted hits,
 * a log-entry lookup per hit through the hit's repository manager, and grouping by
 * repository in first-seen order. Searching and sorting are Lucene's: a query receives its
 * hits as a sequence already in sort order.
 */
module Queries {
  import opened Wrappers
  import opened JavaLang
  import opened SvnLog
  import opened Sequences
  import opened Documents
  import SM = SubversionManagers
  import RI = RevisionIndexers

  // ---------------------------------------------------------------------------------------------
  // Grouping by repository (the LinkedHashMap the queries build).

  /** Lists keyed by repository id, in the order the keys were first inserted. */
  type Groups<T> = seq<(int, seq<T>)>

  /** The repository ids of a hit list, or the keys of groups in insertion order. */
  function KeysOf<X>(g: seq<(int, X)>): (r: seq<int>)
    ensures |r| == |g| && forall i :: 0 <= i < |g| ==> r[i] == g[i].0
  {
    seq(|g|, i requires 0 <= i < |g| => g[i].0)
  }

  /** The list of a repository, empty when it has none. */
  function Lookup<T>(g: Groups<T>, k: int): seq<T>
    decreases |g|
  {
    if |g| == 0 then [] else if g[0].0 == k then g[0].1 else Lookup(g[1..], k)
  }

  /** `entries.add` on the repository's list, creating the list on first use. */
  function Insert<T>(g: Groups<T>, k: int, x: T): (r: Groups<T>)
    ensures |r| == if k in KeysOf(g) then |g| else |g| + 1
    decreases |g|
  {
    if |g| == 0 then [(k, [x])]
    else if g[0].0 == k then [(k, g[0].1 + [x])] + g[1..]
    else
      assert k in KeysOf(g) <==> k in KeysOf(g[1..]) by {
        assert forall i :: 1 <= i < |g| ==> KeysOf(g)[i] == KeysOf(g[1..])[i - 1];
      }
      [g[0]] + Insert(g[1..], k, x)
  }

  /** The values filed under `k`, in order. */
  function Select<T>(items: seq<(int, T)>, k: int): seq<T>
    decreases |items|
  {
    if |items| == 0 then []
    else
      var last := items[|items| - 1];
      Select(items[..|items| - 1], k) + (if last.0 == k then [last.1] else [])
  }

  /** The grouping loop: each item is filed under its repository in turn. */
  function Group<T>(items: seq<(int, T)>): Groups<T>
    decreases |items|
  {
    if |items| == 0 then []
    else
      var last := items[|items| - 1];
      Insert(Group(items[..|items| - 1]), last.0, last.1)
  }

  /** The number of values in all lists. */
  function Total<T>(g: Groups<T>): nat
    decreases |g|
  {
    if |g| == 0 then 0 else |g[0].1| + Total(g[1..])
  }

  lemma {:induction false} InsertKeys<T>(g: Groups<T>, k: int, x: T)
    ensures KeysOf(Insert(g, k, x)) == if k in KeysOf(g) then KeysOf(g) else KeysOf(g) + [k]
    decreases |g|
  {
    if |g| > 0 {
      assert KeysOf(g) == [g[0].0] + KeysOf(g[1..]);
      if g[0].0 == k {
        assert KeysOf(Insert(g, k, x)) == [k] + KeysOf(g[1..]);
      } else {
        InsertKeys(g[1..], k, x);
        InsertKeysSkip(g, k, x);
      }
    }
  }

  /** Inserting under a key other than the first one's leaves the first key in front. */
  lemma InsertKeysSkip<T>(g: Groups<T>, k: int, x: T)
    requires |g| > 0 && g[0].0 != k
    requires KeysOf(Insert(g[1..], k, x))
             == if k in KeysOf(g[1..]) then KeysOf(g[1..]) else KeysOf(g[1..]) + [k]
    ensures KeysOf(Insert(g, k, x)) == if k in KeysOf(g) then KeysOf(g) else KeysOf(g) + [k]
  {
    var tail := KeysOf(g[1..]);
    var gi := Insert(g, k, x);
    KeysCons(g);
    assert gi[0] == g[0] && gi[1..] == Insert(g[1..], k, x);
    KeysCons(gi);
    KeyInTail(g, k);
    if k !in tail {
      AppendAssoc([g[0].0], tail, [k]);
    }
  }

  lemma KeysCons<T>(g: Groups<T>)
    requires |g| > 0
    ensures KeysOf(g) == [g[0].0] + KeysOf(g[1..])
  {
  }

  lemma KeyInTail<T>(g: Groups<T>, k: int)
    requires |g| > 0 && g[0].0 != k
    ensures k in KeysOf(g) <==> k in KeysOf(g[1..])
  {
    KeysCons(g);
  }

  lemma {:induction false} InsertLookup<T>(g: Groups<T>, k: int, x: T, k2: int)
    requires NoDuplicates(KeysOf(g))
    ensures Lookup(Insert(g, k, x), k2) == if k2 == k then Lookup(g, k) + [x] else Lookup(g, k2)
    decreases |g|
  {
    if |g| > 0 && g[0].0 != k {
      assert KeysOf(g) == [g[0].0] + KeysOf(g[1..]);
      assert NoDuplicates(KeysOf(g[1..])) by {
        forall i, j | 0 <= i < j < |g[1..]| ensures KeysOf(g[1..])[i] != KeysOf(g[1..])[j] {
          assert KeysOf(g[1..])[i] == KeysOf(g)[i + 1] && KeysOf(g[1..])[j] == KeysOf(g)[j + 1];
        }
      }
      InsertLookup(g[1..], k, x, k2);
    }
  }

  lemma {:induction false} InsertTotal<T>(g: Groups<T>, k: int, x: T)
    ensures Total(Insert(g, k, x)) == Total(g) + 1
    decreases |g|
  {
    if |g| > 0 {
      if g[0].0 == k {
        assert Insert(g, k, x)[1..] == g[1..];
      } else {
        InsertTotal(g[1..], k, x);
        assert Insert(g, k, x)[1..] == Insert(g[1..], k, x);
      }
    }
  }

  /** The repositories appear in the order of their first hit, each once. */
  lemma {:induction false} GroupKeys<T>(items: seq<(int, T)>)
    ensures KeysOf(Group(items)) == Distinct(KeysOf(items))
    decreases |items|
  {
    if |items| > 0 {
      var init := items[..|items| - 1];
      var last := items[|items| - 1];
      var gi := Group(init);
      assert KeysOf(items) == KeysOf(init) + [last.0];
      calc {
        KeysOf(Group(items));
        KeysOf(Insert(gi, last.0, last.1));
        { InsertKeys(gi, last.0, last.1); GroupKeys(init); }
        if last.0 in Distinct(KeysOf(init)) then Distinct(KeysOf(init)) else Distinct(KeysOf(init)) + [last.0];
        { DistinctSnoc(KeysOf(init), last.0); }
        Distinct(KeysOf(init) + [last.0]);
      }
    }
  }

  /** Each repository's list holds its hits' values in hit order. */
  lemma {:induction false} GroupLookup<T>(items: seq<(int, T)>, k: int)
    ensures Lookup(Group(items), k) == Select(items, k)
    decreases |items|
  {
    if |items| > 0 {
      var init := items[..|items| - 1];
      var last := items[|items| - 1];
      GroupLookup(init, k);
      GroupKeys(init);
      InsertLookup(Group(init), last.0, last.1, k);
    }
  }

  /** Grouping neither drops nor duplicates a value. */
  lemma {:induction false} GroupTotal<T>(items: seq<(int, T)>)
    ensures Total(Group(items)) == |items|
    decreases |items|
  {
    if |items| > 0 {
      var init := items[..|items| - 1];
      GroupTotal(init);
      InsertTotal(Group(init), items[|items| - 1].0, items[|items| - 1].1);
    }
  }

  // ---------------------------------------------------------------------------------------------
  // The page window.

  function Min(a: int, b: int): int {
    if a < b then a else b
  }

  /** The loop over hit positions `i < limit`, keeping those with `start <= i < end`. */
  function WindowFrom<T>(hits: seq<T>, i: nat, limit: nat, start: int, end: int): (r: seq<T>)
    requires limit <= |hits|
    ensures |r| <= if i <= limit then limit - i else 0
    decreases limit - i
  {
    if i >= limit then []
    else (if i < start || i >= end then [] else [hits[i]]) + WindowFrom(hits, i + 1, limit, start, end)
  }

  /** The hits a query looks at: positions below `min(totalHits, 100)` and inside
      [startIndex, startIndex + pageSize), the end computed in 32-bit arithmetic. */
  function Window<T>(hits: seq<T>, start: int, pageSize: int): (r: seq<T>)
    ensures |r| <= RI.MAX_REVISIONS
  {
    WindowFrom(hits, 0, Min(|hits|, RI.MAX_REVISIONS), start, Wrap32(start + pageSize))
  }

  function Clamp(x: int, lo: int, hi: int): int
    requires lo <= hi
  {
    if x < lo then lo else if x > hi then hi else x
  }

  /** The loop keeps one contiguous run of positions. */
  lemma {:induction false} WindowFromSlice<T>(hits: seq<T>, i: nat, limit: nat, start: int, end: int)
    requires i <= limit <= |hits|
    ensures var lo := Clamp(start, i, limit);
            var hi := Clamp(end, lo, limit);
            WindowFrom(hits, i, limit, start, end) == hits[lo..hi]
    decreases limit - i
  {
    if i < limit {
      WindowFromSlice(hits, i + 1, limit, start, end);
      var rest := WindowFrom(hits, i + 1, limit, start, end);
      var lo := Clamp(start, i, limit);
      var hi := Clamp(end, lo, limit);
      if i < start {
        assert lo == Clamp(start, i + 1, limit);
        assert WindowFrom(hits, i, limit, start, end) == rest;
      } else if i >= end {
        assert lo == i && hi == i;
        assert Clamp(start, i + 1, limit) == i + 1 && Clamp(end, i + 1, limit) == i + 1;
        assert rest == [];
      } else {
        assert lo == i && Clamp(start, i + 1, limit) == i + 1;
        assert Clamp(end, i + 1, limit) == hi;
        assert WindowFrom(hits, i, limit, start, end) == [hits[i]] + hits[i + 1..hi];
        assert [hits[i]] + hits[i + 1..hi] == hits[i..hi];
      }
    }
  }

  /** The window is the run of hits from `max(startIndex, 0)` up to the smaller of the page
      end and `min(totalHits, 100)`. */
  lemma WindowIsSlice<T>(hits: seq<T>, start: int, pageSize: int)
    ensures var limit := Min(|hits|, RI.MAX_REVISIONS);
            var lo := Clamp(start, 0, limit);
            Window(hits, start, pageSize) == hits[lo..Clamp(Wrap32(start + pageSize), lo, limit)]
  {
    WindowFromSlice(hits, 0, Min(|hits|, RI.MAX_REVISIONS), start, Wrap32(start + pageSize));
  }

  /** Without 32-bit overflow of the page end, a window holds at most `pageSize` hits. */
  lemma WindowLength<T>(hits: seq<T>, start: int, pageSize: int)
    requires IsInt(start + pageSize)
    ensures |Window(hits, start, pageSize)| <= if pageSize < 0 then 0 else pageSize
  {
    WindowIsSlice(hits, start, pageSize);
  }

  // ---------------------------------------------------------------------------------------------
  // Looking up the hits' commits.

  /** What asking a hit's repository for its commit gives: the entry, `null`, or an
      exception (an unknown repository id is a NullPointerException; an inactive or failing
      manager throws). */
  datatype Fetched = Found(entry: LogEntry) | Missing | Failed

  /** `getRepository(repositoryId).getLogEntry(revision)` for one hit. An active manager
      whose cache agrees with its server answers with the server's entry for the revision. */
  function Fetch(managers: map<int, SM.Manager>, d: Document): (r: Fetched)
    ensures d.repository !in managers ==> r.Failed?
    ensures r.Found? ==> d.repository in managers
    ensures d.repository in managers && !managers[d.repository].active ==> r.Failed?
    ensures d.repository in managers && managers[d.repository].active
            && SM.CacheAgrees(managers[d.repository])
            && d.revision !in managers[d.repository].server.fetchFaults
            ==> r == match SM.FindRevision(managers[d.repository].server.history, d.revision)
                     case Some(e) => Found(e)
                     case None => Missing
  {
    if d.repository !in managers then Failed
    else match SM.GetLogEntry(managers[d.repository], d.revision).1
      case Err(_) => Failed
      case Ok(None) => Missing
      case Ok(Some(e)) => Found(e)
  }

  /** The repository of each hit, in hit order. */
  function Repositories(window: seq<Document>): (r: seq<int>)
    ensures |r| == |window| && forall j :: 0 <= j < |window| ==> r[j] == window[j].repository
  {
    seq(|window|, j requires 0 <= j < |window| => window[j].repository)
  }

  /** The value a hit contributes: its commit, or `null` when its repository does not have
      it. */
  function FetchedValue(managers: map<int, SM.Manager>, d: Document): (v: Option<LogEntry>)
    ensures v.Some? <==> Fetch(managers, d).Found?
    ensures v.Some? ==> v.value == Fetch(managers, d).entry
  {
    if Fetch(managers, d).Found? then Some(Fetch(managers, d).entry) else None
  }

  /** Every hit of a window, tagged with its repository, with its value. */
  function Tagged(window: seq<Document>, managers: map<int, SM.Manager>): (r: seq<(int, Option<LogEntry>)>)
    ensures |r| == |window|
    ensures forall j :: 0 <= j < |window| ==> r[j] == (window[j].repository, FetchedValue(managers, window[j]))
  {
    seq(|window|, j requires 0 <= j < |window| => (window[j].repository, FetchedValue(managers, window[j])))
  }

  /** The items whose value is not `null`, in order. */
  function Present<T>(items: seq<(int, Option<T>)>): (r: seq<(int, Option<T>)>)
    ensures forall i :: 0 <= i < |r| ==> r[i].1.Some?
    ensures forall x :: x in r ==> x in items
    ensures |r| <= |items|
    decreases |items|
  {
    if |items| == 0 then []
    else
      var last := items[|items| - 1];
      var p := Present(items[..|items| - 1]);
      assert forall x :: x in p ==> x in items by {
        forall x | x in p ensures x in items {
          var i :| 0 <= i < |items[..|items| - 1]| && items[..|items| - 1][i] == x;
          assert items[i] == x;
        }
      }
      p + (if last.1.Some? then [last] else [])
  }

  /** A list with its `null` values removed. */
  function DropNone<T>(s: seq<Option<T>>): (r: seq<Option<T>>)
    ensures forall i :: 0 <= i < |r| ==> r[i].Some?
    decreases |s|
  {
    if |s| == 0 then []
    else DropNone(s[..|s| - 1]) + (if s[|s| - 1].Some? then [s[|s| - 1]] else [])
  }

  datatype QueryError = LookupFailed

  /** The number of hits whose repository answers `null`. */
  function MissingCount(window: seq<Document>, managers: map<int, SM.Manager>): (n: nat)
    ensures n <= |window|
    decreases |window|
  {
    if |window| == 0 then 0
    else (if Fetch(managers, window[0]).Missing? then 1 else 0) + MissingCount(window[1..], managers)
  }

  /** The hits' commits keyed by repository, in hit order. A missing commit is dropped, or
      kept as `null` when `keepMissing`; any exception ends the query. */
  function Collect(window: seq<Document>, managers: map<int, SM.Manager>, keepMissing: bool): (r: Result<seq<(int, Option<LogEntry>)>, QueryError>)
    ensures r.Err? <==> exists j :: 0 <= j < |window| && Fetch(managers, window[j]).Failed?
    ensures r.Ok? && keepMissing ==> r.value == Tagged(window, managers)
    ensures r.Ok? && !keepMissing ==> r.value == Present(Tagged(window, managers))
    ensures r.Ok? && !keepMissing ==> |r.value| == |window| - MissingCount(window, managers)
    decreases |window|
  {
    if |window| == 0 then Ok([])
    else
      var d := window[0];
      if Fetch(managers, d).Failed? then Err(LookupFailed)
      else match Collect(window[1..], managers, keepMissing)
        case Err(e) =>
          assert forall j :: 1 <= j < |window| ==> window[j] == window[1..][j - 1];
          Err(e)
        case Ok(rest) =>
          var item := (d.repository, FetchedValue(managers, d));
          CollectCons(window, managers);
          CollectValueCons(window, managers, keepMissing, rest);
          Ok(if keepMissing || item.1.Some? then [item] + rest else rest)
  }

  /** A window none of whose later hits fails has no failing hit beyond its first. */
  lemma CollectCons(window: seq<Document>, managers: map<int, SM.Manager>)
    requires |window| > 0 && !Fetch(managers, window[0]).Failed?
    ensures (exists j :: 0 <= j < |window| && Fetch(managers, window[j]).Failed?)
            <==> (exists j :: 0 <= j < |window[1..]| && Fetch(managers, window[1..][j]).Failed?)
  {
    assert forall j :: 1 <= j < |window| ==> window[j] == window[1..][j - 1];
  }

  /** Collecting the first hit in front of the rest's values gives the window's values. */
  lemma CollectValueCons(window: seq<Document>, managers: map<int, SM.Manager>, keepMissing: bool,
                         rest: seq<(int, Option<LogEntry>)>)
    requires |window| > 0 && !Fetch(managers, window[0]).Failed?
    requires keepMissing ==> rest == Tagged(window[1..], managers)
    requires !keepMissing ==> rest == Present(Tagged(window[1..], managers))
                              && |rest| == |window| - 1 - MissingCount(window[1..], managers)
    ensures var item := (window[0].repository, FetchedValue(managers, window[0]));
            var r := if keepMissing || item.1.Some? then [item] + rest else rest;
            && (keepMissing ==> r == Tagged(window, managers))
            && (!keepMissing ==> r == Present(Tagged(window, managers))
                                 && |r| == |window| - MissingCount(window, managers))
  {
    var item := (window[0].repository, FetchedValue(managers, window[0]));
    TaggedCons(window, managers);
    if !keepMissing {
      PresentCons(item, Tagged(window[1..], managers));
      assert MissingCount(window, managers) == (if item.1.None? then 1 else 0) + MissingCount(window[1..], managers);
    }
  }

  lemma TaggedCons(window: seq<Document>, managers: map<int, SM.Manager>)
    requires |window| > 0
    ensures Tagged(window, managers)
            == [(window[0].repository, FetchedValue(managers, window[0]))] + Tagged(window[1..], managers)
  {
    assert forall j :: 1 <= j < |window| ==> window[j] == window[1..][j - 1];
  }

  /** `Present` splits off a first item like a loop running forwards. */
  lemma {:induction false} PresentCons<T>(x: (int, Option<T>), s: seq<(int, Option<T>)>)
    ensures Present([x] + s) == (if x.1.Some? then [x] else []) + Present(s)
    decreases |s|
  {
    if |s| > 0 {
      var t := [x] + s;
      var init := s[..|s| - 1];
      assert t[..|t| - 1] == [x] + init;
      assert t[|t| - 1] == s[|s| - 1];
      PresentCons(x, init);
      AppendAssoc(if x.1.Some? then [x] else [], Present(init),
                  if s[|s| - 1].1.Some? then [s[|s| - 1]] else []);
    } else {
      assert [x] + s == [x];
    }
  }

  lemma {:induction false} SelectMember<T>(items: seq<(int, T)>, k: int, x: T)
    requires x in Select(items, k)
    ensures (k, x) in items
    decreases |items|
  {
    var init := items[..|items| - 1];
    var last := items[|items| - 1];
    if x in Select(init, k) {
      SelectMember(init, k, x);
      var i :| 0 <= i < |init| && init[i] == (k, x);
      assert items[i] == (k, x);
    } else {
      assert last == (k, x);
    }
  }

  /** Selecting a repository's values after dropping `null` items is selecting them and then
      dropping `null` values. */
  lemma {:induction false} SelectPresent<T>(items: seq<(int, Option<T>)>, k: int)
    ensures Select(Present(items), k) == DropNone(Select(items, k))
    decreases |items|
  {
    if |items| > 0 {
      var init := items[..|items| - 1];
      var last := items[|items| - 1];
      SelectPresent(init, k);
      var u := Select(init, k);
      var pi := Present(init);
      if last.1.Some? {
        var p := pi + [last];
        assert p[..|p| - 1] == pi && p[|p| - 1] == last;
      } else {
        assert Present(items) == pi + [];
        assert pi + [] == pi;
      }
      if last.0 == k {
        var s := u + [last.1];
        assert s[..|s| - 1] == u && s[|s| - 1] == last.1;
      } else {
        assert Select(items, k) == u + [];
        assert u + [] == u;
      }
    }
  }

  // ---------------------------------------------------------------------------------------------
  // The three queries.

  /** A query's outcome: `null` (no index, or no hit list), or the grouped commits. */
  type QueryResult = Result<Option<Groups<Option<LogEntry>>>, QueryError>

  /** `getLogEntriesByRepository`: commits for an issue; a commit the server does not have is
      dropped. `index` is what `indexDirectoryExists` finds (`RevisionIndexers.IndexDirectory`). */
  function ByIssue(index: Option<seq<Document>>, hits: seq<Document>, managers: map<int, SM.Manager>, start: int, pageSize: int): (r: QueryResult)
    ensures index.None? ==> r == Ok(None)
    ensures index.Some? ==> (r.Err? <==> exists j :: 0 <= j < |Window(hits, start, pageSize)| && Fetch(managers, Window(hits, start, pageSize)[j]).Failed?)
    ensures r.Ok? && index.Some? ==> r.value.Some?
  {
    if index.None? then Ok(None)
    else match Collect(Window(hits, start, pageSize), managers, false)
      case Err(e) => Err(e)
      case Ok(items) => Ok(Some(Group(items)))
  }

  /** `getLogEntriesByProject`: like the issue query over the permission-filtered project
      hits; a missing hit list gives `null`. */
  function ByProject(index: Option<seq<Document>>, hits: Option<seq<Document>>, managers: map<int, SM.Manager>, start: int, pageSize: int): (r: QueryResult)
    ensures index.None? || hits.None? ==> r == Ok(None)
    ensures index.Some? && hits.Some? ==> r == ByIssue(index, hits.value, managers, start, pageSize)
  {
    if index.None? || hits.None? then Ok(None)
    else ByIssue(index, hits.value, managers, start, pageSize)
  }

  /** `getLogEntriesByVersion`: like the project query, except that a commit the server does
      not have is kept as `null`. */
  function ByVersion(index: Option<seq<Document>>, hits: Option<seq<Document>>, managers: map<int, SM.Manager>, start: int, pageSize: int): (r: QueryResult)
    ensures index.None? || hits.None? ==> r == Ok(None)
    ensures index.Some? && hits.Some? ==>
              (r.Err? <==> exists j :: 0 <= j < |Window(hits.value, start, pageSize)| && Fetch(managers, Window(hits.value, start, pageSize)[j]).Failed?)
    ensures r.Ok? && index.Some? && hits.Some? ==> r.value.Some?
  {
    if index.None? || hits.None? then Ok(None)
    else match Collect(Window(hits.value, start, pageSize), managers, true)
      case Err(e) => Err(e)
      case Ok(items) => Ok(Some(Group(items)))
  }

  /** A document carries one of the keys among its issue-key fields. */
  predicate Carries(d: Document, keys: set<string>) {
    exists i :: 0 <= i < |d.issueKeys| && d.issueKeys[i] in keys
  }

  /** A search for issue keys: every hit is a document of the index carrying one of them.
      (Lucene's filters may remove matches, so not every such document need be a hit.) */
  predicate HitsFor(index: seq<Document>, hits: seq<Document>, keys: set<string>) {
    forall d :: d in hits ==> d in index && Carries(d, keys)
  }

  /** The issue keys the version query searches for: those of issues fixed in or affected by
      the version that the user may see. */
  function VersionQueryKeys(fixed: seq<string>, affected: seq<string>, permitted: string -> bool): (r: set<string>)
    ensures forall k :: k in r <==> (k in fixed || k in affected) && permitted(k)
  {
    set k | k in fixed + affected && permitted(k)
  }

  /** The issue query searches for the issue's key and every key it had before a move. */
  function IssueQueryKeys(key: string, previous: seq<string>): (r: set<string>)
    ensures forall k :: k in r <==> k == key || k in previous
  {
    {key} + set k | k in previous
  }

  // ---------------------------------------------------------------------------------------------
  // Properties of the queries.

  /** The issue and project queries never return a `null` commit; each repository's list holds
      the found commits of its hits in hit order, and repositories come in order of first
      hit with a found commit. */
  lemma ByIssueGrouping(index: Option<seq<Document>>, hits: seq<Document>, managers: map<int, SM.Manager>, start: int, pageSize: int, k: int)
    requires ByIssue(index, hits, managers, start, pageSize).Ok?
    requires index.Some?
    ensures var items := Present(Tagged(Window(hits, start, pageSize), managers));
            var g := ByIssue(index, hits, managers, start, pageSize).value.value;
            && KeysOf(g) == Distinct(KeysOf(items))
            && Lookup(g, k) == Select(items, k)
            && (forall i :: 0 <= i < |items| ==> items[i].1.Some?)
  {
    var items := Collect(Window(hits, start, pageSize), managers, false).value;
    GroupKeys(items);
    GroupLookup(items, k);
  }

  /** The version query keeps one value, possibly `null`, for every hit in the window, filed
      under the hit's repository in hit order. */
  lemma ByVersionKeepsEveryHit(index: Option<seq<Document>>, hits: Option<seq<Document>>, managers: map<int, SM.Manager>, start: int, pageSize: int, k: int)
    requires ByVersion(index, hits, managers, start, pageSize).Ok?
    requires index.Some? && hits.Some?
    ensures var w := Window(hits.value, start, pageSize);
            var g := ByVersion(index, hits, managers, start, pageSize).value.value;
            && Total(g) == |w|
            && KeysOf(g) == Distinct(Repositories(w))
            && Lookup(g, k) == Select(Tagged(w, managers), k)
  {
    var w := Window(hits.value, start, pageSize);
    var items := Tagged(w, managers);
    GroupTotal(items);
    GroupKeys(items);
    GroupLookup(items, k);
    assert KeysOf(items) == Repositories(w);
  }

  /** On the same hits, each repository's list from the issue query is its list from the
      version query with the `null` values removed: the issue query drops exactly the commits
      the version query keeps as `null`. */
  lemma MissingAsymmetry(index: Option<seq<Document>>, hits: seq<Document>, managers: map<int, SM.Manager>, start: int, pageSize: int, k: int)
    requires index.Some?
    requires ByVersion(index, Some(hits), managers, start, pageSize).Ok?
    ensures ByIssue(index, hits, managers, start, pageSize).Ok?
    ensures var w := Window(hits, start, pageSize);
            var byIssue := ByIssue(index, hits, managers, start, pageSize).value.value;
            var byVersion := ByVersion(index, Some(hits), managers, start, pageSize).value.value;
            && Lookup(byIssue, k) == DropNone(Lookup(byVersion, k))
            && Total(byVersion) == |w|
            && Total(byIssue) == |w| - MissingCount(w, managers)
  {
    var w := Window(hits, start, pageSize);
    var items := Tagged(w, managers);
    GroupLookup(items, k);
    GroupLookup(Present(items), k);
    SelectPresent(items, k);
    GroupTotal(items);
    GroupTotal(Present(items));
  }

  /** A hit of the window is a hit. */
  lemma WindowMember(hits: seq<Document>, start: int, pageSize: int, j: int)
    requires 0 <= j < |Window(hits, start, pageSize)|
    ensures Window(hits, start, pageSize)[j] in hits
  {
    WindowIsSlice(hits, start, pageSize);
  }

  /** Every commit the issue query returns was found for a hit of the index that carries the
      issue's key or one of its previous keys, and is filed under that hit's repository. */
  lemma ByIssueMatchesKeys(index: seq<Document>, hits: seq<Document>, managers: map<int, SM.Manager>, start: int, pageSize: int,
                           key: string, previous: seq<string>, g: Groups<Option<LogEntry>>, k: int, e: LogEntry)
    requires HitsFor(index, hits, IssueQueryKeys(key, previous))
    requires ByIssue(Some(index), hits, managers, start, pageSize) == Ok(Some(g))
    requires Some(e) in Lookup(g, k)
    ensures exists d :: d in hits && d in index && Carries(d, IssueQueryKeys(key, previous))
                        && d.repository == k && Fetch(managers, d) == Found(e)
  {
    var w := Window(hits, start, pageSize);
    ByIssueGrouping(Some(index), hits, managers, start, pageSize, k);
    SelectMember(Present(Tagged(w, managers)), k, Some(e));
    var j :| 0 <= j < |w| && Tagged(w, managers)[j] == (k, Some(e));
    WindowMember(hits, start, pageSize, j);
  }

  /** Every value the version query returns, `null` or not, is what a hit carrying one of the
      version's permitted issue keys gave, filed under that hit's repository. */
  lemma ByVersionMatchesKeys(index: seq<Document>, hits: seq<Document>, managers: map<int, SM.Manager>, start: int, pageSize: int,
                             fixed: seq<string>, affected: seq<string>, permitted: string -> bool,
                             g: Groups<Option<LogEntry>>, k: int, v: Option<LogEntry>)
    requires HitsFor(index, hits, VersionQueryKeys(fixed, affected, permitted))
    requires ByVersion(Some(index), Some(hits), managers, start, pageSize) == Ok(Some(g))
    requires v in Lookup(g, k)
    ensures exists d :: d in hits && d in index && Carries(d, VersionQueryKeys(fixed, affected, permitted))
                        && d.repository == k && FetchedValue(managers, d) == v
  {
    var w := Window(hits, start, pageSize);
    ByVersionKeepsEveryHit(Some(index), Some(hits), managers, start, pageSize, k);
    SelectMember(Tagged(w, managers), k, v);
    var j :| 0 <= j < |w| && Tagged(w, managers)[j] == (k, v);
    WindowMember(hits, start, pageSize, j);
  }
}
