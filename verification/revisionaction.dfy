/**
 * One commit shown in an issue's Subversion tab (`SubversionRevisionAction`): a copy of the
 * log entry whose message has every issue key it mentions rewritten in the key's own
 * (upper) case, so that the page can link it, and the per-path change-type tests.
 */
module RevisionActions {
  import opened Wrappers
  import opened JavaLang
  import opened SvnLog
  import opened Sequences
  import Documents

  // ---------------------------------------------------------------------------------------------
  // Case-insensitive key rewriting.

  /** `key` occurs at position `i` of `s` when case is ignored. */
  predicate MatchesAt(s: string, key: string, i: int) {
    0 <= i && i + |key| <= |s| && EqualsIgnoreCase(s[i..i + |key|], key)
  }

  /** A key that upper-casing leaves alone. */
  predicate IsUpper(key: string) {
    forall i :: 0 <= i < |key| ==> ToUpper(key[i]) == key[i]
  }

  /** `replaceAll("(?ium)" + key, key)`: every case variant of the key, found left to right
      without overlaps, becomes the key itself. An empty key matches only the empty text
      between characters and changes nothing. */
  function RewriteKey(s: string, key: string): (r: string)
    ensures |r| == |s|
    decreases |s|
  {
    if |key| == 0 || |s| < |key| then s
    else if MatchesAt(s, key, 0) then key + RewriteKey(s[|key|..], key)
    else [s[0]] + RewriteKey(s[1..], key)
  }

  /** Each key in turn, in the order the key set is walked. */
  function RewriteKeys(s: string, keys: seq<string>): (r: string)
    ensures |r| == |s|
    decreases |keys|
  {
    if |keys| == 0 then s else RewriteKeys(RewriteKey(s, keys[0]), keys[1..])
  }

  /** `rewriteLogMessage`: the keys are extracted from the upper-cased message and
      deduplicated, then each is rewritten. A `null` message stays `null`. */
  function RewriteLogMessage(o: Documents.KeyOracle, message: Option<string>): (r: Option<string>)
    ensures r.None? <==> message.None?
    ensures r.Some? ==> |r.value| == |message.value|
  {
    match message
    case None => None
    case Some(m) => Some(RewriteKeys(m, Distinct(Documents.IssueKeys(o, m))))
  }

  /** Every character is kept or upper-cased. */
  predicate CaseOnly(before: string, after: string) {
    |after| == |before| && forall j :: 0 <= j < |before| ==> after[j] == before[j] || after[j] == ToUpper(before[j])
  }

  lemma ToUpperIdempotent(c: char)
    ensures ToUpper(ToUpper(c)) == ToUpper(c)
  {
  }

  lemma CaseOnlyTransitive(a: string, b: string, c: string)
    requires CaseOnly(a, b) && CaseOnly(b, c)
    ensures CaseOnly(a, c)
  {
    forall j | 0 <= j < |a| ensures c[j] == a[j] || c[j] == ToUpper(a[j]) {
      ToUpperIdempotent(a[j]);
    }
  }

  /** Rewriting an upper-case key only upper-cases characters: the text is the same apart
      from case. */
  lemma {:induction false} RewriteKeyCaseOnly(s: string, key: string)
    requires IsUpper(key)
    ensures CaseOnly(s, RewriteKey(s, key))
    decreases |s|
  {
    var r := RewriteKey(s, key);
    if |key| == 0 || |s| < |key| {
    } else if MatchesAt(s, key, 0) {
      RewriteKeyCaseOnly(s[|key|..], key);
      forall j | 0 <= j < |s| ensures r[j] == s[j] || r[j] == ToUpper(s[j]) {
        if j < |key| {
          assert s[..|key|][j] == s[j];
          assert ToUpper(s[j]) == ToUpper(key[j]) == key[j];
        } else {
          assert r[j] == RewriteKey(s[|key|..], key)[j - |key|];
        }
      }
    } else {
      RewriteKeyCaseOnly(s[1..], key);
      forall j | 0 <= j < |s| ensures r[j] == s[j] || r[j] == ToUpper(s[j]) {
        if j > 0 {
          assert r[j] == RewriteKey(s[1..], key)[j - 1];
        }
      }
    }
  }

  /** Rewriting every key only upper-cases characters. */
  lemma {:induction false} RewriteKeysCaseOnly(s: string, keys: seq<string>)
    requires forall k :: k in keys ==> IsUpper(k)
    ensures CaseOnly(s, RewriteKeys(s, keys))
    decreases |keys|
  {
    if |keys| > 0 {
      var s1 := RewriteKey(s, keys[0]);
      RewriteKeyCaseOnly(s, keys[0]);
      RewriteKeysCaseOnly(s1, keys[1..]);
      CaseOnlyTransitive(s, s1, RewriteKeys(s1, keys[1..]));
    }
  }

  /** Text whose every case variant of the key is already the key comes back unchanged. */
  lemma {:induction false} RewriteKeyUnchanged(s: string, key: string)
    requires forall i :: MatchesAt(s, key, i) ==> s[i..i + |key|] == key
    ensures RewriteKey(s, key) == s
    decreases |s|
  {
    if |key| == 0 || |s| < |key| {
    } else if MatchesAt(s, key, 0) {
      var t := s[|key|..];
      forall i | MatchesAt(t, key, i) ensures t[i..i + |key|] == key {
        assert t[i..i + |key|] == s[i + |key|..i + |key| + |key|];
        assert MatchesAt(s, key, i + |key|);
      }
      RewriteKeyUnchanged(t, key);
      assert s[..|key|] == key;
      assert s[..|key|] + t == s;
    } else {
      var t := s[1..];
      forall i | MatchesAt(t, key, i) ensures t[i..i + |key|] == key {
        assert t[i..i + |key|] == s[i + 1..i + 1 + |key|];
        assert MatchesAt(s, key, i + 1);
      }
      RewriteKeyUnchanged(t, key);
      assert [s[0]] + t == s;
    }
  }

  /** Matching ignores case, so it sees the same positions in texts that differ only in case. */
  lemma MatchesAtCaseOnly(s: string, r: string, key: string, i: int)
    requires CaseOnly(s, r)
    ensures MatchesAt(r, key, i) <==> MatchesAt(s, key, i)
  {
    if 0 <= i && i + |key| <= |s| {
      var a, b := r[i..i + |key|], s[i..i + |key|];
      forall j | 0 <= j < |key| ensures ToUpper(a[j]) == ToUpper(b[j]) {
        ToUpperIdempotent(s[i + j]);
      }
    }
  }

  /** Rewriting an upper-case key twice is rewriting it once. */
  lemma {:induction false} RewriteKeyIdempotent(s: string, key: string)
    requires IsUpper(key)
    ensures RewriteKey(RewriteKey(s, key), key) == RewriteKey(s, key)
    decreases |s|
  {
    var r := RewriteKey(s, key);
    if |key| == 0 || |s| < |key| {
    } else if MatchesAt(s, key, 0) {
      var rest := RewriteKey(s[|key|..], key);
      assert r == key + rest;
      assert r[..|key|] == key && r[|key|..] == rest;
      assert MatchesAt(r, key, 0);
      RewriteKeyIdempotent(s[|key|..], key);
    } else {
      var rest := RewriteKey(s[1..], key);
      assert r == [s[0]] + rest;
      RewriteKeyCaseOnly(s, key);
      MatchesAtCaseOnly(s, r, key, 0);
      assert r[1..] == rest;
      RewriteKeyIdempotent(s[1..], key);
    }
  }

  /** When the leftmost case variant of the key starts at `k`, that occurrence is written as
      the key itself. */
  lemma {:induction false} RewriteKeyFirstMatch(s: string, key: string, k: nat)
    requires |key| > 0 && MatchesAt(s, key, k)
    requires forall i :: 0 <= i < k ==> !MatchesAt(s, key, i)
    ensures RewriteKey(s, key)[k..k + |key|] == key
    decreases k
  {
    if k == 0 {
    } else {
      var t := s[1..];
      RewriteKeyStep(s, key);
      FirstMatchInTail(s, key, k);
      RewriteKeyFirstMatch(t, key, k - 1);
      ConsSlice(s[0], RewriteKey(t, key), k - 1, k - 1 + |key|);
    }
  }

  /** Where no variant of the key starts, the first character is copied and the scan moves on
      by one. */
  lemma RewriteKeyStep(s: string, key: string)
    requires |key| > 0 && |s| > 0 && !MatchesAt(s, key, 0)
    ensures RewriteKey(s, key) == [s[0]] + RewriteKey(s[1..], key)
  {
  }

  /** A match in the tail of a text is a match one position further in the text. */
  lemma MatchesAtShift(s: string, key: string, i: nat)
    requires |s| > 0
    ensures MatchesAt(s[1..], key, i) <==> MatchesAt(s, key, i + 1)
  {
    if i + |key| <= |s| - 1 {
      assert s[1..][i..i + |key|] == s[i + 1..i + 1 + |key|];
    }
  }

  /** The leftmost match at `k` in a text is the leftmost match at `k - 1` in its tail. */
  lemma FirstMatchInTail(s: string, key: string, k: nat)
    requires 0 < k && MatchesAt(s, key, k)
    requires forall i :: 0 <= i < k ==> !MatchesAt(s, key, i)
    ensures MatchesAt(s[1..], key, k - 1)
    ensures forall i :: 0 <= i < k - 1 ==> !MatchesAt(s[1..], key, i)
  {
    MatchesAtShift(s, key, k - 1);
    forall i | 0 <= i < k - 1 ensures !MatchesAt(s[1..], key, i) {
      MatchesAtShift(s, key, i);
    }
  }

  lemma ConsSlice(c: char, t: string, a: nat, b: nat)
    requires a <= b <= |t|
    ensures ([c] + t)[a + 1..b + 1] == t[a..b]
  {
  }

  /** A message whose keys already appear only in upper case is left exactly as it was. */
  lemma {:induction false} RewriteKeysUnchanged(s: string, keys: seq<string>)
    requires forall k, i :: k in keys && MatchesAt(s, k, i) ==> s[i..i + |k|] == k
    ensures RewriteKeys(s, keys) == s
    decreases |keys|
  {
    if |keys| > 0 {
      RewriteKeyUnchanged(s, keys[0]);
      RewriteKeysUnchanged(s, keys[1..]);
    }
  }

  // ---------------------------------------------------------------------------------------------
  // The action.

  datatype RevisionAction = RevisionAction(revision: LogEntry, repoId: int)

  /** The constructor: the entry is copied with its message rewritten. */
  function NewRevisionAction(o: Documents.KeyOracle, entry: LogEntry, repoId: int): (a: RevisionAction)
    ensures a.repoId == repoId
    ensures a.revision.(message := entry.message) == entry
    ensures a.revision.message.None? <==> entry.message.None?
  {
    RevisionAction(entry.(message := RewriteLogMessage(o, entry.message)), repoId)
  }

  /** The shown message differs from the commit's only in the case of some characters, when
      the extracted keys are upper case. */
  lemma ActionMessageCaseOnly(o: Documents.KeyOracle, entry: LogEntry, repoId: int)
    requires entry.message.Some?
    requires forall k :: k in Documents.IssueKeys(o, entry.message.value) ==> IsUpper(k)
    ensures CaseOnly(entry.message.value, NewRevisionAction(o, entry, repoId).revision.message.value)
  {
    var keys := Documents.IssueKeys(o, entry.message.value);
    RewriteKeysCaseOnly(entry.message.value, Distinct(keys));
  }

  /** Why `getTimePerformed` throws: the entry carries no date. */
  datatype TimeError = NoRevisionDate

  /** `getTimePerformed`. */
  function TimePerformed(a: RevisionAction): (r: Result<int, TimeError>)
    ensures r.Err? <==> a.revision.date.None?
    ensures r.Ok? ==> Some(r.value) == a.revision.date
  {
    match a.revision.date
    case None => Err(NoRevisionDate)
    case Some(d) => Ok(d)
  }

  predicate IsAdded(p: ChangePath) { p.kind == ADDED }

  predicate IsModified(p: ChangePath) { p.kind == MODIFICATION }

  predicate IsReplaced(p: ChangePath) { p.kind == REPLACED }

  predicate IsDeleted(p: ChangePath) { p.kind == DELETED }

  /** The change-type tests are exclusive, and one holds exactly for the four known letters. */
  lemma ChangeTypesExclusive(p: ChangePath)
    ensures !(IsAdded(p) && IsModified(p)) && !(IsAdded(p) && IsReplaced(p)) && !(IsAdded(p) && IsDeleted(p))
    ensures !(IsModified(p) && IsReplaced(p)) && !(IsModified(p) && IsDeleted(p)) && !(IsReplaced(p) && IsDeleted(p))
    ensures (IsAdded(p) || IsModified(p) || IsReplaced(p) || IsDeleted(p)) <==> p.kind in "AMRD"
  {
  }
}
