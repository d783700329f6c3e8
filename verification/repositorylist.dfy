/**
 * The repository list of the administration page (`ViewSubversionRepositoriesAction`): a
 * sorted copy of the configured repositories, ordered by display name with `String.compareTo`
 * and a missing name read as the empty string. The sort is stable, so repositories with the
 * same name keep the order the registry gave them.
 */
module RepositoryLists {
  import opened Wrappers
  import opened Sequences
  import SM = SubversionManagers

  /** `StringUtils.defaultString`: `null` reads as the empty string. */
  function DefaultString(s: Option<string>): (r: string)
    ensures s.None? ==> r == ""
    ensures s.Some? ==> r == s.value
  {
    if s.None? then "" else s.value
  }

  /** `String.compareTo`: the difference of the first differing characters, or of the lengths
      when one string is a prefix of the other. */
  function CompareTo(a: string, b: string): (r: int)
    ensures r == 0 <==> a == b
    decreases |a|
  {
    if |a| == 0 || |b| == 0 then |a| - |b|
    else if a[0] != b[0] then a[0] as int - b[0] as int
    else
      assert a == [a[0]] + a[1..] && b == [b[0]] + b[1..];
      CompareTo(a[1..], b[1..])
  }

  // ---------------------------------------------------------------------------------------------
  // `compareTo` against its documented definition, and the order it induces.

  /** When the strings first differ at `k`, the result is the difference of those characters. */
  lemma {:induction false} CompareToFirstDifference(a: string, b: string, k: nat)
    requires k < |a| && k < |b| && a[..k] == b[..k] && a[k] != b[k]
    ensures CompareTo(a, b) == a[k] as int - b[k] as int
    decreases k
  {
    if k > 0 {
      assert a[0] == a[..k][0] == b[..k][0] == b[0];
      assert a[1..][..k - 1] == a[..k][1..] == b[..k][1..] == b[1..][..k - 1];
      CompareToFirstDifference(a[1..], b[1..], k - 1);
    }
  }

  /** When one string is a prefix of the other, the result is the difference of the lengths. */
  lemma {:induction false} CompareToPrefix(a: string, b: string)
    requires a <= b || b <= a
    ensures CompareTo(a, b) == |a| - |b|
    decreases |a|
  {
    if |a| > 0 && |b| > 0 {
      CompareToPrefix(a[1..], b[1..]);
    }
  }

  /** Swapping the arguments negates the result. */
  lemma {:induction false} CompareToAntisymmetric(a: string, b: string)
    ensures CompareTo(a, b) == -CompareTo(b, a)
    decreases |a|
  {
    if |a| > 0 && |b| > 0 && a[0] == b[0] {
      CompareToAntisymmetric(a[1..], b[1..]);
    }
  }

  /** The order `compareTo` induces is transitive. */
  lemma {:induction false} CompareToTransitive(a: string, b: string, c: string)
    requires CompareTo(a, b) <= 0 && CompareTo(b, c) <= 0
    ensures CompareTo(a, c) <= 0
    decreases |a|
  {
    if |a| > 0 && |b| > 0 && |c| > 0 && a[0] == b[0] && b[0] == c[0] {
      CompareToTransitive(a[1..], b[1..], c[1..]);
    }
  }

  /** A string strictly below another is strictly below everything at or above that one. */
  lemma CompareToStrictTransitive(a: string, b: string, c: string)
    requires CompareTo(a, b) < 0 && CompareTo(b, c) <= 0
    ensures CompareTo(a, c) < 0
  {
    CompareToTransitive(a, b, c);
    CompareToAntisymmetric(a, b);
  }

  // ---------------------------------------------------------------------------------------------
  // The stable sort of `Ordering.sortedCopy`.

  predicate SortedBy<T>(s: seq<T>, key: T -> string) {
    forall i, j :: 0 <= i < j < |s| ==> CompareTo(key(s[i]), key(s[j])) <= 0
  }

  /** `x` placed before the first element whose key is strictly greater than its own. */
  function Insert<T(==)>(x: T, s: seq<T>, key: T -> string): (r: seq<T>)
    ensures multiset(r) == multiset(s) + multiset{x}
    decreases |s|
  {
    if |s| == 0 then [x]
    else if CompareTo(key(x), key(s[0])) < 0 then [x] + s
    else
      assert s == [s[0]] + s[1..];
      [s[0]] + Insert(x, s[1..], key)
  }

  /** Insertion sort, taking the elements in their given order. */
  function SortBy<T(==)>(s: seq<T>, key: T -> string): (r: seq<T>)
    ensures multiset(r) == multiset(s)
    decreases |s|
  {
    if |s| == 0 then []
    else
      assert s == s[..|s| - 1] + [s[|s| - 1]];
      Insert(s[|s| - 1], SortBy(s[..|s| - 1], key), key)
  }

  lemma {:induction false} InsertSorted<T>(x: T, s: seq<T>, key: T -> string)
    requires SortedBy(s, key)
    ensures SortedBy(Insert(x, s, key), key)
    decreases |s|
  {
    if |s| > 0 {
      var r := Insert(x, s, key);
      if CompareTo(key(x), key(s[0])) < 0 {
        forall j | 1 <= j < |r| ensures CompareTo(key(x), key(r[j])) <= 0 {
          if j > 1 {
            CompareToTransitive(key(x), key(s[0]), key(s[j - 1]));
          }
        }
      } else {
        var rest := Insert(x, s[1..], key);
        InsertSorted(x, s[1..], key);
        CompareToAntisymmetric(key(x), key(s[0]));
        forall j | 0 <= j < |rest| ensures CompareTo(key(s[0]), key(rest[j])) <= 0 {
          assert rest[j] in multiset(rest);
          if rest[j] != x {
            assert rest[j] in multiset(s[1..]);
            var k :| 0 <= k < |s[1..]| && s[1..][k] == rest[j];
            assert s[k + 1] == rest[j];
          }
        }
        assert r == [s[0]] + rest;
      }
    }
  }

  /** The sort orders by key. */
  lemma {:induction false} SortSorted<T>(s: seq<T>, key: T -> string)
    ensures SortedBy(SortBy(s, key), key)
    decreases |s|
  {
    if |s| > 0 {
      SortSorted(s[..|s| - 1], key);
      InsertSorted(s[|s| - 1], SortBy(s[..|s| - 1], key), key);
    }
  }

  /** The elements whose key is `k`, in order. */
  function WithKey<T>(s: seq<T>, key: T -> string, k: string): (r: seq<T>)
    ensures forall i :: 0 <= i < |r| ==> key(r[i]) == k
    ensures |r| <= |s|
    decreases |s|
  {
    if |s| == 0 then []
    else (if key(s[0]) == k then [s[0]] else []) + WithKey(s[1..], key, k)
  }

  lemma {:induction false} WithKeyAppend<T>(a: seq<T>, b: seq<T>, key: T -> string, k: string)
    ensures WithKey(a + b, key, k) == WithKey(a, key, k) + WithKey(b, key, k)
    decreases |a|
  {
    if |a| == 0 {
      assert a + b == b;
    } else {
      assert (a + b)[1..] == a[1..] + b;
      WithKeyAppend(a[1..], b, key, k);
    }
  }

  lemma {:induction false} WithKeyNone<T>(s: seq<T>, key: T -> string, k: string)
    requires forall i :: 0 <= i < |s| ==> key(s[i]) != k
    ensures WithKey(s, key, k) == []
    decreases |s|
  {
    if |s| > 0 {
      WithKeyNone(s[1..], key, k);
    }
  }

  lemma WithKeySingle<T>(x: T, key: T -> string, k: string)
    ensures WithKey([x], key, k) == if key(x) == k then [x] else []
  {
    assert [x][1..] == [];
  }

  /** Inserting places `x` after every element with the same key. */
  lemma {:induction false} InsertStable<T>(x: T, s: seq<T>, key: T -> string, k: string)
    requires SortedBy(s, key)
    ensures WithKey(Insert(x, s, key), key, k) == WithKey(s, key, k) + (if key(x) == k then [x] else [])
    decreases |s|
  {
    if |s| > 0 {
      if CompareTo(key(x), key(s[0])) < 0 {
        InsertStableFront(x, s, key, k);
      } else {
        assert SortedBy(s[1..], key);
        InsertStable(x, s[1..], key, k);
        InsertStableSkip(x, s, key, k);
      }
    }
  }

  /** An element with a key below the whole sorted sequence goes in front, and no element of
      the sequence shares its key. */
  lemma InsertStableFront<T>(x: T, s: seq<T>, key: T -> string, k: string)
    requires SortedBy(s, key) && |s| > 0 && CompareTo(key(x), key(s[0])) < 0
    ensures WithKey(Insert(x, s, key), key, k) == WithKey(s, key, k) + (if key(x) == k then [x] else [])
  {
    assert Insert(x, s, key) == [x] + s;
    if key(x) == k {
      forall i | 0 <= i < |s| ensures key(s[i]) != k {
        if i > 0 {
          CompareToStrictTransitive(key(x), key(s[0]), key(s[i]));
        }
      }
      WithKeyNone(s, key, k);
    }
    assert ([x] + s)[1..] == s;
  }

  /** An element with a key not below the first goes after it. */
  lemma InsertStableSkip<T>(x: T, s: seq<T>, key: T -> string, k: string)
    requires |s| > 0 && CompareTo(key(x), key(s[0])) >= 0
    requires WithKey(Insert(x, s[1..], key), key, k) == WithKey(s[1..], key, k) + (if key(x) == k then [x] else [])
    ensures WithKey(Insert(x, s, key), key, k) == WithKey(s, key, k) + (if key(x) == k then [x] else [])
  {
    var rest := Insert(x, s[1..], key);
    var head := if key(s[0]) == k then [s[0]] else [];
    assert Insert(x, s, key) == [s[0]] + rest;
    assert ([s[0]] + rest)[1..] == rest;
    assert WithKey(Insert(x, s, key), key, k) == head + WithKey(rest, key, k);
    assert WithKey(s, key, k) == head + WithKey(s[1..], key, k);
    AppendAssoc(head, WithKey(s[1..], key, k), if key(x) == k then [x] else []);
  }

  /** The sort is stable: the elements of any one key keep their order. */
  lemma {:induction false} SortStable<T>(s: seq<T>, key: T -> string, k: string)
    ensures WithKey(SortBy(s, key), key, k) == WithKey(s, key, k)
    decreases |s|
  {
    if |s| > 0 {
      SortStable(s[..|s| - 1], key, k);
      SortStableStep(s, key, k);
    }
  }

  /** Sorting the last element into the sorted rest keeps each key's order. */
  lemma SortStableStep<T>(s: seq<T>, key: T -> string, k: string)
    requires |s| > 0
    requires WithKey(SortBy(s[..|s| - 1], key), key, k) == WithKey(s[..|s| - 1], key, k)
    ensures WithKey(SortBy(s, key), key, k) == WithKey(s, key, k)
  {
    var init, last := s[..|s| - 1], s[|s| - 1];
    var sorted := SortBy(init, key);
    assert SortBy(s, key) == Insert(last, sorted, key);
    SortSorted(init, key);
    InsertStable(last, sorted, key, k);
    WithKeyAppend(init, [last], key, k);
    WithKeySingle(last, key, k);
    assert WithKey(SortBy(s, key), key, k) == WithKey(init, key, k) + WithKey([last], key, k);
    assert s == init + [last];
  }

  lemma SortStableAll<T>(s: seq<T>, key: T -> string)
    ensures forall k :: WithKey(SortBy(s, key), key, k) == WithKey(s, key, k)
  {
    forall k {
      SortStable(s, key, k);
    }
  }

  // ---------------------------------------------------------------------------------------------
  // The repository list.

  /** The sort key of a repository: its display name, `null` read as empty. */
  function DisplayKey(m: SM.Manager): (r: string)
    ensures SM.DisplayName(m).None? ==> r == ""
    ensures SM.DisplayName(m).Some? ==> r == SM.DisplayName(m).value
  {
    DefaultString(SM.DisplayName(m))
  }

  /** `getRepositories`: a copy of the registry's list, ordered by display name, holding the
      same repositories as often as the list does, with repositories of equal name in their
      original order. */
  function GetRepositories(repositories: seq<SM.Manager>): (r: seq<SM.Manager>)
    ensures multiset(r) == multiset(repositories)
    ensures SortedBy(r, DisplayKey)
    ensures forall k :: WithKey(r, DisplayKey, k) == WithKey(repositories, DisplayKey, k)
  {
    SortSorted(repositories, DisplayKey);
    SortStableAll(repositories, DisplayKey);
    SortBy(repositories, DisplayKey)
  }

  /** A repository whose name compares below another's is listed before it. */
  lemma NameOrder(repositories: seq<SM.Manager>, i: int, j: int)
    requires 0 <= i < |GetRepositories(repositories)| && 0 <= j < |GetRepositories(repositories)|
    requires CompareTo(DisplayKey(GetRepositories(repositories)[i]), DisplayKey(GetRepositories(repositories)[j])) < 0
    ensures i < j
  {
    var r := GetRepositories(repositories);
    CompareToAntisymmetric(DisplayKey(r[i]), DisplayKey(r[j]));
  }

  /** Repositories without a display name are listed before every named one. */
  lemma UnnamedFirst(repositories: seq<SM.Manager>, i: int, j: int)
    requires 0 <= i < |GetRepositories(repositories)| && 0 <= j < |GetRepositories(repositories)|
    requires SM.DisplayName(GetRepositories(repositories)[i]).None?
    requires SM.DisplayName(GetRepositories(repositories)[j]).Some? && SM.DisplayName(GetRepositories(repositories)[j]).value != ""
    ensures i < j
  {
    var r := GetRepositories(repositories);
    NameOrder(repositories, i, j);
  }
}
