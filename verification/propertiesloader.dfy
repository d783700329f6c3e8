/**
 * The legacy way repositories were configured (`SvnPropertiesLoader`): a properties file
 * whose unsuffixed keys describe the default repository and whose keys suffixed `.1`, `.2`,
 * … describe further ones, each filled in from the default.
 */
module PropertiesLoaders {
  import opened Wrappers
  import opened JavaLang
  import opened PropertySets
  import opened SvnProperties

  /** The loaded properties file, merged into the system properties. */
  type Properties = map<string, string>

  /** Why loading throws: the file could not be read (an IOException, rethrown as an
      InfrastructureException), the file is not on the class path (`load` of a `null` stream
      throws a NullPointerException), no default root (an InfrastructureException), or a cache
      size that `new Integer` rejects (a NumberFormatException, not caught). */
  datatype LoadError = LoadFailed | NullStream | NoDefaultRepository | BadCacheSize

  /** The name the properties file is looked up by on the class path. */
  const PROPERTIES_FILE_NAME: string := "subversion-jira-plugin.properties"

  /** What reading the properties file gives: its properties, an IOException part-way, or no
      resource of that name at all. */
  datatype PropertiesFile = Loaded(props: Properties) | Unreadable | NoResource

  /** The suffix of the keys of repository `index`; -1 is the default repository. */
  function Suffix(index: int): (r: string)
    ensures index == -1 ==> r == ""
    ensures index != -1 ==> |r| > 1 && r[0] == '.' && r[1..] == IntToString(index)
  {
    if index == -1 then "" else "." + IntToString(index)
  }

  /** Different repositories have different key suffixes. */
  lemma SuffixInjective(a: int, b: int)
    requires Suffix(a) == Suffix(b)
    ensures a == b
  {
    if a != -1 && b != -1 {
      assert Suffix(a)[1..] == Suffix(b)[1..];
      IntToStringInjective(a, b);
    }
  }

  /** The property `key` of repository `index`, `null` when unset. */
  function Get(props: Properties, key: Key, index: int): (r: Option<string>)
    ensures r.Some? <==> KeyName(key) + Suffix(index) in props
    ensures r.Some? ==> r.value == props[KeyName(key) + Suffix(index)]
  {
    var name := KeyName(key) + Suffix(index);
    if name in props then Some(props[name]) else None
  }

  /** `getSubversionProperty`: `null` when the repository's root key is absent; a present
      cache size that does not parse throws. */
  function GetSubversionProperty(index: int, props: Properties): (r: Result<Option<SubversionProperties>, LoadError>)
    ensures r.Ok? && r.value.None? <==> Get(props, Root, index).None?
    ensures r.Err? <==> Get(props, Root, index).Some? && Get(props, RevisionCacheSize, index).Some?
                        && ParseInt(Get(props, RevisionCacheSize, index).value).None?
    ensures r.Err? ==> r.error == BadCacheSize
  {
    if Get(props, Root, index).None? then Ok(None)
    else
      var cacheSize := Get(props, RevisionCacheSize, index);
      if cacheSize.Some? && ParseInt(cacheSize.value).None? then Err(BadCacheSize)
      else Ok(Some(ReadRepository(index, props)))
  }

  /** The record `getSubversionProperty` builds from the suffixed keys of repository `index`. */
  function ReadRepository(index: int, props: Properties): (r: SubversionProperties)
    ensures r.root == Get(props, Root, index)
    ensures r.webLinkType.None? && r.viewFormat.None?
  {
    var indexing := Get(props, RevisionIndexing, index);
    var cacheSize := Get(props, RevisionCacheSize, index);
    SubversionProperties(
      root := Get(props, Root, index),
      displayName := Get(props, DisplayName, index),
      username := Get(props, Username, index),
      password := Get(props, Password, index),
      revisionIndexing := if indexing.Some? then Some(EqualsIgnoreCase("true", indexing.value)) else None,
      revisionCacheSize := if cacheSize.Some? then ParseInt(cacheSize.value) else None,
      privateKeyFile := Get(props, PrivateKeyFile, index),
      webLinkType := None,
      changesetFormat := Get(props, LinkFormatChangeset, index),
      fileAddedFormat := Get(props, LinkFormatFileAdded, index),
      fileModifiedFormat := Get(props, LinkFormatFileModified, index),
      fileReplacedFormat := Get(props, LinkFormatFileReplaced, index),
      fileDeletedFormat := Get(props, LinkFormatFileDeleted, index),
      viewFormat := None)
  }

  /** Each field of a present repository is its suffixed key's value. The indexing flag is
      set only when its key is present, to whether the value is `true` in any case; the cache
      size is set only when its key is present, to the parsed value. The web-link type and
      view format are not read from the file. */
  lemma RepositoryFields(index: int, props: Properties)
    requires GetSubversionProperty(index, props).Ok? && GetSubversionProperty(index, props).value.Some?
    ensures var p := GetSubversionProperty(index, props).value.value;
            && p.root == Get(props, Root, index)
            && p.displayName == Get(props, DisplayName, index)
            && p.username == Get(props, Username, index)
            && p.password == Get(props, Password, index)
            && p.privateKeyFile == Get(props, PrivateKeyFile, index)
            && p.changesetFormat == Get(props, LinkFormatChangeset, index)
            && p.fileAddedFormat == Get(props, LinkFormatFileAdded, index)
            && p.fileModifiedFormat == Get(props, LinkFormatFileModified, index)
            && p.fileReplacedFormat == Get(props, LinkFormatFileReplaced, index)
            && p.fileDeletedFormat == Get(props, LinkFormatFileDeleted, index)
            && p.webLinkType.None? && p.viewFormat.None?
            && (p.revisionIndexing.Some? <==> Get(props, RevisionIndexing, index).Some?)
            && (p.revisionIndexing.Some? ==>
                  p.revisionIndexing.value == EqualsIgnoreCase("true", Get(props, RevisionIndexing, index).value))
            && (p.revisionCacheSize.Some? <==> Get(props, RevisionCacheSize, index).Some?)
            && (p.revisionCacheSize.Some? ==>
                  Some(p.revisionCacheSize.value) == ParseInt(Get(props, RevisionCacheSize, index).value))
  {
  }

  // ---------------------------------------------------------------------------------------------
  // The enumeration loop.

  /** The root key of repository `index`. */
  function RootKey(index: int): string {
    KeyName(Root) + Suffix(index)
  }

  /** The root keys of repositories 1 to `n`. */
  function RootKeys(n: nat): (r: set<string>)
    ensures forall j :: 1 <= j <= n ==> RootKey(j) in r
    decreases n
  {
    if n == 0 then {} else RootKeys(n - 1) + {RootKey(n)}
  }

  lemma {:induction false} RootKeysOnly(n: nat, k: string)
    requires k in RootKeys(n)
    ensures exists j :: 1 <= j <= n && k == RootKey(j)
    decreases n
  {
    if k != RootKey(n) {
      RootKeysOnly(n - 1, k);
    }
  }

  /** Distinct repositories have distinct root keys, so `n` of them are `n` keys. */
  lemma {:induction false} RootKeysCount(n: nat)
    ensures |RootKeys(n)| == n
    decreases n
  {
    if n > 0 {
      RootKeysCount(n - 1);
      if RootKey(n) in RootKeys(n - 1) {
        RootKeysOnly(n - 1, RootKey(n));
        var j :| 1 <= j <= n - 1 && RootKey(n) == RootKey(j);
        assert Suffix(n) == RootKey(n)[|KeyName(Root)|..] == RootKey(j)[|KeyName(Root)|..] == Suffix(j);
        SuffixInjective(n, j);
      }
    }
  }

  /** A properties file holds the roots of at most as many numbered repositories as it has
      keys: the loop reaches a missing root in time. */
  lemma Pigeonhole(props: Properties, n: nat)
    requires forall j :: 1 <= j <= n ==> RootKey(j) in props
    ensures n <= |props|
  {
    RootKeysCount(n);
    assert RootKeys(n) <= props.Keys by {
      forall k | k in RootKeys(n) ensures k in props {
        RootKeysOnly(n, k);
      }
    }
    assert |RootKeys(n)| <= |props.Keys| by {
      SubsetCard(RootKeys(n), props.Keys);
    }
  }

  lemma {:induction false} SubsetCard(a: set<string>, b: set<string>)
    requires a <= b
    ensures |a| <= |b|
    decreases |a|
  {
    if a != {} {
      var x :| x in a;
      SubsetCard(a - {x}, b - {x});
    }
  }

  /** How the loop reads repository `k`: `GetSubversionProperty(k, props)` in the loader. */
  type Reader = int -> Result<Option<SubversionProperties>, LoadError>

  /** `read` finds no repository exactly where the file lacks its root key. */
  ghost predicate ReadsRoots(props: Properties, read: Reader) {
    forall k :: (read(k).Ok? && read(k).value.None?) <==> RootKey(k) !in props
  }

  /** `getSubversionProperty` is such a reader. */
  lemma GetReadsRoots(props: Properties)
    ensures ReadsRoots(props, k => GetSubversionProperty(k, props))
  {
  }

  /** The do-while loop from repository `i` on: each present repository is filled in from the
      default, and the loop stops at the first missing one. Repositories 1 to `i - 1` have
      been read already. */
  function LoadFrom(props: Properties, read: Reader, i: nat, defaults: SubversionProperties,
                    fill: (SubversionProperties, SubversionProperties) -> SubversionProperties): (r: Result<seq<SubversionProperties>, LoadError>)
    requires ReadsRoots(props, read)
    requires i >= 1 && forall j :: 1 <= j < i ==> RootKey(j) in props
    ensures r.Ok? ==> forall j :: i <= j < i + |r.value| ==> RootKey(j) in props
    ensures r.Ok? ==> RootKey(i + |r.value|) !in props
    decreases |props| + 1 - i
  {
    Pigeonhole(props, i - 1);
    match read(i)
    case Err(e) => Err(e)
    case Ok(None) => Ok([])
    case Ok(Some(p)) =>
      Pigeonhole(props, i);
      match LoadFrom(props, read, i + 1, defaults, fill)
      case Err(e) => Err(e)
      case Ok(rest) =>
        Ok([fill(p, defaults)] + rest)
  }

  /** Some repository from `i` on, read before the loop meets a missing root, cannot be
      read. */
  ghost predicate FailsFrom(props: Properties, read: Reader, i: int) {
    exists k :: i <= k && read(k).Err? && forall j :: i <= j < k ==> RootKey(j) in props
  }

  /** A repository that reads successfully and has its root passes the question on to the
      next number. */
  lemma FailsFromStep(props: Properties, read: Reader, i: int)
    requires read(i).Ok? && RootKey(i) in props
    ensures FailsFrom(props, read, i) <==> FailsFrom(props, read, i + 1)
  {
    if FailsFrom(props, read, i) {
      var k :| i <= k && read(k).Err? && forall j :: i <= j < k ==> RootKey(j) in props;
      assert i + 1 <= k;
    }
    if FailsFrom(props, read, i + 1) {
      var k :| i + 1 <= k && read(k).Err? && forall j :: i + 1 <= j < k ==> RootKey(j) in props;
      assert forall j :: i <= j < k ==> RootKey(j) in props;
    }
  }

  /** A missing root that reads successfully ends the loop before any failing read. */
  lemma FailsFromMissing(props: Properties, read: Reader, i: int)
    requires read(i).Ok? && RootKey(i) !in props
    ensures !FailsFrom(props, read, i)
  {
    forall k | i <= k && read(k).Err? ensures !(forall j :: i <= j < k ==> RootKey(j) in props) {
      assert i < k;
      assert RootKey(i) !in props;
    }
  }

  /** The loop fails exactly when a repository read before the first missing root fails, and
      then with that read's error. */
  lemma {:induction false} LoadFromFails(props: Properties, read: Reader, i: nat, defaults: SubversionProperties,
                                         fill: (SubversionProperties, SubversionProperties) -> SubversionProperties)
    requires ReadsRoots(props, read)
    requires i >= 1 && forall j :: 1 <= j < i ==> RootKey(j) in props
    ensures LoadFrom(props, read, i, defaults, fill).Err? <==> FailsFrom(props, read, i)
    ensures LoadFrom(props, read, i, defaults, fill).Err? ==>
              exists k :: i <= k && read(k).Err? && read(k).error == LoadFrom(props, read, i, defaults, fill).error
    decreases |props| + 1 - i
  {
    Pigeonhole(props, i - 1);
    match read(i)
    case Err(e) =>
      assert forall j :: i <= j < i ==> RootKey(j) in props;
    case Ok(None) =>
      FailsFromMissing(props, read, i);
    case Ok(Some(p)) =>
      Pigeonhole(props, i);
      LoadFromFails(props, read, i + 1, defaults, fill);
      FailsFromStep(props, read, i);
  }

  /** `getSVNProperties` after the file has been loaded: the default repository first, then
      the numbered ones filled in from it. `fill` is `fillPropertiesFromOther`, whose code is
      not part of this model. */
  function GetSvnProperties(props: Properties,
                            fill: (SubversionProperties, SubversionProperties) -> SubversionProperties): (r: Result<seq<SubversionProperties>, LoadError>)
    ensures Get(props, Root, -1).None? ==> r == Err(NoDefaultRepository)
    ensures r.Ok? ==> |r.value| >= 1 && GetSubversionProperty(-1, props) == Ok(Some(r.value[0]))
    ensures r.Ok? ==> forall j :: 1 <= j < |r.value| ==> RootKey(j) in props
    ensures r.Ok? ==> RootKey(|r.value|) !in props
  {
    GetReadsRoots(props);
    match GetSubversionProperty(-1, props)
    case Err(e) => Err(e)
    case Ok(None) => Err(NoDefaultRepository)
    case Ok(Some(defaults)) =>
      match LoadFrom(props, k => GetSubversionProperty(k, props), 1, defaults, fill)
      case Err(e) => Err(e)
      case Ok(rest) =>
        Ok([defaults] + rest)
  }

  /** `getSVNProperties`: the file's properties are loaded over the system properties, a key
      of the file replacing the system's, and the repositories are read from the result. */
  function LoadSvnProperties(system: Properties, file: PropertiesFile,
                             fill: (SubversionProperties, SubversionProperties) -> SubversionProperties): (r: Result<seq<SubversionProperties>, LoadError>)
    ensures file.Unreadable? ==> r == Err(LoadFailed)
    ensures file.NoResource? ==> r == Err(NullStream)
    ensures file.Loaded? ==> r == GetSvnProperties(system + file.props, fill)
    ensures file.Loaded? && RootKey(-1) !in system && RootKey(-1) !in file.props ==> r == Err(NoDefaultRepository)
    ensures r.Ok? ==> file.Loaded? && |r.value| >= 1
    ensures r.Ok? ==> r.value[0].root == Some(if RootKey(-1) in file.props then file.props[RootKey(-1)] else system[RootKey(-1)])
  {
    match file
    case Unreadable => Err(LoadFailed)
    case NoResource => Err(NullStream)
    case Loaded(props) =>
      var r := GetSvnProperties(system + props, fill);
      if r.Ok? then RepositoryFields(-1, system + props); r else r
  }

  // ---------------------------------------------------------------------------------------------
  // Properties of loading.

  /** Some numbered repository from `i` up to the first missing root has a cache size that
      does not parse. */
  ghost predicate BadCacheSizeFrom(props: Properties, i: int) {
    exists k :: i <= k && GetSubversionProperty(k, props).Err? && forall j :: i <= j < k ==> RootKey(j) in props
  }

  /** For the loader's own reader, a failing read is a bad cache size. */
  lemma FailsFromReads(props: Properties, i: int)
    ensures FailsFrom(props, k => GetSubversionProperty(k, props), i) <==> BadCacheSizeFrom(props, i)
  {
    var read: Reader := k => GetSubversionProperty(k, props);
    if FailsFrom(props, read, i) {
      var k :| i <= k && read(k).Err? && forall j :: i <= j < k ==> RootKey(j) in props;
      assert GetSubversionProperty(k, props).Err?;
    }
    if BadCacheSizeFrom(props, i) {
      var k :| i <= k && GetSubversionProperty(k, props).Err? && forall j :: i <= j < k ==> RootKey(j) in props;
      assert read(k).Err?;
    }
  }

  /** With a readable default repository, loading is the loop from repository 1. */
  lemma GetSvnPropertiesLoop(props: Properties, fill: (SubversionProperties, SubversionProperties) -> SubversionProperties)
    requires GetSubversionProperty(-1, props).Ok? && GetSubversionProperty(-1, props).value.Some?
    ensures ReadsRoots(props, k => GetSubversionProperty(k, props))
    ensures var l := LoadFrom(props, k => GetSubversionProperty(k, props), 1, GetSubversionProperty(-1, props).value.value, fill);
            && (GetSvnProperties(props, fill).Ok? <==> l.Ok?)
            && (l.Err? ==> GetSvnProperties(props, fill) == Err(l.error))
  {
    GetReadsRoots(props);
  }

  /** Loading succeeds exactly when the default root is set and the cache size of the default
      repository, and of every numbered one up to the first missing root, parses. A failure is
      the missing default root or else a bad cache size. */
  lemma GetSvnPropertiesSucceeds(props: Properties, fill: (SubversionProperties, SubversionProperties) -> SubversionProperties)
    ensures GetSvnProperties(props, fill).Ok? <==>
              Get(props, Root, -1).Some? && GetSubversionProperty(-1, props).Ok? && !BadCacheSizeFrom(props, 1)
    ensures GetSvnProperties(props, fill).Err? ==>
              (GetSvnProperties(props, fill).error == NoDefaultRepository <==> Get(props, Root, -1).None?)
    ensures GetSvnProperties(props, fill).Err? && Get(props, Root, -1).Some? ==> GetSvnProperties(props, fill).error == BadCacheSize
  {
    if Get(props, Root, -1).Some? && GetSubversionProperty(-1, props).Ok? {
      var read: Reader := k => GetSubversionProperty(k, props);
      GetSvnPropertiesLoop(props, fill);
      var defaults := GetSubversionProperty(-1, props).value.value;
      LoadFromFails(props, read, 1, defaults, fill);
      FailsFromReads(props, 1);
    }
  }

  /** Every numbered repository the loop returns is the one `read` finds for that number,
      filled in from the default. */
  lemma {:induction false} LoadFromEntries(props: Properties, read: Reader, i: nat, defaults: SubversionProperties,
                                           fill: (SubversionProperties, SubversionProperties) -> SubversionProperties, j: nat)
    requires ReadsRoots(props, read)
    requires i >= 1 && forall k :: 1 <= k < i ==> RootKey(k) in props
    requires LoadFrom(props, read, i, defaults, fill).Ok? && i <= j < i + |LoadFrom(props, read, i, defaults, fill).value|
    ensures read(j).Ok? && read(j).value.Some?
    ensures LoadFrom(props, read, i, defaults, fill).value[j - i] == fill(read(j).value.value, defaults)
    decreases j - i
  {
    if j == i {
      LoadFromHead(props, read, i, defaults, fill);
    } else {
      LoadFromTail(props, read, i, defaults, fill);
      assert |LoadFrom(props, read, i, defaults, fill).value| == 1 + |LoadFrom(props, read, i + 1, defaults, fill).value|;
      LoadFromEntries(props, read, i + 1, defaults, fill, j);
      LoadFromShift(props, read, i, defaults, fill, j - i, fill(read(j).value.value, defaults));
    }
  }

  /** A non-empty result of the loop starts with repository `i`, filled in from the default. */
  lemma LoadFromHead(props: Properties, read: Reader, i: nat, defaults: SubversionProperties,
                     fill: (SubversionProperties, SubversionProperties) -> SubversionProperties)
    requires ReadsRoots(props, read)
    requires i >= 1 && forall k :: 1 <= k < i ==> RootKey(k) in props
    requires LoadFrom(props, read, i, defaults, fill).Ok? && 0 < |LoadFrom(props, read, i, defaults, fill).value|
    ensures read(i).Ok? && read(i).value.Some?
    ensures LoadFrom(props, read, i, defaults, fill).value[0] == fill(read(i).value.value, defaults)
  {
  }

  /** A non-empty result of the loop continues with the loop from `i + 1`. */
  lemma LoadFromTail(props: Properties, read: Reader, i: nat, defaults: SubversionProperties,
                     fill: (SubversionProperties, SubversionProperties) -> SubversionProperties)
    requires ReadsRoots(props, read)
    requires i >= 1 && forall k :: 1 <= k < i ==> RootKey(k) in props
    requires LoadFrom(props, read, i, defaults, fill).Ok? && 0 < |LoadFrom(props, read, i, defaults, fill).value|
    ensures forall k :: 1 <= k < i + 1 ==> RootKey(k) in props
    ensures LoadFrom(props, read, i + 1, defaults, fill).Ok?
    ensures LoadFrom(props, read, i, defaults, fill).value
            == [LoadFrom(props, read, i, defaults, fill).value[0]] + LoadFrom(props, read, i + 1, defaults, fill).value
  {
  }

  /** Position `k > 0` of a non-empty loop result from `i` is position `k - 1` of the loop
      from `i + 1`. */
  lemma LoadFromShift(props: Properties, read: Reader, i: nat, defaults: SubversionProperties,
                      fill: (SubversionProperties, SubversionProperties) -> SubversionProperties,
                      k: nat, x: SubversionProperties)
    requires ReadsRoots(props, read)
    requires i >= 1 && forall k :: 1 <= k < i + 1 ==> RootKey(k) in props
    requires LoadFrom(props, read, i, defaults, fill).Ok? && 0 < k < |LoadFrom(props, read, i, defaults, fill).value|
    requires LoadFrom(props, read, i + 1, defaults, fill).Ok?
    requires LoadFrom(props, read, i, defaults, fill).value
             == [LoadFrom(props, read, i, defaults, fill).value[0]] + LoadFrom(props, read, i + 1, defaults, fill).value
    requires LoadFrom(props, read, i + 1, defaults, fill).value[k - 1] == x
    ensures LoadFrom(props, read, i, defaults, fill).value[k] == x
  {
  }

  /** A file with a default root reads that repository first, and each numbered repository
      up to the first missing number from its own suffixed keys. */
  lemma LoadedRepositories(props: Properties, fill: (SubversionProperties, SubversionProperties) -> SubversionProperties, n: nat)
    requires GetSvnProperties(props, fill).Ok?
    requires 1 <= n < |GetSvnProperties(props, fill).value|
    ensures GetSubversionProperty(n, props).Ok? && GetSubversionProperty(n, props).value.Some?
    ensures GetSvnProperties(props, fill).value[n] == fill(GetSubversionProperty(n, props).value.value, GetSvnProperties(props, fill).value[0])
  {
    var defaults := GetSubversionProperty(-1, props).value.value;
    var read: Reader := k => GetSubversionProperty(k, props);
    GetReadsRoots(props);
    var rest := LoadFrom(props, read, 1, defaults, fill);
    GetSvnPropertiesShape(props, fill);
    LoadFromEntries(props, read, 1, defaults, fill, n);
    assert read(n) == GetSubversionProperty(n, props);
  }

  /** A successful load is the default repository followed by the loop's result from 1. */
  lemma GetSvnPropertiesShape(props: Properties, fill: (SubversionProperties, SubversionProperties) -> SubversionProperties)
    requires GetSvnProperties(props, fill).Ok?
    ensures GetSubversionProperty(-1, props).Ok? && GetSubversionProperty(-1, props).value.Some?
    ensures ReadsRoots(props, k => GetSubversionProperty(k, props))
    ensures LoadFrom(props, k => GetSubversionProperty(k, props), 1, GetSubversionProperty(-1, props).value.value, fill).Ok?
    ensures GetSvnProperties(props, fill).value
            == [GetSubversionProperty(-1, props).value.value]
               + LoadFrom(props, k => GetSubversionProperty(k, props), 1, GetSubversionProperty(-1, props).value.value, fill).value
  {
    GetReadsRoots(props);
  }

  /** A cache size written in decimal is read back as the number. */
  lemma CacheSizeRoundTrip(props: Properties, index: int, size: int)
    requires IsInt(size)
    requires RootKey(index) in props && KeyName(RevisionCacheSize) + Suffix(index) in props
    requires props[KeyName(RevisionCacheSize) + Suffix(index)] == IntToString(size)
    ensures GetSubversionProperty(index, props).Ok?
    ensures GetSubversionProperty(index, props).value.value.revisionCacheSize == Some(size)
  {
    ParseIntOfIntToString(size);
    RepositoryFields(index, props);
  }

  /** The indexing flag is on for `true` in any case, and off for any other value. */
  lemma IndexingFlag(props: Properties, index: int)
    requires RootKey(index) in props
    requires GetSubversionProperty(index, props).Ok?
    requires KeyName(RevisionIndexing) + Suffix(index) in props
    ensures GetSubversionProperty(index, props).value.value.revisionIndexing
            == Some(EqualsIgnoreCase("true", props[KeyName(RevisionIndexing) + Suffix(index)]))
  {
    RepositoryFields(index, props);
  }
}
