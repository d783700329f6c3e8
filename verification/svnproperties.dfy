/**
 * The configuration of one repository as entered by an administrator or read from the legacy
 * properties file (`SubversionProperties`), and how it is written into the repository's
 * persistent property set (`SvnProperties.Util.fillPropertySet`).
 */
module SvnProperties {
  import opened Wrappers
  import opened PropertySets
  import Passwords

  /** Every field may be `null`. */
  datatype SubversionProperties = SubversionProperties(
    root: Option<string>,
    displayName: Option<string>,
    username: Option<string>,
    password: Option<string>,
    revisionIndexing: Option<bool>,
    revisionCacheSize: Option<int>,
    privateKeyFile: Option<string>,
    webLinkType: Option<string>,
    changesetFormat: Option<string>,
    fileAddedFormat: Option<string>,
    fileModifiedFormat: Option<string>,
    fileReplacedFormat: Option<string>,
    fileDeletedFormat: Option<string>,
    viewFormat: Option<string>)

  /** The keys `fillPropertySet` writes before it unboxes the two boxed fields. */
  const LeadingKeys: set<Key> := {Root, DisplayName, Username, Password}

  /** Every key `fillPropertySet` writes. */
  const FilledKeys: set<Key> := LeadingKeys + {
    RevisionIndexing, RevisionCacheSize, PrivateKeyFile, LinkFormatType,
    LinkFormatPath, LinkFormatChangeset, LinkFormatFileAdded,
    LinkFormatFileModified, LinkFormatFileReplaced, LinkFormatFileDeleted}

  /** The property set after `fillPropertySet`. Unboxing a `null` revision-indexing flag or
      cache size throws a NullPointerException after the earlier keys have been written, so
      that outcome carries the partially written set. */
  datatype FillOutcome = Filled(ps: PropertySet) | UnboxFailed(partial: PropertySet)

  /** The display name that is stored: the given one, or the root when it is `null`. */
  function StoredDisplayName(props: SubversionProperties): (name: Option<string>)
    ensures props.displayName.Some? ==> name == props.displayName
    ensures props.displayName.None? ==> name == props.root
  {
    if props.displayName.Some? then props.displayName else props.root
  }

  /** Only the keys in `keys` may differ between `before` and `after`, and `after` holds every
      one of them. */
  predicate OnlyWrites(before: PropertySet, after: PropertySet, keys: set<Key>) {
    && after.Keys == before.Keys + keys
    && forall k :: k in before && k !in keys ==> after[k] == before[k]
  }

  /** The four values written before the boxed fields are unboxed. */
  function LeadingWrites(props: SubversionProperties): (w: PropertySet)
    ensures w.Keys == LeadingKeys
  {
    map[Root := PString(props.root),
        DisplayName := PString(StoredDisplayName(props)),
        Username := PString(props.username),
        Password := PString(Passwords.EncryptPassword(props.password))]
  }

  /** The values written after both boxed fields have been unboxed. */
  function TrailingWrites(props: SubversionProperties, cacheSize: int): (w: PropertySet)
    ensures w.Keys == FilledKeys - LeadingKeys - {RevisionIndexing}
  {
    map[RevisionCacheSize := PInt(cacheSize),
        PrivateKeyFile := PString(props.privateKeyFile),
        LinkFormatType := PString(props.webLinkType),
        LinkFormatPath := PString(props.viewFormat),
        LinkFormatChangeset := PString(props.changesetFormat),
        LinkFormatFileAdded := PString(props.fileAddedFormat),
        LinkFormatFileModified := PString(props.fileModifiedFormat),
        LinkFormatFileReplaced := PString(props.fileReplacedFormat),
        LinkFormatFileDeleted := PString(props.fileDeletedFormat)]
  }

  function FillPropertySet(props: SubversionProperties, ps: PropertySet): (r: FillOutcome)
    ensures r.Filled? <==> props.revisionIndexing.Some? && props.revisionCacheSize.Some?
  {
    var leading := ps + LeadingWrites(props);
    if props.revisionIndexing.None? then UnboxFailed(leading)
    else
      var indexing := leading + map[RevisionIndexing := PBool(props.revisionIndexing.value)];
      if props.revisionCacheSize.None? then UnboxFailed(indexing)
      else Filled(indexing + TrailingWrites(props, props.revisionCacheSize.value))
  }

  /** `fillPropertySet` changes only the keys it writes, adds every one of them, and when it
      throws, has written exactly the keys before the failing unboxing. */
  lemma FillWritesOnly(props: SubversionProperties, ps: PropertySet)
    ensures var r := FillPropertySet(props, ps);
      && (r.Filled? ==> OnlyWrites(ps, r.ps, FilledKeys))
      && (r.UnboxFailed? && props.revisionIndexing.None? ==> OnlyWrites(ps, r.partial, LeadingKeys))
      && (r.UnboxFailed? && props.revisionIndexing.Some? ==>
            OnlyWrites(ps, r.partial, LeadingKeys + {RevisionIndexing}))
  {
    if props.revisionIndexing.None? {
      assert FillPropertySet(props, ps).partial == ps + LeadingWrites(props);
    } else if props.revisionCacheSize.None? {
      FillWritesIndexing(props, ps);
    } else {
      FillWritesAll(props, ps);
    }
  }

  /** Unboxing a `null` cache size leaves the leading keys and the indexing flag written. */
  lemma FillWritesIndexing(props: SubversionProperties, ps: PropertySet)
    requires props.revisionIndexing.Some? && props.revisionCacheSize.None?
    ensures OnlyWrites(ps, FillPropertySet(props, ps).partial, LeadingKeys + {RevisionIndexing})
  {
    var indexing := ps + LeadingWrites(props) + map[RevisionIndexing := PBool(props.revisionIndexing.value)];
    assert FillPropertySet(props, ps).partial == indexing;
    assert indexing.Keys == ps.Keys + (LeadingKeys + {RevisionIndexing});
  }

  /** A complete fill writes exactly the filled keys. */
  lemma FillWritesAll(props: SubversionProperties, ps: PropertySet)
    requires props.revisionIndexing.Some? && props.revisionCacheSize.Some?
    ensures OnlyWrites(ps, FillPropertySet(props, ps).ps, FilledKeys)
  {
    var indexing := ps + LeadingWrites(props) + map[RevisionIndexing := PBool(props.revisionIndexing.value)];
    var trailing := TrailingWrites(props, props.revisionCacheSize.value);
    assert FillPropertySet(props, ps).ps == indexing + trailing;
    assert indexing.Keys == ps.Keys + (LeadingKeys + {RevisionIndexing});
    assert FilledKeys == (LeadingKeys + {RevisionIndexing}) + trailing.Keys;
  }

  /** A filled set holds every key written after the unboxing with the value written. */
  lemma FilledTrailing(props: SubversionProperties, ps: PropertySet, k: Key)
    requires props.revisionIndexing.Some? && props.revisionCacheSize.Some?
    requires k in TrailingWrites(props, props.revisionCacheSize.value)
    ensures var r := FillPropertySet(props, ps).ps;
            k in r && r[k] == TrailingWrites(props, props.revisionCacheSize.value)[k]
  {
    var indexing := ps + LeadingWrites(props) + map[RevisionIndexing := PBool(props.revisionIndexing.value)];
    assert FillPropertySet(props, ps).ps == indexing + TrailingWrites(props, props.revisionCacheSize.value);
  }

  /** A filled set holds the revision-indexing flag as given. */
  lemma FilledIndexing(props: SubversionProperties, ps: PropertySet)
    requires props.revisionIndexing.Some? && props.revisionCacheSize.Some?
    ensures var r := FillPropertySet(props, ps).ps;
            RevisionIndexing in r && r[RevisionIndexing] == PBool(props.revisionIndexing.value)
  {
    var indexing := ps + LeadingWrites(props) + map[RevisionIndexing := PBool(props.revisionIndexing.value)];
    var trailing := TrailingWrites(props, props.revisionCacheSize.value);
    assert FillPropertySet(props, ps).ps == indexing + trailing;
    assert RevisionIndexing !in trailing;
  }

  /** A filled set holds the four leading keys with the values written. */
  lemma FilledLeading(props: SubversionProperties, ps: PropertySet, k: Key)
    requires props.revisionIndexing.Some? && props.revisionCacheSize.Some?
    requires k in LeadingKeys
    ensures var r := FillPropertySet(props, ps).ps;
            k in r && r[k] == LeadingWrites(props)[k]
  {
    var leading := ps + LeadingWrites(props);
    var indexing := leading + map[RevisionIndexing := PBool(props.revisionIndexing.value)];
    var trailing := TrailingWrites(props, props.revisionCacheSize.value);
    assert FillPropertySet(props, ps).ps == indexing + trailing;
    assert k !in trailing && k != RevisionIndexing;
  }

  /** Reading the filled set back gives each identity field as written: the display name
      falls back to the root and the password is stored encoded. */
  lemma FillReadBack(props: SubversionProperties, ps: PropertySet)
    requires props.revisionIndexing.Some? && props.revisionCacheSize.Some?
    ensures var r := FillPropertySet(props, ps).ps;
      && GetString(r, Root) == props.root
      && GetString(r, DisplayName) == StoredDisplayName(props)
      && GetString(r, Username) == props.username
      && GetString(r, Password) == Passwords.EncryptPassword(props.password)
      && GetBoolean(r, RevisionIndexing) == props.revisionIndexing.value
      && GetInt(r, RevisionCacheSize) == props.revisionCacheSize.value
      && GetString(r, PrivateKeyFile) == props.privateKeyFile
  {
    FilledLeading(props, ps, Root);
    FilledLeading(props, ps, DisplayName);
    FilledLeading(props, ps, Username);
    FilledLeading(props, ps, Password);
    FilledIndexing(props, ps);
    FilledTrailing(props, ps, RevisionCacheSize);
    FilledTrailing(props, ps, PrivateKeyFile);
  }

  /** Reading the filled set back gives each web-link format as written, the view format
      being stored under the path (copy-from) key. */
  lemma FillReadBackFormats(props: SubversionProperties, ps: PropertySet)
    requires props.revisionIndexing.Some? && props.revisionCacheSize.Some?
    ensures var r := FillPropertySet(props, ps).ps;
      && GetString(r, LinkFormatType) == props.webLinkType
      && GetString(r, LinkFormatPath) == props.viewFormat
      && GetString(r, LinkFormatChangeset) == props.changesetFormat
      && GetString(r, LinkFormatFileAdded) == props.fileAddedFormat
      && GetString(r, LinkFormatFileModified) == props.fileModifiedFormat
      && GetString(r, LinkFormatFileReplaced) == props.fileReplacedFormat
      && GetString(r, LinkFormatFileDeleted) == props.fileDeletedFormat
  {
    FilledTrailing(props, ps, LinkFormatType);
    FilledTrailing(props, ps, LinkFormatPath);
    FilledTrailing(props, ps, LinkFormatChangeset);
    FilledTrailing(props, ps, LinkFormatFileAdded);
    FilledTrailing(props, ps, LinkFormatFileModified);
    FilledTrailing(props, ps, LinkFormatFileReplaced);
    FilledTrailing(props, ps, LinkFormatFileDeleted);
  }

  /** The stored password is not the plain text, yet reading it back through
      `decryptPassword` recovers an ASCII password exactly. */
  lemma FilledPasswordRecoverable(props: SubversionProperties, ps: PropertySet)
    requires props.revisionIndexing.Some? && props.revisionCacheSize.Some?
    requires props.password.Some? ==> Passwords.IsAscii(props.password.value)
    ensures Passwords.DecryptPassword(GetString(FillPropertySet(props, ps).ps, Password)) == props.password
  {
    Passwords.DecryptEncrypt(props.password);
  }
}
