/**
 * The typed key/value store in which each repository's configuration is persisted (an
 * OpenSymphony `PropertySet`), and the keys the plugin stores there.
 */
module PropertySets {
  import opened Wrappers

  /** The configuration keys of a repository. */
  datatype Key =
    | Root | DisplayName | Username | Password | PrivateKeyFile
    | RevisionIndexing | RevisionCacheSize
    | LinkFormatType | LinkFormatChangeset | LinkFormatFileAdded | LinkFormatFileModified
    | LinkFormatFileReplaced | LinkFormatFileDeleted | LinkFormatPath

  /** The name under which a key is stored; the view (path) format lives under the
      copy-from name. */
  function KeyName(k: Key): string {
    match k
    case Root => "svn.root"
    case DisplayName => "svn.display.name"
    case Username => "svn.username"
    case Password => "svn.password"
    case PrivateKeyFile => "svn.privatekeyfile"
    case RevisionIndexing => "revision.indexing"
    case RevisionCacheSize => "revision.cache.size"
    case LinkFormatType => "linkformat.type"
    case LinkFormatChangeset => "linkformat.changeset"
    case LinkFormatFileAdded => "linkformat.file.added"
    case LinkFormatFileModified => "linkformat.file.modified"
    case LinkFormatFileReplaced => "linkformat.file.replaced"
    case LinkFormatFileDeleted => "linkformat.file.deleted"
    case LinkFormatPath => "linkformat.copyfrom"
  }

  /** A stored value; a string entry may hold `null`. */
  datatype PropValue = PString(s: Option<string>) | PBool(b: bool) | PInt(i: int)

  type PropertySet = map<Key, PropValue>

  /** `getString`: `null` when the key is absent or holds no string. */
  function GetString(ps: PropertySet, key: Key): (r: Option<string>)
    ensures r.Some? ==> key in ps && ps[key] == PString(r)
  {
    if key in ps && ps[key].PString? then ps[key].s else None
  }

  /** `getInt`: 0 when the key is absent or holds no integer. */
  function GetInt(ps: PropertySet, key: Key): (r: int)
    ensures r != 0 ==> key in ps && ps[key] == PInt(r)
  {
    if key in ps && ps[key].PInt? then ps[key].i else 0
  }

  /** `getBoolean`: false when the key is absent or holds no boolean. */
  function GetBoolean(ps: PropertySet, key: Key): (r: bool)
    ensures r <==> key in ps && ps[key] == PBool(true)
  {
    key in ps && ps[key].PBool? && ps[key].b
  }
}
