/**
 * What a Subversion server reports about one commit (SVNKit's `SVNLogEntry` and
 * `SVNLogEntryPath`), reduced to the fields the plugin reads. Dates are instants in
 * milliseconds.
 */
module SvnLog {
  import opened Wrappers

  /** The change-type letters of `SubversionConstants`. */
  const MODIFICATION: char := 'M'
  const ADDED: char := 'A'
  const DELETED: char := 'D'
  const REPLACED: char := 'R'

  /** One changed path of a commit; `kind` is one of the letters above as reported by the
      server, `copyPath` the source when the path was copied. */
  datatype ChangePath = ChangePath(path: Option<string>, kind: char, copyPath: Option<string>, copyRevision: int)

  datatype LogEntry = LogEntry(
    revision: int,
    author: Option<string>,
    date: Option<int>,
    message: Option<string>,
    changedPaths: seq<ChangePath>)

  /** Revision numbers strictly increase along `entries`, as a server's log reports them. */
  predicate StrictlyIncreasing(entries: seq<LogEntry>) {
    forall i, j :: 0 <= i < j < |entries| ==> entries[i].revision < entries[j].revision
  }
}
