/**
 * The index document written for one commit (`RevisionIndexer.getDocument`) and the rule
 * that decides which commits are indexed at all. Issue-key recognition belongs to JIRA and is
 * an oracle here (`KeyOracle`); it is always applied to the upper-cased text, as the plugin
 * does.
 */
module Documents {
  import opened Wrappers
  import opened JavaLang
  import opened SvnLog
  import opened Sequences

  /** JIRA's key utilities: whether a text mentions an issue key, the keys it mentions in
      order, and the project key of an issue key. */
  datatype KeyOracle = KeyOracle(
    isKeyIn: string -> bool,
    keysIn: string -> seq<string>,
    projectOf: string -> string)

  /** `TextUtils.stringSet`: not `null` and not the empty string. */
  predicate StringSet(s: Option<string>) {
    s.Some? && s.value != ""
  }

  /** A commit is indexed only when its message is set and mentions an issue key. */
  predicate Indexable(o: KeyOracle, e: LogEntry) {
    StringSet(e.message) && o.isKeyIn(UpperCase(e.message.value))
  }

  /** The stored fields of one indexed commit. The author and date fields exist only when the
      commit has them; there is one issue-key field per extracted key and one project-key
      field per distinct project. */
  datatype Document = Document(
    repository: int,
    revision: int,
    message: string,
    author: Option<string>,
    date: Option<int>,
    issueKeys: seq<string>,
    projectKeys: seq<string>)

  /** The issue keys of a message: extracted from its upper-cased text. */
  function IssueKeys(o: KeyOracle, message: string): seq<string> {
    o.keysIn(UpperCase(message))
  }

  /** The project key of every issue key, in order, duplicates included. */
  function ProjectsOfKeys(o: KeyOracle, keys: seq<string>): (r: seq<string>)
    ensures |r| == |keys|
    ensures forall i :: 0 <= i < |keys| ==> r[i] == o.projectOf(UpperCase(keys[i]))
  {
    seq(|keys|, i requires 0 <= i < |keys| => o.projectOf(UpperCase(keys[i])))
  }

  /** `getDocument`: the document for a commit whose message is set. */
  function GetDocument(o: KeyOracle, repo: int, e: LogEntry): (d: Document)
    requires e.message.Some?
    ensures d.repository == repo && d.revision == e.revision && d.message == e.message.value
    ensures d.author == e.author && d.date == e.date
    ensures d.issueKeys == IssueKeys(o, e.message.value)
  {
    var keys := IssueKeys(o, e.message.value);
    Document(repo, e.revision, e.message.value, e.author, e.date, keys, Distinct(ProjectsOfKeys(o, keys)))
  }

  /** A document names the project of each of its issue keys exactly once, and no other
      project. */
  lemma GetDocumentProjects(o: KeyOracle, repo: int, e: LogEntry)
    requires e.message.Some?
    ensures var d := GetDocument(o, repo, e);
      && (forall i :: 0 <= i < |d.issueKeys| ==> o.projectOf(UpperCase(d.issueKeys[i])) in d.projectKeys)
      && (forall p :: p in d.projectKeys ==>
            exists i :: 0 <= i < |d.issueKeys| && p == o.projectOf(UpperCase(d.issueKeys[i])))
      && NoDuplicates(d.projectKeys)
  {
    var keys := IssueKeys(o, e.message.value);
    var projects := ProjectsOfKeys(o, keys);
    assert forall i :: 0 <= i < |keys| ==> projects[i] in projects;
  }

  /** When every key belongs to a different project, each gets its own project field, in
      key order. */
  lemma ProjectsDistinctKeys(o: KeyOracle, repo: int, e: LogEntry)
    requires e.message.Some?
    requires NoDuplicates(ProjectsOfKeys(o, IssueKeys(o, e.message.value)))
    ensures GetDocument(o, repo, e).projectKeys == ProjectsOfKeys(o, IssueKeys(o, e.message.value))
  {
    DistinctOfDistinct(ProjectsOfKeys(o, IssueKeys(o, e.message.value)));
  }
}
