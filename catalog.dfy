/**
 * The decoded project catalog: the JSON object `projects` maps a project key
 * to a project record.  Python's dictionary iteration order becomes the order
 * of a sequence of (key, record) pairs, whose keys are distinct.
 */
module Catalog {
  import opened Wrappers

  /** An entry of `source_repo`: an explicit `url`, or a filesystem `path` to rebuild one from. */
  datatype SourceRepo = SourceRepo(url: Option<string>, path: Option<string>)

  /** An entry of `bugzilla`: a percent-encoded issue-tracker query. */
  datatype BugzillaQuery = BugzillaQuery(queryUrl: string)

  /** `dev_list`: the empty-list sentinel for "no data", or a record whose `url` may be null. */
  datatype DevList = NoData | MailingList(url: Option<string>)

  /** An entry of `forums`, `wiki_url` or `github_repos`, of which only `url` is read. */
  datatype Link = Link(url: Option<string>)

  /** An entry of `parent_project`. */
  datatype ParentRef = ParentRef(id: string)

  datatype Project = Project(
    title: string,
    parentProject: seq<ParentRef>,
    sourceRepo: seq<SourceRepo>,
    bugzilla: seq<BugzillaQuery>,
    devList: DevList,
    forums: seq<Link>,
    wikiUrl: seq<Link>,
    githubRepos: seq<Link>)

  type Catalog = seq<(string, Project)>

  predicate DistinctKeys(c: Catalog)
  {
    forall i, j :: 0 <= i < j < |c| ==> c[i].0 != c[j].0
  }

  /** No element occurs twice. */
  predicate NoDup<T(==)>(s: seq<T>)
  {
    forall i, j :: 0 <= i < j < |s| ==> s[i] != s[j]
  }

  /** The parent of a project: the first `parent_project` entry; later ones are ignored. */
  function ParentOf(p: Project): (parent: Option<string>)
  {
    if |p.parentProject| == 0 then None else Some(p.parentProject[0].id)
  }
}
