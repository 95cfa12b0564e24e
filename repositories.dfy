/**
 * Per-project repository lists (`getSCMURL`, `getSCMRepos`, `parseRepos`,
 * `getITSRepos`, `getMLSRepos`) and their aggregation over the catalog
 * (`getReposList`, and the `set(...)` the report printers take of it).
 *
 * Each list-building loop of the program is a method proved equal to a
 * reference function; the reference functions are defined by recursion on
 * the last element, so that the loops' invariants step by definition.
 */
module Repositories {
  import opened Wrappers
  import opened Text
  import opened Catalog

  /** The Eclipse git host. */
  const GitHost := "http://git.eclipse.org"

  /** The clone-URL base a repository path is appended to: `http://git.eclipse.org/c`. */
  const BasicScmUrl := GitHost + "/c"

  /** The browse-to-clone rewrite applied to every source-control URL: `/c/` becomes `/gitroot/`. */
  function ToGitroot(url: string): (rewritten: string)
  {
    ReplaceAll(url, "/c/", "/gitroot/")
  }

  /** The text of `path` after its first `gitroot`, up to the next `gitroot` or the end. */
  function GitrootSegment(path: string): (seg: string)
    requires Contains(path, "gitroot")
  {
    Between(path, "gitroot")
  }

  /** `getSCMURL`: rebuild a URL from the `path` of a repository whose `url` is null. */
  function ScmUrl(repo: SourceRepo): (built: Option<string>)
  {
    match repo.path
    case None => None
    case Some(path) =>
      if !Contains(path, "gitroot") then None
      else
        var url := BasicScmUrl + Split(path, "gitroot")[1];
        if url == BasicScmUrl then None else Some(url)
  }

  /**
   * A path rebuilds to a URL exactly when it contains `gitroot` and the text
   * after the first `gitroot` (up to the next one) is not empty; the URL is
   * the base followed by that text.
   */
  lemma ScmUrlSpec(repo: SourceRepo)
    ensures ScmUrl(repo).Some? <==>
      repo.path.Some? && Contains(repo.path.value, "gitroot") && GitrootSegment(repo.path.value) != ""
    ensures ScmUrl(repo).Some? ==>
      ScmUrl(repo).value == BasicScmUrl + GitrootSegment(repo.path.value)
  {
    if repo.path.Some? && Contains(repo.path.value, "gitroot") {
      SecondPiece(repo.path.value, "gitroot");
      var seg := Split(repo.path.value, "gitroot")[1];
      assert BasicScmUrl + seg == BasicScmUrl <==> seg == [] by {
        if BasicScmUrl + seg == BasicScmUrl {
          assert |BasicScmUrl + seg| == |BasicScmUrl|;
        }
      }
    }
  }

  /** What one `source_repo` entry contributes to `getSCMRepos`, if anything. */
  function ScmEntry(repo: SourceRepo): (entry: Option<string>)
  {
    match repo.url
    case Some(url) => Some(ToGitroot(url))
    case None =>
      match ScmUrl(repo)
      case None => None
      case Some(url) => Some(ToGitroot(url))
  }

  function OptionToSeq<T>(o: Option<T>): (s: seq<T>)
  {
    match o
    case None => []
    case Some(v) => [v]
  }

  /** Reference for `getSCMRepos`: the entries' contributions, in order. */
  function ScmRepos(repos: seq<SourceRepo>): (urls: seq<string>)
    decreases |repos|
  {
    if |repos| == 0 then []
    else ScmRepos(repos[..|repos| - 1]) + OptionToSeq(ScmEntry(repos[|repos| - 1]))
  }

  /** `getSCMRepos`. */
  method GetScmRepos(project: Project) returns (reposList: seq<string>)
    ensures reposList == ScmRepos(project.sourceRepo)
  {
    var repos := project.sourceRepo;
    reposList := [];
    var i := 0;
    while i < |repos|
      invariant 0 <= i <= |repos|
      invariant reposList == ScmRepos(repos[..i])
    {
      var repo := repos[i];
      assert repos[..i + 1][..i] == repos[..i];
      if repo.url.None? {
        var url := ScmUrl(repo);
        if url.None? {
          i := i + 1;
          continue;
        }
        reposList := reposList + [ToGitroot(url.value)];
      } else {
        reposList := reposList + [ToGitroot(repo.url.value)];
      }
      i := i + 1;
    }
    assert repos[..i] == repos;
  }

  /**
   * One entry contributes exactly one URL when its `url` is set (the URL,
   * rewritten); otherwise the rewritten rebuilt URL when the path yields one,
   * and nothing when it does not.
   */
  lemma ScmReposOfOne(repo: SourceRepo)
    ensures repo.url.Some? ==> ScmRepos([repo]) == [ToGitroot(repo.url.value)]
    ensures repo.url.None? ==>
      (ScmRepos([repo]) == [] <==>
        !(repo.path.Some? && Contains(repo.path.value, "gitroot") && GitrootSegment(repo.path.value) != ""))
    ensures repo.url.None? && ScmRepos([repo]) != [] ==>
      ScmRepos([repo]) == [ToGitroot(BasicScmUrl + GitrootSegment(repo.path.value))]
  {
    assert [repo][..0] == [];
    ScmUrlSpec(repo);
  }

  /** `getSCMRepos` preserves the order of `source_repo`: it distributes over concatenation. */
  lemma {:induction false} ScmReposAppend(a: seq<SourceRepo>, b: seq<SourceRepo>)
    ensures ScmRepos(a + b) == ScmRepos(a) + ScmRepos(b)
    decreases |b|
  {
    if |b| == 0 {
      assert a + b == a;
    } else {
      var b' := b[..|b| - 1];
      assert (a + b)[..|a + b| - 1] == a + b';
      ScmReposAppend(a, b');
    }
  }

  /** `getSCMRepos` never yields more URLs than there are entries. */
  lemma {:induction false} ScmReposLength(repos: seq<SourceRepo>)
    ensures |ScmRepos(repos)| <= |repos|
    decreases |repos|
  {
    if |repos| > 0 {
      ScmReposLength(repos[..|repos| - 1]);
    }
  }

  lemma NoSlashInPieces()
    ensures '/' !in "http:" && '/' !in "git.eclipse.org"
  {
  }

  lemma HostPieces()
    ensures GitHost == "http:" + "//" + "git.eclipse.org"
  {
  }

  /** The host contains no `/c/`, so the first one after it is the first one at all. */
  lemma HostFind(d: string)
    ensures Find(GitHost + d, "/c/") == |GitHost| + Find(d, "/c/")
  {
    var p := "/c/";
    var a, b, c := "http:", "//", "git.eclipse.org";
    HostPieces();
    NoSlashInPieces();
    assert GitHost + d == a + (b + c + d);
    FindSkip(a, b + c + d, p);
    var s := b + c + d;
    assert s[..3][1] != p[1];
    assert s[1..][..3][1] != p[1];
    assert s == b + (c + d) && s[2..] == c + d;
    assert s[1..][1..] == s[2..];
    FindSkip(c, d, p);
  }

  /** `Find` of `gitroot` in `/gitroot/<name>`. */
  lemma GitrootPathFind(name: string)
    ensures Find("/gitroot/" + name, "gitroot") == 1
  {
    var path := "/gitroot/" + name;
    assert path == "/" + ("gitroot" + "/" + name);
    FindSkip("/", "gitroot" + "/" + name, "gitroot");
    assert ("gitroot" + "/" + name)[..7] == "gitroot";
  }

  /** The segment of a path `/gitroot/<name>` whose name has no further `gitroot`. */
  lemma GitrootPathSegment(name: string)
    requires !Contains(name, "gitroot")
    ensures Contains("/gitroot/" + name, "gitroot")
    ensures GitrootSegment("/gitroot/" + name) == "/" + name
  {
    var path := "/gitroot/" + name;
    GitrootPathFind(name);
    FindSpec(path, "gitroot");
    var rest := path[8..];
    assert rest == "/" + name && rest[1..] == name;
    if |rest| >= 7 {
      assert rest[..7][0] != "gitroot"[0];
    }
    assert !Contains(rest, "gitroot");
    FindSpec(rest, "gitroot");
  }

  /**
   * A repository with no `url` and the path `/gitroot/<name>` is cloned from
   * `http://git.eclipse.org/gitroot/<name>`: the path is rebuilt on the
   * browse base `/c/`, which the rewrite then turns back into `/gitroot/`.
   */
  lemma ScmReposGitrootPath(name: string)
    requires !Contains(name, "gitroot") && !Contains(name, "/c/")
    ensures ScmRepos([SourceRepo(None, Some("/gitroot/" + name))]) == [GitHost + "/gitroot/" + name]
  {
    var repo := SourceRepo(None, Some("/gitroot/" + name));
    GitrootPathSegment(name);
    ScmReposOfOne(repo);
    assert BasicScmUrl + ("/" + name) == GitHost + "/c/" + name;
    BrowseRewrite(name);
  }

  /** The rewrite of a browse URL `http://git.eclipse.org/c/<name>` whose name has no further `/c/`. */
  lemma BrowseRewrite(name: string)
    requires !Contains(name, "/c/")
    ensures ToGitroot(GitHost + "/c/" + name) == GitHost + "/gitroot/" + name
  {
    HostFind("/c/" + name);
    assert ("/c/" + name)[..3] == "/c/";
    assert Find("/c/" + name, "/c/") == 0;
    assert GitHost + "/c/" + name == GitHost + ("/c/" + name);
    ReplaceSingle(GitHost, "/c/", name, "/gitroot/");
  }

  /** `parseRepos`: the `url` of every entry, passed through unchanged and in order. */
  method ParseRepos(repos: seq<Link>) returns (reposList: seq<Option<string>>)
    ensures |reposList| == |repos|
    ensures forall i :: 0 <= i < |repos| ==> reposList[i] == repos[i].url
  {
    reposList := [];
    for i := 0 to |repos|
      invariant |reposList| == i
      invariant forall j :: 0 <= j < i ==> reposList[j] == repos[j].url
    {
      reposList := reposList + [repos[i].url];
    }
  }

  /** Reference for `getITSRepos`: every `query_url`, percent-decoded by `unquote`. */
  function ItsRepos(queries: seq<BugzillaQuery>, unquote: string -> string): (urls: seq<string>)
    decreases |queries|
  {
    if |queries| == 0 then []
    else ItsRepos(queries[..|queries| - 1], unquote) + [unquote(queries[|queries| - 1].queryUrl)]
  }

  /** `getITSRepos`; `urllib.unquote` is the parameter `unquote`. */
  method GetItsRepos(project: Project, unquote: string -> string) returns (reposList: seq<string>)
    ensures reposList == ItsRepos(project.bugzilla, unquote)
  {
    var repos := project.bugzilla;
    reposList := [];
    var i := 0;
    while i < |repos|
      invariant 0 <= i <= |repos|
      invariant reposList == ItsRepos(repos[..i], unquote)
    {
      assert repos[..i + 1][..i] == repos[..i];
      reposList := reposList + [unquote(repos[i].queryUrl)];
      i := i + 1;
    }
    assert repos[..i] == repos;
  }

  /** Every query yields exactly one entry, in order and without filtering. */
  lemma {:induction false} ItsReposShape(queries: seq<BugzillaQuery>, unquote: string -> string)
    ensures |ItsRepos(queries, unquote)| == |queries|
    ensures forall i :: 0 <= i < |queries| ==> ItsRepos(queries, unquote)[i] == unquote(queries[i].queryUrl)
    decreases |queries|
  {
    if |queries| > 0 {
      ItsReposShape(queries[..|queries| - 1], unquote);
    }
  }

  /** `getMLSRepos`: nothing for the "no data" sentinel or a null `url`, else the `url` alone. */
  function MlsRepos(devList: DevList): (r: seq<string>)
    ensures |r| <= 1
    ensures devList.NoData? ==> r == []
    ensures r == [] <==> devList.NoData? || devList.url.None?
    ensures r != [] ==> devList == MailingList(Some(r[0]))
  {
    match devList
    case NoData => []
    case MailingList(url) =>
      match url
      case None => []
      case Some(u) => [u]
  }

  /** The three repository kinds `getReposList` and `getReposDuplicateList` accept. */
  datatype Kind = Its | Scm | Mls

  /** The per-project list of the given kind. */
  function Repos(project: Project, kind: Kind, unquote: string -> string): (urls: seq<string>)
  {
    match kind
    case Its => ItsRepos(project.bugzilla, unquote)
    case Scm => ScmRepos(project.sourceRepo)
    case Mls => MlsRepos(project.devList)
  }

  /** Reference for `getReposList`: the per-project lists, concatenated in catalog order. */
  function ReposList(c: Catalog, kind: Kind, unquote: string -> string): (all: seq<string>)
    decreases |c|
  {
    if |c| == 0 then []
    else ReposList(c[..|c| - 1], kind, unquote) + Repos(c[|c| - 1].1, kind, unquote)
  }

  /** The dispatch on `kind` that both catalog-wide loops make for each project. */
  method ListRepos(project: Project, kind: Kind, unquote: string -> string) returns (repos: seq<string>)
    ensures repos == Repos(project, kind, unquote)
  {
    if kind == Its {
      repos := GetItsRepos(project, unquote);
    } else if kind == Scm {
      repos := GetScmRepos(project);
    } else {
      repos := MlsRepos(project.devList);
    }
  }

  /** `getReposList`. */
  method GetReposList(projects: Catalog, kind: Kind, unquote: string -> string) returns (reposAll: seq<string>)
    ensures reposAll == ReposList(projects, kind, unquote)
  {
    reposAll := [];
    var i := 0;
    while i < |projects|
      invariant 0 <= i <= |projects|
      invariant reposAll == ReposList(projects[..i], kind, unquote)
    {
      assert projects[..i + 1][..i] == projects[..i];
      var project := projects[i].1;
      var repos := ListRepos(project, kind, unquote);
      reposAll := reposAll + repos;
      i := i + 1;
    }
    assert projects[..i] == projects;
  }

  lemma ReposListSnoc(c1: Catalog, c2: Catalog, kind: Kind, unquote: string -> string)
    requires |c2| > 0
    ensures ReposList(c1 + c2, kind, unquote) ==
      ReposList(c1 + c2[..|c2| - 1], kind, unquote) + Repos(c2[|c2| - 1].1, kind, unquote)
  {
    assert (c1 + c2)[..|c1 + c2| - 1] == c1 + c2[..|c2| - 1];
    assert (c1 + c2)[|c1 + c2| - 1] == c2[|c2| - 1];
  }

  /** Aggregation distributes over splitting the catalog. */
  lemma {:induction false} ReposListAppend(c1: Catalog, c2: Catalog, kind: Kind, unquote: string -> string)
    ensures ReposList(c1 + c2, kind, unquote) == ReposList(c1, kind, unquote) + ReposList(c2, kind, unquote)
    decreases |c2|
  {
    if |c2| == 0 {
      assert c1 + c2 == c1;
    } else {
      ReposListAppend(c1, c2[..|c2| - 1], kind, unquote);
      ReposListSnoc(c1, c2, kind, unquote);
    }
  }

  /** Sum of the per-project list lengths, from the first project on. */
  function RepoCount(c: Catalog, kind: Kind, unquote: string -> string): (n: nat)
    decreases |c|
  {
    if |c| == 0 then 0 else |Repos(c[0].1, kind, unquote)| + RepoCount(c[1..], kind, unquote)
  }

  /** The aggregate is as long as the per-project lists together. */
  lemma {:induction false} ReposListLength(c: Catalog, kind: Kind, unquote: string -> string)
    ensures |ReposList(c, kind, unquote)| == RepoCount(c, kind, unquote)
    decreases |c|
  {
    if |c| > 0 {
      ReposListLength(c[1..], kind, unquote);
      ReposListAppend([c[0]], c[1..], kind, unquote);
      assert [c[0]] + c[1..] == c;
      assert [c[0]][..0] == [];
    }
  }

  /** Sum of the `bugzilla` list lengths. */
  function QueryCount(c: Catalog): (n: nat)
    decreases |c|
  {
    if |c| == 0 then 0 else |c[0].1.bugzilla| + QueryCount(c[1..])
  }

  /** Sum of the `source_repo` list lengths. */
  function SourceRepoCount(c: Catalog): (n: nat)
    decreases |c|
  {
    if |c| == 0 then 0 else |c[0].1.sourceRepo| + SourceRepoCount(c[1..])
  }

  /**
   * Issue-tracker aggregation yields exactly one entry per `bugzilla` query;
   * source-control aggregation at most one per `source_repo` entry; and
   * mailing-list aggregation at most one per project.
   */
  lemma {:induction false} ReposListCounts(c: Catalog, unquote: string -> string)
    ensures |ReposList(c, Its, unquote)| == QueryCount(c)
    ensures |ReposList(c, Scm, unquote)| <= SourceRepoCount(c)
    ensures |ReposList(c, Mls, unquote)| <= |c|
  {
    ReposListLength(c, Its, unquote);
    ReposListLength(c, Scm, unquote);
    ReposListLength(c, Mls, unquote);
    RepoCountBounds(c, unquote);
  }

  lemma {:induction false} RepoCountBounds(c: Catalog, unquote: string -> string)
    ensures RepoCount(c, Its, unquote) == QueryCount(c)
    ensures RepoCount(c, Scm, unquote) <= SourceRepoCount(c)
    ensures RepoCount(c, Mls, unquote) <= |c|
    decreases |c|
  {
    if |c| > 0 {
      RepoCountBounds(c[1..], unquote);
      ItsReposShape(c[0].1.bugzilla, unquote);
      ScmReposLength(c[0].1.sourceRepo);
    }
  }

  /** The per-project lists of one kind, in catalog order. */
  function PerProject(c: Catalog, kind: Kind, unquote: string -> string): (r: seq<seq<string>>)
    ensures |r| == |c|
    ensures forall j :: 0 <= j < |c| ==> r[j] == Repos(c[j].1, kind, unquote)
  {
    seq(|c|, j requires 0 <= j < |c| => Repos(c[j].1, kind, unquote))
  }

  function Concat(ls: seq<seq<string>>): (flat: seq<string>)
    decreases |ls|
  {
    if |ls| == 0 then [] else Concat(ls[..|ls| - 1]) + ls[|ls| - 1]
  }

  lemma {:induction false} ConcatMember(ls: seq<seq<string>>, u: string)
    ensures u in Concat(ls) <==> exists j :: 0 <= j < |ls| && u in ls[j]
    decreases |ls|
  {
    if |ls| > 0 {
      var n := |ls| - 1;
      ConcatMember(ls[..n], u);
      if exists j :: 0 <= j < |ls| && u in ls[j] {
        var j :| 0 <= j < |ls| && u in ls[j];
        if j < n {
          assert u in ls[..n][j];
        }
      }
      if exists j :: 0 <= j < n && u in ls[..n][j] {
        var j :| 0 <= j < n && u in ls[..n][j];
        assert u in ls[j];
      }
    }
  }

  lemma {:induction false} ReposListIsConcat(c: Catalog, kind: Kind, unquote: string -> string)
    ensures ReposList(c, kind, unquote) == Concat(PerProject(c, kind, unquote))
    decreases |c|
  {
    if |c| > 0 {
      var n := |c| - 1;
      ReposListIsConcat(c[..n], kind, unquote);
      var ls := PerProject(c, kind, unquote);
      assert ls[..n] == PerProject(c[..n], kind, unquote);
    }
  }

  /** A URL is in the aggregate exactly when some project's own list has it. */
  lemma ReposListMember(c: Catalog, kind: Kind, unquote: string -> string, u: string)
    ensures u in ReposList(c, kind, unquote) <==>
      exists j :: 0 <= j < |c| && u in Repos(c[j].1, kind, unquote)
  {
    var ls := PerProject(c, kind, unquote);
    ReposListIsConcat(c, kind, unquote);
    ConcatMember(ls, u);
    if exists j :: 0 <= j < |c| && u in Repos(c[j].1, kind, unquote) {
      var j :| 0 <= j < |c| && u in Repos(c[j].1, kind, unquote);
      assert u in ls[j];
    }
    if exists j :: 0 <= j < |ls| && u in ls[j] {
      var j :| 0 <= j < |ls| && u in ls[j];
      assert u in Repos(c[j].1, kind, unquote);
    }
  }

  /** The de-duplicated URL set `set(all_repos)` the report printers take. */
  function UniqueRepos(c: Catalog, kind: Kind, unquote: string -> string): (r: set<string>)
    ensures forall u :: u in r <==> u in ReposList(c, kind, unquote)
    ensures |r| <= |ReposList(c, kind, unquote)|
  {
    var all := ReposList(c, kind, unquote);
    DistinctBound(all);
    set u | u in all
  }

  /** A sequence has at most as many distinct elements as it has elements. */
  lemma {:induction false} DistinctBound<T>(s: seq<T>)
    ensures |set x | x in s| <= |s|
    decreases |s|
  {
    if |s| > 0 {
      var s' := s[..|s| - 1];
      DistinctBound(s');
      assert (set x | x in s) == (set x | x in s') + {s[|s| - 1]} by {
        assert s == s' + [s[|s| - 1]];
      }
    }
  }
}
