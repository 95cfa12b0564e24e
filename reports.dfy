/**
 * The per-URL text rules of two report printers: the `git clone` line of
 * `showReposSCMList` and the gerrit project name of `showReposSCRList`.
 */
module Reports {
  import opened Wrappers
  import opened Text

  /** What `showReposSCMList` does with one line. */
  datatype CloneLine =
    | Command(text: string)   // printed
    | SvnSkipped              // only a warning is logged
    | SplitIndexError         // `split('/gitroot/')[1]` raises and ends the report

  /** The clone rule for one line of the report. */
  function CloneLineFor(line: string): (outcome: CloneLine)
  {
    if Contains(line, "gitroot") then
      var parts := Split(line, "/gitroot/");
      if |parts| < 2 then SplitIndexError else Command("git clone " + line + " scm/" + parts[1])
    else if Contains(line, "svnroot") then SvnSkipped
    else Command("git clone " + line + " scm/")
  }

  lemma SlashedGitroot(line: string)
    requires Contains(line, "/gitroot/")
    ensures Contains(line, "gitroot")
  {
    assert "/" + "gitroot" + "/" == "/gitroot/";
    ContainsInfix(line, "/", "gitroot", "/");
  }

  /**
   * A line holding `/gitroot/` is cloned into the folder named by the text
   * between its first and second `/gitroot/`; one holding `gitroot` only
   * without the slashes makes the report fail; a line with `svnroot` and no
   * `gitroot` is skipped; any other line is cloned with an empty target.
   */
  lemma CloneLineSpec(line: string)
    ensures Contains(line, "/gitroot/") ==>
      CloneLineFor(line) == Command("git clone " + line + " scm/" + Between(line, "/gitroot/"))
    ensures Contains(line, "gitroot") && !Contains(line, "/gitroot/") ==> CloneLineFor(line) == SplitIndexError
    ensures CloneLineFor(line) == SvnSkipped <==> !Contains(line, "gitroot") && Contains(line, "svnroot")
    ensures !Contains(line, "gitroot") && !Contains(line, "svnroot") ==>
      CloneLineFor(line) == Command("git clone " + line + " scm/")
  {
    if Contains(line, "/gitroot/") {
      SlashedGitroot(line);
      SecondPiece(line, "/gitroot/");
    }
  }

  /**
   * The lines the report walks: the distinct URLs joined by newlines, with a
   * newline appended and cut off again, split on newlines.
   */
  function ReportLines(unique: seq<string>): (lines: seq<string>)
  {
    var rlist := "" + Join(unique, "\n") + "\n";
    Split(rlist[..|rlist| - 1], "\n")
  }

  /**
   * Without newlines inside the URLs the report walks exactly the URLs; with
   * no URL at all it still walks one empty line, and prints `git clone  scm/`.
   */
  lemma ReportLinesSpec(unique: seq<string>)
    ensures (forall i :: 0 <= i < |unique| ==> '\n' !in unique[i]) && unique != [] ==> ReportLines(unique) == unique
    ensures unique == [] ==> ReportLines(unique) == [""]
    ensures unique == [] ==> CloneLineFor(ReportLines(unique)[0]) == Command("git clone  scm/")
  {
    var rlist := "" + Join(unique, "\n") + "\n";
    assert rlist[..|rlist| - 1] == Join(unique, "\n");
    if unique == [] {
      assert !Contains("", "gitroot") && !Contains("", "svnroot");
    } else if forall i :: 0 <= i < |unique| ==> '\n' !in unique[i] {
      SplitOfJoin(unique, "\n");
    }
  }

  /** The prefix `showReposSCRList` strips from every URL. */
  const GitrootPrefix := "http://git.eclipse.org/gitroot/"

  /** The gerrit project name of a URL containing `gitroot`: every prefix and every `.git` removed. */
  function GerritName(repo: string): (name: Option<string>)
  {
    if Contains(repo, "gitroot") then Some(ReplaceAll(ReplaceAll(repo, GitrootPrefix, ""), ".git", ""))
    else None
  }

  /**
   * A URL with `gitroot` that is not under the standard prefix and has no
   * `.git` keeps its whole text as its name; one without `gitroot` has none.
   */
  lemma GerritNameForeign(repo: string)
    ensures !Contains(repo, "gitroot") ==> GerritName(repo).None?
    ensures Contains(repo, "gitroot") && !Contains(repo, GitrootPrefix) && !Contains(repo, ".git") ==>
      GerritName(repo) == Some(repo)
  {
    PrefixPieces();
    ReplaceAllAtFirst(repo, GitrootPrefix, "");
    ReplaceAllAtFirst(repo, ".git", "");
  }

  lemma PrefixPieces()
    ensures "http://git.eclipse.org/" + "gitroot" + "/" == GitrootPrefix
    ensures |GitrootPrefix| > 0
  {
  }

  lemma PrefixReplaced(tail: string)
    requires !Contains(tail, GitrootPrefix)
    ensures ReplaceAll(GitrootPrefix + tail, GitrootPrefix, "") == tail
  {
    var s := "" + GitrootPrefix + tail;
    assert s == GitrootPrefix + tail;
    assert s[..|GitrootPrefix|] == GitrootPrefix;
    ReplaceSingle("", GitrootPrefix, tail, "");
  }

  lemma SuffixReplaced(name: string)
    requires !Contains(name, ".git")
    ensures ReplaceAll(name + ".git", ".git", "") == name
  {
    FindAfter(name, ".git");
    assert name + ".git" + "" == name + ".git";
    ReplaceSingle(name, ".git", "", "");
  }

  /**
   * The URL of a repository cloned from the standard location yields the
   * repository's own name.
   */
  lemma GerritNameStandard(name: string)
    requires !Contains(name + ".git", GitrootPrefix) && !Contains(name, ".git")
    ensures GerritName(GitrootPrefix + name + ".git") == Some(name)
  {
    var s := GitrootPrefix + name + ".git";
    PrefixPieces();
    assert s == "http://git.eclipse.org/" + "gitroot" + ("/" + name + ".git");
    assert s[..|s|] == s;
    ContainsInfix(s, "http://git.eclipse.org/", "gitroot", "/" + name + ".git");
    assert s == GitrootPrefix + (name + ".git");
    PrefixReplaced(name + ".git");
    SuffixReplaced(name);
  }
}
