# Eclipse projects catalog normaliser, in Dafny

`eclipse/eclipse_projects.py` reads the Eclipse Foundation's project catalog:
a JSON object that maps each project key to a record with its source
repositories, Bugzilla queries, developer mailing list and parent project.
From it the program derives:

- per-project repository lists of three kinds: source control (`scm`), issue
  tracker (`its`) and mailing list (`mls`);
- a catalog-wide aggregate of each kind, and a duplicate index of URLs listed
  more than once;
- the one-level parent-to-children tree;
- the transitive children of a project, which the database loader turns into
  (ancestor, descendant) rows;
- the per-URL text rules of two report printers: the `git clone` line and the
  gerrit project name.

This project models those computations and proves what they compute. The
list-building loops, the duplicate loop, the tree loop and the children loop
are Dafny methods with the same loops. Each is proved equal to a reference
function, and the properties are lemmas about that function. The loops of the
two report printers (lines 250-259 and 291-295) are modelled one line at a
time (`CloneLineFor`, `GerritName`), and the insertion loop of lines 383-389
as the set of pairs it writes (`ChildLinks`).

Modules, one per file:

| file | module | models |
|---|---|---|
| `wrappers.dfy` | `Wrappers` | `Option` |
| `catalog.dfy` | `Catalog` | the decoded catalog: records, and an ordered sequence of (key, record) pairs for the dictionary |
| `text.dfy` | `Text` | the Python 2 string operations the program uses (`in`, `split`, `join`, `replace`), and `Find`, a first-occurrence helper for stating specifications |
| `repositories.dfy` | `Repositories` | `getSCMURL`, `getSCMRepos`, `parseRepos`, `getITSRepos`, `getMLSRepos`, `getReposList`, and the `set(...)` of the reports |
| `duplicates.dfy` | `Duplicates` | `getReposDuplicateList` |
| `tree.dfy` | `ProjectsTree` | the tree-building loop of `showProjectsTree` |
| `children.dfy` | `ProjectChildren` | `get_project_children`, and the (ancestor, descendant) pairs that `create_projects_db_info` inserts |
| `reports.dfy` | `Reports` | the clone-target rule of `showReposSCMList` and the gerrit-name rule of `showReposSCRList` |

Modelling choices:

- **Dictionaries.** Python's dictionary iteration order becomes the order of
  the catalog sequence. Lemmas that need unique keys assume `DistinctKeys`.
- **Strings.** They are `seq<char>`. The helper `Find(s, p)` gives the index
  of the first occurrence of `p`, or `|s|` when `p` is absent.
- **`urllib.unquote`.** It is the function parameter `unquote`.
- **`parent_project`.** Only its first entry is read, as in the code
  (`ParentOf`).
- **`dev_list`.** Any list stands for "no data" (line 138 tests
  `isinstance(info, list)`) and becomes `NoData`.

## Behaviour worth knowing

- **Clone target.** The folder of `git clone` is the text between the first
  and the second `/gitroot/` of the URL (`split('/gitroot/')[1]`). That is
  not the text after the last one.
- **No `/gitroot/`.** A URL that contains `gitroot` without both slashes
  makes that index raise `IndexError`, which ends the report.
- **Empty report.** With no URL at all, the report still walks one empty line
  and prints `git clone  scm/`.
- **Duplicate index.** It counts listings, not projects. A project that lists
  one URL twice is a duplicate of itself, and its key appears twice.
- **Children without a visited set.** `get_project_children` keeps no visited
  set. Called on a project that lies on a cycle of parent links, it recurses
  until Python 2 stops it with `RuntimeError: maximum recursion depth
  exceeded`. Called on any other project it returns, because a project off
  every cycle has only descendants off every cycle. `create_projects_db_info`
  calls it for every key (line 384), so a catalog with any cycle makes the
  database load fail. The model requires an acyclic parent relation,
  witnessed by a ghost `rank` that every parent link increases.
- **Children order.** The result is in pre-order: each child is followed at
  once by everything below it. It is not in breadth order.

## Model

| member | source | states |
|---|---|---|
| `Repositories.ScmUrlSpec` | eclipse/eclipse_projects.py:96-108 | a URL is rebuilt exactly when the path is present, contains `gitroot`, and the text after its first `gitroot` (up to the next one) is non-empty; the URL is `http://git.eclipse.org/c` followed by that text |
| `Repositories.GetScmRepos` | eclipse/eclipse_projects.py:110-120 | the loop returns the reference list: each entry's `url`, or else its rebuilt URL, with `/c/` rewritten to `/gitroot/`, skipping entries with neither, in order |
| `Repositories.ScmReposOfOne` | eclipse/eclipse_projects.py:113-119 | an entry with a `url` contributes exactly that URL rewritten; one without contributes nothing exactly when no URL can be rebuilt, and otherwise the rewritten rebuilt URL |
| `Repositories.ScmReposAppend` | eclipse/eclipse_projects.py:110-120 | the list of a concatenation of entries is the concatenation of their lists: order is kept and no entry affects another |
| `Repositories.ScmReposLength` | eclipse/eclipse_projects.py:110-120 | at most one URL per `source_repo` entry |
| `Repositories.ScmReposGitrootPath` | eclipse/eclipse_projects.py:96-119 | an entry with no `url` and the path `/gitroot/<name>` (name without a further `gitroot` or `/c/`) yields `http://git.eclipse.org/gitroot/<name>` |
| `Repositories.BrowseRewrite` | eclipse/eclipse_projects.py:117 | the `/c/` of `http://git.eclipse.org/c/<name>` (name without a further `/c/`) becomes `/gitroot/`, and nothing else changes |
| `Repositories.ParseRepos` | eclipse/eclipse_projects.py:122-126 | the result has one element per entry, the entry's `url` unchanged, in order |
| `Repositories.GetItsRepos` | eclipse/eclipse_projects.py:128-133 | the loop returns the reference list of decoded `query_url`s |
| `Repositories.ItsReposShape` | eclipse/eclipse_projects.py:128-133 | one entry per Bugzilla query, in order, each its decoded `query_url` |
| `Repositories.MlsRepos` | eclipse/eclipse_projects.py:135-141 | at most one URL; none exactly for the "no data" list or a null `url`; otherwise the list's `url` |
| `Repositories.ListRepos` | eclipse/eclipse_projects.py:168-173 | the dispatch on the kind returns that kind's per-project list |
| `Repositories.GetReposList` | eclipse/eclipse_projects.py:165-175 | the loop returns the per-project lists concatenated in catalog order |
| `Repositories.ReposListAppend` | eclipse/eclipse_projects.py:165-175 | the aggregate of two catalogs one after the other is the concatenation of their aggregates |
| `Repositories.ReposListLength` | eclipse/eclipse_projects.py:165-175 | the aggregate is exactly as long as all per-project lists together (no URL is dropped or merged) |
| `Repositories.ReposListCounts` | eclipse/eclipse_projects.py:165-175 | the `its` total equals the number of Bugzilla queries; the `scm` total is at most the number of `source_repo` entries; the `mls` total is at most the number of projects |
| `Repositories.ReposListMember` | eclipse/eclipse_projects.py:165-175 | a URL is in the aggregate exactly when some project's own list holds it |
| `Repositories.UniqueRepos` | eclipse/eclipse_projects.py:247 | `set(all_repos)` holds exactly the URLs of the aggregate and is no larger than it |
| `Duplicates.RecordListings` | eclipse/eclipse_projects.py:188-194 | the inner loop leaves the two dictionaries as replaying the project's listings, one at a time, on the dictionaries it was given |
| `Duplicates.GetReposDuplicateList` | eclipse/eclipse_projects.py:177-195 | the result is the reference duplicate index of all listings in catalog order |
| `Duplicates.ReplayTracks` | eclipse/eclipse_projects.py:188-194 | after any run of listings, `repos_seen` holds exactly the URLs listed so far, each with the project that listed it first, and `repos_dup` is the duplicate index of the run |
| `Duplicates.ReplayIndex` | eclipse/eclipse_projects.py:188-194 | replaying the three cases of the loop body yields the duplicate index |
| `Duplicates.UrlsOfOccurrences` | eclipse/eclipse_projects.py:181-188 | the duplicate loop visits exactly the URLs of the `getReposList` aggregate, in the same order |
| `Duplicates.DuplicateIndexMeaning` | eclipse/eclipse_projects.py:177-195 | a URL is a key exactly when it occurs twice or more in the aggregate; its list has one key per occurrence; every key listed is a project that lists the URL; the first is the first such project in catalog order |
| `Duplicates.SameProjectTwice` | eclipse/eclipse_projects.py:188-193 | a project with two Bugzilla queries decoding to the same URL gets that URL mapped to its own key twice |
| `Duplicates.SharedMailingList` | eclipse/eclipse_projects.py:177-195 | of three projects, the first and the third on one mailing list, only that list is a key, mapped to those two projects in order |
| `ProjectsTree.BuildProjectsTree` | eclipse/eclipse_projects.py:202-217 | the loop builds the reference tree: each key, with the keys of the projects naming it as parent, in catalog order |
| `ProjectsTree.TreeShape` | eclipse/eclipse_projects.py:208-217 | every parentless project is a key; the keys are exactly the parentless projects and the named parents; a key's list holds exactly the projects naming it as parent; every project with a parent is in its parent's list |
| `ProjectsTree.TreeOnce` | eclipse/eclipse_projects.py:208-217 | with distinct keys, no list repeats a project, a parentless project is in no list, and a project with a parent is in no other list |
| `ProjectsTree.DirectChildrenOrder` | eclipse/eclipse_projects.py:213-217 | two children of one parent are listed in catalog order |
| `ProjectsTree.DirectChildrenNoDup` | eclipse/eclipse_projects.py:213-217 | with distinct keys, a parent's list has no repeated key |
| `ProjectsTree.TreeExample` | eclipse/eclipse_projects.py:208-217 | root, middle and leaf give `{root: [middle], middle: [leaf]}` |
| `ProjectChildren.GetProjectChildren` | eclipse/eclipse_projects.py:340-352 | the recursive loop returns the reference list of descendants |
| `ProjectChildren.DescendantsMember` | eclipse/eclipse_projects.py:343-351 | a key is in the result exactly when it is a child of the project or lies below one of its children |
| `ProjectChildren.DescendantsRank` | eclipse/eclipse_projects.py:340-352 | every descendant ranks strictly below its ancestor |
| `ProjectChildren.NotOwnDescendant` | eclipse/eclipse_projects.py:340-352 | no project is among its own descendants |
| `ProjectChildren.DescendantsParent` | eclipse/eclipse_projects.py:343-351 | every descendant is the key of a project whose parent is the ancestor or another descendant |
| `ProjectChildren.DescendantsClosed` | eclipse/eclipse_projects.py:349-351 | a child of the project or of any of its descendants is a descendant |
| `ProjectChildren.DescendantsLeast` | eclipse/eclipse_projects.py:340-352 | the descendants lie inside every set that holds the direct children and is closed under children |
| `ProjectChildren.DescendantsTransitive` | eclipse/eclipse_projects.py:351 | whatever lies below a descendant lies below the ancestor |
| `ProjectChildren.Leaf` | eclipse/eclipse_projects.py:340-352 | a project without children yields the empty list |
| `ProjectChildren.DescendantsPreOrder` | eclipse/eclipse_projects.py:349-351 | the result is the direct children in catalog order, each followed at once by its own descendants |
| `ProjectChildren.SiblingsApart` | eclipse/eclipse_projects.py:340-352 | two children of one project are never below one another |
| `ProjectChildren.Disjoint` | eclipse/eclipse_projects.py:340-352 | two projects neither of which is below the other have no descendant in common |
| `ProjectChildren.DescendantsNoDup` | eclipse/eclipse_projects.py:340-352 | with distinct keys, no descendant is listed twice |
| `ProjectChildren.ChildLinksMeaning` | eclipse/eclipse_projects.py:383-389 | both ends of every inserted pair are catalog keys, so both `projects_db` lookups succeed; no project is paired with itself; every parent link is a pair; the pairs are transitive |
| `ProjectChildren.ChainExample` | eclipse/eclipse_projects.py:340-352 | with a leaf listed first, below its middle project, below a root: the root yields `[middle, leaf]`, the middle `[leaf]` and the leaf `[]` |
| `Reports.CloneLineSpec` | eclipse/eclipse_projects.py:250-259 | a line with `/gitroot/` is cloned into the text between its first and second `/gitroot/`; `gitroot` without the slashes raises; `svnroot` without `gitroot` is skipped, and only it; any other line is cloned with an empty target |
| `Reports.ReportLinesSpec` | eclipse/eclipse_projects.py:247-250 | joining with newlines, appending and cutting one newline, and splitting gives back the URLs when none holds a newline; with no URL it gives one empty line, printed as `git clone  scm/` |
| `Reports.GerritNameForeign` | eclipse/eclipse_projects.py:291-294 | a URL without `gitroot` gets no name; one with `gitroot` that holds neither `http://git.eclipse.org/gitroot/` nor `.git` keeps its whole text as its name |
| `Reports.GerritNameStandard` | eclipse/eclipse_projects.py:291-294 | `http://git.eclipse.org/gitroot/<name>.git` yields `<name>` when the name holds neither text |
| `Text.SplitAtFirst` | eclipse/eclipse_projects.py:103 | the first piece of a split is the text before the first separator, and the other pieces are the split of the rest |
| `Text.SecondPiece` | eclipse/eclipse_projects.py:253 | the second piece of a split is the text between the first and the second separator |
| `Text.ReplaceAllIsJoinOfSplit` | eclipse/eclipse_projects.py:293-294 | `s.replace(p, r)` is `r.join(s.split(p))` |
| `Text.SplitOfJoin` | eclipse/eclipse_projects.py:248-250 | splitting a join on a one-character separator that no part holds gives back the parts |

## Left out

- Option parsing, the network fetch of the catalog, the JSON cache file and
  the `__main__` block: these are I/O. The model starts from the decoded
  catalog.
- Logging and printing, including `pprint` of the tree and of the duplicate
  index, and the printed text of every report. These are output only.
- `parseProject`, `showProjects`, `showFields`, `showReposITSList`,
  `showReposMLSList` and `showDuplicatesList`. They only print what the
  modelled functions compute.
- The MySQL schema and the inserts of `create_projects_db_info`, and the
  generated `insert_id` numbers. They are database I/O. What is modelled is
  the set of (ancestor, descendant) key pairs that the insertion loop writes
  (`ChildLinks`).
- `sql_datafreshness` is not part of this model.
- The order of `list(set(...))` is unspecified in Python. The report rules
  take the distinct URLs as a sequence in any order, and `UniqueRepos` gives
  them as a set.
- `showReposSCMList`: the `IndexError` is modelled as the outcome of that one
  line (`SplitIndexError`). That later lines are then never printed is not
  modelled.
- `showReposSCRList`: the assembly of the quoted, comma-separated output
  string and the cut of its last comma are not modelled, only each URL's
  name.
- Kinds other than `its`, `scm` and `mls`. With one of those, `getReposList`
  would raise `UnboundLocalError` on the first project, because `repos` is
  then never assigned. `Kind` admits
  only the three.
- `GetProjectChildren`: cyclic parent links are excluded by the `RankedBy`
  precondition, because a call on a project on a cycle stops at Python 2's
  recursion limit with `RuntimeError: maximum recursion depth exceeded`.
  `RankedBy` is a condition on the whole catalog, so it also excludes calls
  on projects off every cycle of a cyclic catalog. Those calls return
  normally in the source, and the model says nothing about them.
- `urllib.unquote` is an uninterpreted parameter. Its percent-decoding is not
  modelled.
