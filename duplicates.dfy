/**
 * The duplicate index of `getReposDuplicateList`: for every URL that occurs
 * twice or more in the per-project lists of one kind, the keys of the
 * projects that listed it, one per occurrence, in catalog order.
 */
module Duplicates {
  import opened Wrappers
  import opened Catalog
  import opened Repositories

  /** One listing of a URL, with the key of the project that listed it. */
  type Occurrence = (string, string)

  /** The listings of one project. */
  function Tag(urls: seq<string>, key: string): (r: seq<Occurrence>)
    ensures |r| == |urls|
    ensures forall i :: 0 <= i < |urls| ==> r[i] == (urls[i], key)
  {
    seq(|urls|, i requires 0 <= i < |urls| => (urls[i], key))
  }

  /** A project's key with its list of the given kind. */
  type Listing = (string, seq<string>)

  /** The per-project lists of the given kind, in catalog order. */
  function Listings(c: Catalog, kind: Kind, unquote: string -> string): (r: seq<Listing>)
    ensures |r| == |c|
    ensures forall i :: 0 <= i < |c| ==> r[i] == (c[i].0, Repos(c[i].1, kind, unquote))
  {
    seq(|c|, i requires 0 <= i < |c| => (c[i].0, Repos(c[i].1, kind, unquote)))
  }

  /** One listing per URL of each project, projects in order. */
  function Flatten(ls: seq<Listing>): (flat: seq<Occurrence>)
    decreases |ls|
  {
    if |ls| == 0 then [] else Flatten(ls[..|ls| - 1]) + Tag(ls[|ls| - 1].1, ls[|ls| - 1].0)
  }

  /** Every listing of the given kind, in the order the program visits them. */
  function Occurrences(c: Catalog, kind: Kind, unquote: string -> string): (listed: seq<Occurrence>)
  {
    Flatten(Listings(c, kind, unquote))
  }

  /** The URLs of a run of listings. */
  function Urls(occ: seq<Occurrence>): (urls: seq<string>)
    decreases |occ|
  {
    if |occ| == 0 then [] else Urls(occ[..|occ| - 1]) + [occ[|occ| - 1].0]
  }

  /** The projects that listed `u`, once per listing, in order. */
  function Owners(occ: seq<Occurrence>, u: string): (owners: seq<string>)
    decreases |occ|
  {
    if |occ| == 0 then []
    else Owners(occ[..|occ| - 1], u) + (if occ[|occ| - 1].0 == u then [occ[|occ| - 1].1] else [])
  }

  /** Reference for `getReposDuplicateList`: the URLs listed twice or more, with their owners. */
  function DuplicateIndex(occ: seq<Occurrence>): (index: map<string, seq<string>>)
  {
    map u | u in Urls(occ) && |Owners(occ, u)| >= 2 :: Owners(occ, u)
  }

  /** How many times `x` occurs in `s`. */
  function Count<T(==)>(s: seq<T>, x: T): (n: nat)
    decreases |s|
  {
    if |s| == 0 then 0 else Count(s[..|s| - 1], x) + (if s[|s| - 1] == x then 1 else 0)
  }

  /** What the loop of `getReposDuplicateList` knows after the listings `occ`. */
  ghost predicate Tracks(occ: seq<Occurrence>, seen: map<string, string>, dup: map<string, seq<string>>)
  {
    && (forall u :: u in seen <==> Owners(occ, u) != [])
    && (forall u :: u in seen ==> seen[u] == Owners(occ, u)[0])
    && dup == DuplicateIndex(occ)
  }

  lemma OwnersSnoc(occ: seq<Occurrence>, u: string, key: string)
    ensures forall v :: Owners(occ + [(u, key)], v) == Owners(occ, v) + (if v == u then [key] else [])
    ensures Urls(occ + [(u, key)]) == Urls(occ) + [u]
  {
    assert (occ + [(u, key)])[..|occ|] == occ;
  }

  /** A URL has owners exactly when it is listed. */
  lemma {:induction false} OwnersCount(occ: seq<Occurrence>, u: string)
    ensures |Owners(occ, u)| == Count(Urls(occ), u)
    ensures Owners(occ, u) != [] <==> u in Urls(occ)
    decreases |occ|
  {
    if |occ| > 0 {
      var occ' := occ[..|occ| - 1];
      OwnersCount(occ', u);
      assert occ == occ' + [occ[|occ| - 1]];
      OwnersSnoc(occ', occ[|occ| - 1].0, occ[|occ| - 1].1);
      var us := Urls(occ);
      assert us[..|us| - 1] == Urls(occ');
    }
  }

  /** How one more listing changes the reference index. */
  lemma DuplicateIndexSnoc(occ: seq<Occurrence>, u: string, key: string)
    ensures var d, d' := DuplicateIndex(occ), DuplicateIndex(occ + [(u, key)]);
      && (forall v :: v != u ==> (v in d' <==> v in d))
      && (forall v :: v != u && v in d ==> d'[v] == d[v])
      && (u in d' <==> Owners(occ, u) != [])
      && (u in d' ==> d'[u] == Owners(occ, u) + [key])
  {
    var occ' := occ + [(u, key)];
    OwnersSnoc(occ, u, key);
    OwnersCount(occ', u);
    forall v | v != u
      ensures (v in Urls(occ') && |Owners(occ', v)| >= 2) <==> (v in Urls(occ) && |Owners(occ, v)| >= 2)
    {
      OwnersCount(occ, v);
      OwnersCount(occ', v);
    }
  }

  /** A further listing of a URL already listed before extends its entry in the index. */
  lemma DuplicateIndexRepeat(occ: seq<Occurrence>, u: string, key: string, l: seq<string>)
    requires Owners(occ, u) != [] && l == Owners(occ, u) + [key]
    ensures DuplicateIndex(occ)[u := l] == DuplicateIndex(occ + [(u, key)])
  {
    DuplicateIndexSnoc(occ, u, key);
    var d, d' := DuplicateIndex(occ), DuplicateIndex(occ + [(u, key)]);
    var m := d[u := l];
    assert u in d' && d'[u] == l;
    forall v ensures v in m <==> v in d' {
      if v != u {
        assert v in m <==> v in d;
      }
    }
    forall v | v in m ensures m[v] == d'[v] {
      if v != u {
        assert m[v] == d[v];
      }
    }
  }

  /** The first listing of a URL leaves the index as it was. */
  lemma DuplicateIndexFirst(occ: seq<Occurrence>, u: string, key: string)
    requires Owners(occ, u) == []
    ensures DuplicateIndex(occ) == DuplicateIndex(occ + [(u, key)])
  {
    DuplicateIndexSnoc(occ, u, key);
    var d, d' := DuplicateIndex(occ), DuplicateIndex(occ + [(u, key)]);
    assert d.Keys == d'.Keys;
    assert forall v :: v in d ==> d[v] == d'[v];
  }

  /** The loop body's first case: `u` was seen before, and is now a duplicate for the first time. */
  lemma TracksFirstRepeat(occ: seq<Occurrence>, seen: map<string, string>, dup: map<string, seq<string>>,
                          u: string, key: string, occ': seq<Occurrence>, dup': map<string, seq<string>>)
    requires Tracks(occ, seen, dup)
    requires u in seen && u !in dup
    requires occ' == occ + [(u, key)] && dup' == dup[u := [seen[u], key]]
    ensures Tracks(occ', seen, dup')
  {
    OwnersSnoc(occ, u, key);
    OwnersCount(occ, u);
    var o := Owners(occ, u);
    assert o != [] && o[0] == seen[u];
    assert |o| == 1;
    assert o + [key] == [seen[u], key];
    DuplicateIndexRepeat(occ, u, key, [seen[u], key]);
  }

  /** The loop body's second case: `u` is already a duplicate. */
  lemma TracksRepeat(occ: seq<Occurrence>, seen: map<string, string>, dup: map<string, seq<string>>,
                     u: string, key: string, occ': seq<Occurrence>, dup': map<string, seq<string>>)
    requires Tracks(occ, seen, dup)
    requires u in seen && u in dup
    requires occ' == occ + [(u, key)] && dup' == dup[u := dup[u] + [key]]
    ensures Tracks(occ', seen, dup')
  {
    OwnersSnoc(occ, u, key);
    assert dup[u] == Owners(occ, u);
    DuplicateIndexRepeat(occ, u, key, dup[u] + [key]);
  }

  /** The loop body's third case: `u` is seen for the first time. */
  lemma TracksFirst(occ: seq<Occurrence>, seen: map<string, string>, dup: map<string, seq<string>>,
                    u: string, key: string, occ': seq<Occurrence>, seen': map<string, string>)
    requires Tracks(occ, seen, dup)
    requires u !in seen
    requires occ' == occ + [(u, key)] && seen' == seen[u := key]
    ensures Tracks(occ', seen', dup)
  {
    OwnersSnoc(occ, u, key);
    DuplicateIndexFirst(occ, u, key);
  }

  lemma OccurrencesNext(c: Catalog, kind: Kind, unquote: string -> string, i: nat, repos: seq<string>)
    requires i < |c| && repos == Repos(c[i].1, kind, unquote)
    ensures Occurrences(c[..i], kind, unquote) + Tag(repos, c[i].0) == Occurrences(c[..i + 1], kind, unquote)
  {
    var ls := Listings(c[..i + 1], kind, unquote);
    assert ls[..i] == Listings(c[..i], kind, unquote);
  }

  /** The two dictionaries of `getReposDuplicateList`: first owner of each URL, and the index. */
  datatype Ledger = Ledger(seen: map<string, string>, dup: map<string, seq<string>>)

  /** One pass of the inner loop's body, for the listing of `u` by `key`. */
  function Record(l: Ledger, u: string, key: string): (r: Ledger)
    ensures u in r.seen && (u in l.seen ==> r.seen == l.seen)
    ensures u !in l.seen ==> r == Ledger(l.seen[u := key], l.dup)
  {
    if u !in l.seen then Ledger(l.seen[u := key], l.dup)
    else if u in l.dup then Ledger(l.seen, l.dup[u := l.dup[u] + [key]])
    else Ledger(l.seen, l.dup[u := [l.seen[u], key]])
  }

  /** The dictionaries after the listings `occ`, one `Record` per listing. */
  function Replay(occ: seq<Occurrence>): (ledger: Ledger)
    decreases |occ|
  {
    if |occ| == 0 then Ledger(map[], map[])
    else Record(Replay(occ[..|occ| - 1]), occ[|occ| - 1].0, occ[|occ| - 1].1)
  }

  lemma ReplaySnoc(occ: seq<Occurrence>, u: string, key: string)
    ensures Replay(occ + [(u, key)]) == Record(Replay(occ), u, key)
  {
    assert (occ + [(u, key)])[..|occ|] == occ;
  }

  /** Replaying the listings yields exactly the reference index, and the first owners. */
  lemma {:induction false} ReplayTracks(occ: seq<Occurrence>)
    ensures Tracks(occ, Replay(occ).seen, Replay(occ).dup)
    decreases |occ|
  {
    if |occ| == 0 {
      assert forall u :: Owners(occ, u) == [];
      assert DuplicateIndex(occ) == map[];
    } else {
      var prev := occ[..|occ| - 1];
      var (u, key) := occ[|occ| - 1];
      assert occ == prev + [(u, key)];
      ReplayTracks(prev);
      var l := Replay(prev);
      if u !in l.seen {
        TracksFirst(prev, l.seen, l.dup, u, key, occ, l.seen[u := key]);
      } else if u in l.dup {
        TracksRepeat(prev, l.seen, l.dup, u, key, occ, l.dup[u := l.dup[u] + [key]]);
      } else {
        TracksFirstRepeat(prev, l.seen, l.dup, u, key, occ, l.dup[u := [l.seen[u], key]]);
      }
    }
  }

  lemma ReplayNext(done: seq<Occurrence>, repos: seq<string>, j: nat, project: string)
    requires j < |repos|
    ensures Replay(done + Tag(repos[..j + 1], project)) ==
      Record(Replay(done + Tag(repos[..j], project)), repos[j], project)
  {
    var occ := done + Tag(repos[..j], project);
    assert done + Tag(repos[..j + 1], project) == occ + [(repos[j], project)];
    ReplaySnoc(occ, repos[j], project);
  }

  lemma ReplayIndex(occ: seq<Occurrence>)
    ensures Replay(occ).dup == DuplicateIndex(occ)
  {
    ReplayTracks(occ);
  }

  /**
   * The inner loop of `getReposDuplicateList`: record the listings of one
   * project in `repos_seen` and `repos_dup`.
   */
  method RecordListings(reposSeen: map<string, string>, reposDup: map<string, seq<string>>,
                        repos: seq<string>, project: string, ghost done: seq<Occurrence>)
    returns (seen': map<string, string>, dup': map<string, seq<string>>)
    requires Ledger(reposSeen, reposDup) == Replay(done)
    ensures Ledger(seen', dup') == Replay(done + Tag(repos, project))
  {
    seen', dup' := reposSeen, reposDup;
    var j := 0;
    assert done + Tag(repos[..0], project) == done;
    while j < |repos|
      invariant 0 <= j <= |repos|
      invariant seen' == Replay(done + Tag(repos[..j], project)).seen
      invariant dup' == Replay(done + Tag(repos[..j], project)).dup
    {
      var repo := repos[j];
      ReplayNext(done, repos, j, project);
      ghost var before := Ledger(seen', dup');
      ghost var after := Record(before, repo, project);
      if repo in seen' {
        if repo !in dup' {
          dup' := dup'[repo := []];
          dup' := dup'[repo := dup'[repo] + [seen'[repo]]];
          assert dup'[repo] == [seen'[repo]];
          assert dup' == before.dup[repo := [seen'[repo]]];
        }
        assert dup'[repo] + [project] ==
          if repo in before.dup then before.dup[repo] + [project] else [before.seen[repo], project];
        dup' := dup'[repo := dup'[repo] + [project]];
        assert dup' == after.dup;
      } else {
        seen' := seen'[repo := project];
        assert seen' == after.seen;
      }
      j := j + 1;
    }
    assert repos[..j] == repos;
  }

  /** `getReposDuplicateList`. */
  method GetReposDuplicateList(projects: Catalog, kind: Kind, unquote: string -> string)
    returns (reposDup: map<string, seq<string>>)
    ensures reposDup == DuplicateIndex(Occurrences(projects, kind, unquote))
  {
    reposDup := map[];
    var reposSeen: map<string, string> := map[];
    var i := 0;
    while i < |projects|
      invariant 0 <= i <= |projects|
      invariant Ledger(reposSeen, reposDup) == Replay(Occurrences(projects[..i], kind, unquote))
    {
      var project := projects[i].0;
      var data := projects[i].1;
      var repos := ListRepos(data, kind, unquote);
      ghost var done := Occurrences(projects[..i], kind, unquote);
      OccurrencesNext(projects, kind, unquote, i, repos);
      reposSeen, reposDup := RecordListings(reposSeen, reposDup, repos, project, done);
      i := i + 1;
    }
    assert projects[..i] == projects;
    ReplayIndex(Occurrences(projects, kind, unquote));
  }

  lemma {:induction false} UrlsAppend(a: seq<Occurrence>, b: seq<Occurrence>)
    ensures Urls(a + b) == Urls(a) + Urls(b)
    decreases |b|
  {
    if |b| == 0 {
      assert a + b == a;
    } else {
      var b' := b[..|b| - 1];
      assert (a + b)[..|a + b| - 1] == a + b';
      UrlsAppend(a, b');
    }
  }

  lemma {:induction false} OwnersAppend(a: seq<Occurrence>, b: seq<Occurrence>, u: string)
    ensures Owners(a + b, u) == Owners(a, u) + Owners(b, u)
    decreases |b|
  {
    if |b| == 0 {
      assert a + b == a;
    } else {
      var b' := b[..|b| - 1];
      assert (a + b)[..|a + b| - 1] == a + b';
      OwnersAppend(a, b', u);
    }
  }

  lemma {:induction false} UrlsTag(r: seq<string>, key: string)
    ensures Urls(Tag(r, key)) == r
    decreases |r|
  {
    if |r| > 0 {
      var r' := r[..|r| - 1];
      assert Tag(r, key)[..|r| - 1] == Tag(r', key);
      UrlsTag(r', key);
    }
  }

  /** Within one project's listings, every owner of `u` is that project, and there is one when it lists `u`. */
  lemma {:induction false} OwnersTag(r: seq<string>, key: string, u: string, k: string)
    ensures k in Owners(Tag(r, key), u) <==> k == key && u in r
    decreases |r|
  {
    if |r| > 0 {
      var r' := r[..|r| - 1];
      assert Tag(r, key)[..|r| - 1] == Tag(r', key);
      assert r == r' + [r[|r| - 1]];
      OwnersTag(r', key, u, k);
    }
  }

  /** The URLs of all listings are exactly the `getReposList` aggregate. */
  lemma {:induction false} UrlsOfOccurrences(c: Catalog, kind: Kind, unquote: string -> string)
    ensures Urls(Occurrences(c, kind, unquote)) == ReposList(c, kind, unquote)
    decreases |c|
  {
    if |c| > 0 {
      var n := |c| - 1;
      var c' := c[..n];
      UrlsOfOccurrences(c', kind, unquote);
      var r := Repos(c[n].1, kind, unquote);
      OccurrencesNext(c, kind, unquote, n, r);
      assert c[..n + 1] == c;
      UrlsAppend(Occurrences(c', kind, unquote), Tag(r, c[n].0));
      UrlsTag(r, c[n].0);
    }
  }

  lemma OwnersFlattenStep(ls: seq<Listing>, u: string, k: string)
    requires |ls| > 0
    ensures var n := |ls| - 1;
      k in Owners(Flatten(ls), u) <==> k in Owners(Flatten(ls[..n]), u) || (k == ls[n].0 && u in ls[n].1)
  {
    var n := |ls| - 1;
    OwnersAppend(Flatten(ls[..n]), Tag(ls[n].1, ls[n].0), u);
    OwnersTag(ls[n].1, ls[n].0, u, k);
  }

  /** `k` is an owner of `u` exactly when some listing with key `k` holds `u`. */
  lemma {:induction false} OwnersOfFlatten(ls: seq<Listing>, u: string, k: string)
    ensures k in Owners(Flatten(ls), u) <==> exists i :: 0 <= i < |ls| && u in ls[i].1 && ls[i].0 == k
    decreases |ls|
  {
    if |ls| > 0 {
      var n := |ls| - 1;
      var ls' := ls[..n];
      OwnersOfFlatten(ls', u, k);
      OwnersFlattenStep(ls, u, k);
      if exists i :: 0 <= i < |ls| && u in ls[i].1 && ls[i].0 == k {
        var i :| 0 <= i < |ls| && u in ls[i].1 && ls[i].0 == k;
        if i < n {
          assert u in ls'[i].1 && ls'[i].0 == k;
        }
      }
    }
  }

  /** Someone owns `u` exactly when some listing holds it; the first owner is the first such listing. */
  lemma {:induction false} FirstOwnerOfFlatten(ls: seq<Listing>, u: string)
    ensures Owners(Flatten(ls), u) != [] <==> exists i :: 0 <= i < |ls| && u in ls[i].1
    ensures Owners(Flatten(ls), u) != [] ==> exists i :: (0 <= i < |ls| && u in ls[i].1 &&
      Owners(Flatten(ls), u)[0] == ls[i].0 && (forall j :: 0 <= j < i ==> u !in ls[j].1))
    decreases |ls|
  {
    if |ls| > 0 {
      var n := |ls| - 1;
      var ls' := ls[..n];
      FirstOwnerOfFlatten(ls', u);
      var o', t := Owners(Flatten(ls'), u), Owners(Tag(ls[n].1, ls[n].0), u);
      OwnersAppend(Flatten(ls'), Tag(ls[n].1, ls[n].0), u);
      var o := Owners(Flatten(ls), u);
      assert o == o' + t;
      if o' != [] {
        var i :| 0 <= i < n && u in ls'[i].1 && o'[0] == ls'[i].0 && (forall j :: 0 <= j < i ==> u !in ls'[j].1);
        assert u in ls[i].1 && o[0] == ls[i].0;
        assert forall j :: 0 <= j < i ==> u !in ls[j].1 by {
          forall j | 0 <= j < i ensures u !in ls[j].1 {
            assert u !in ls'[j].1;
          }
        }
      } else {
        assert forall j :: 0 <= j < n ==> u !in ls[j].1 by {
          forall j | 0 <= j < n ensures u !in ls[j].1 {
            assert u !in ls'[j].1;
          }
        }
        OwnersTag(ls[n].1, ls[n].0, u, ls[n].0);
        if t != [] {
          OwnersTag(ls[n].1, ls[n].0, u, t[0]);
          assert o[0] == ls[n].0 && u in ls[n].1;
        }
      }
    }
  }

  lemma {:induction false} CountMember<T>(s: seq<T>, x: T)
    ensures Count(s, x) > 0 <==> x in s
    decreases |s|
  {
    if |s| > 0 {
      CountMember(s[..|s| - 1], x);
      assert s == s[..|s| - 1] + [s[|s| - 1]];
    }
  }

  /** Project `i` of the catalog lists `u`. */
  ghost predicate Lists(c: Catalog, kind: Kind, unquote: string -> string, i: int, u: string)
  {
    0 <= i < |c| && u in Repos(c[i].1, kind, unquote)
  }

  /**
   * What `getReposDuplicateList` returns, in terms of the catalog: a URL is a
   * key exactly when the `getReposList` aggregate holds it twice or more; its
   * value has one entry per occurrence; every entry is the key of a project
   * that lists the URL; the first entry is the first such project.
   */
  lemma DuplicateIndexMeaning(c: Catalog, kind: Kind, unquote: string -> string)
    ensures var d, all := DuplicateIndex(Occurrences(c, kind, unquote)), ReposList(c, kind, unquote);
      && (forall u :: u in d <==> Count(all, u) >= 2)
      && (forall u :: u in d ==> |d[u]| == Count(all, u))
      && (forall u :: u in d ==> u in UniqueRepos(c, kind, unquote))
      && (forall u, k :: u in d && k in d[u] ==> exists i :: Lists(c, kind, unquote, i, u) && c[i].0 == k)
      && (forall u :: u in d ==> exists i :: (Lists(c, kind, unquote, i, u) && d[u][0] == c[i].0 &&
            (forall j :: 0 <= j < i ==> !Lists(c, kind, unquote, j, u))))
  {
    var occ := Occurrences(c, kind, unquote);
    var all := ReposList(c, kind, unquote);
    var ls := Listings(c, kind, unquote);
    UrlsOfOccurrences(c, kind, unquote);
    forall u ensures |Owners(occ, u)| == Count(all, u) && (Owners(occ, u) != [] <==> u in all) {
      OwnersCount(occ, u);
    }
    forall u, k | k in Owners(occ, u)
      ensures exists i :: Lists(c, kind, unquote, i, u) && c[i].0 == k
    {
      OwnersOfFlatten(ls, u, k);
      var i :| 0 <= i < |ls| && u in ls[i].1 && ls[i].0 == k;
      assert Lists(c, kind, unquote, i, u);
    }
    forall u | Owners(occ, u) != []
      ensures exists i :: (Lists(c, kind, unquote, i, u) && Owners(occ, u)[0] == c[i].0 &&
            (forall j :: 0 <= j < i ==> !Lists(c, kind, unquote, j, u)))
    {
      FirstOwnerOfFlatten(ls, u);
      var i :| 0 <= i < |ls| && u in ls[i].1 && Owners(occ, u)[0] == ls[i].0 &&
        (forall j :: 0 <= j < i ==> u !in ls[j].1);
      assert Lists(c, kind, unquote, i, u);
      forall j | 0 <= j < i ensures !Lists(c, kind, unquote, j, u) {
        assert u !in ls[j].1;
      }
    }
  }

  /** A project whose two Bugzilla queries decode to the same URL is a duplicate of itself. */
  lemma SameProjectTwice(a: string, p: Project, q1: string, q2: string, unquote: string -> string)
    requires p.bugzilla == [BugzillaQuery(q1), BugzillaQuery(q2)] && unquote(q1) == unquote(q2)
    ensures DuplicateIndex(Occurrences([(a, p)], Its, unquote)) == map[unquote(q1) := [a, a]]
  {
    var u := unquote(q1);
    var c := [(a, p)];
    assert p.bugzilla[..1][..0] == [];
    assert ItsRepos(p.bugzilla[..1], unquote) == [u];
    assert Repos(p, Its, unquote) == [u, u];
    var ls := Listings(c, Its, unquote);
    assert ls == [(a, [u, u])];
    assert ls[..0] == [];
    var occ := Occurrences(c, Its, unquote);
    assert Tag([u, u], a) == [(u, a), (u, a)];
    assert occ == Flatten(ls[..0]) + Tag(ls[0].1, ls[0].0);
    assert occ == [(u, a), (u, a)];
    ReplaySnoc([], u, a);
    ReplaySnoc([(u, a)], u, a);
    assert [(u, a)] + [(u, a)] == occ;
    ReplayIndex(occ);
  }

  /** The listings of three projects with one mailing list each. */
  lemma ThreeListsOccurrences(a: string, b: string, k: string, pa: Project, pb: Project, pc: Project,
                              u: string, v: string, unquote: string -> string)
    requires pa.devList == MailingList(Some(u)) && pb.devList == MailingList(Some(v))
    requires pc.devList == MailingList(Some(u))
    ensures Occurrences([(a, pa), (b, pb), (k, pc)], Mls, unquote) == [(u, a), (v, b), (u, k)]
  {
    var c := [(a, pa), (b, pb), (k, pc)];
    var ls := Listings(c, Mls, unquote);
    assert ls == [(a, [u]), (b, [v]), (k, [u])];
    assert ls[..2][..1] == [(a, [u])] && ls[..2] == [(a, [u]), (b, [v])];
    assert [(a, [u])][..0] == [];
    assert Tag([u], a) == [(u, a)] && Tag([v], b) == [(v, b)] && Tag([u], k) == [(u, k)];
    assert Flatten(ls[..2][..1]) == Flatten([]) + Tag([u], a);
    assert Flatten(ls[..2]) == Flatten(ls[..2][..1]) + Tag([v], b);
    assert Flatten(ls) == Flatten(ls[..2]) + Tag([u], k);
  }

  /** Replaying a repeat separated by another url. */
  lemma ReplayRepeat(u: string, v: string, a: string, b: string, k: string)
    requires u != v
    ensures Replay([(u, a), (v, b), (u, k)]).dup == map[u := [a, k]]
  {
    ReplaySnoc([], u, a);
    assert [] + [(u, a)] == [(u, a)];
    ReplaySnoc([(u, a)], v, b);
    assert [(u, a)] + [(v, b)] == [(u, a), (v, b)];
    ReplaySnoc([(u, a), (v, b)], u, k);
    assert [(u, a), (v, b)] + [(u, k)] == [(u, a), (v, b), (u, k)];
    var l1 := Replay([(u, a)]);
    assert l1 == Ledger(map[u := a], map[]);
    var l2 := Replay([(u, a), (v, b)]);
    assert l2 == Ledger(map[u := a, v := b], map[]);
  }

  /** Three projects, the first and the last on the same mailing list. */
  lemma SharedMailingList(a: string, b: string, k: string, pa: Project, pb: Project, pc: Project,
                          u: string, v: string, unquote: string -> string)
    requires u != v
    requires pa.devList == MailingList(Some(u)) && pb.devList == MailingList(Some(v))
    requires pc.devList == MailingList(Some(u))
    ensures DuplicateIndex(Occurrences([(a, pa), (b, pb), (k, pc)], Mls, unquote)) == map[u := [a, k]]
  {
    ThreeListsOccurrences(a, b, k, pa, pb, pc, u, v, unquote);
    ReplayRepeat(u, v, a, b, k);
    ReplayIndex([(u, a), (v, b), (u, k)]);
  }
}
