/**
 * `get_project_children`: the keys of every project below a given one, found
 * by rescanning the whole catalog for each project reached.  The source keeps
 * no visited set, so the model asks for an acyclic parent relation, witnessed
 * by a rank that every parent link increases.
 */
module ProjectChildren {
  import opened Wrappers
  import opened Catalog
  import opened ProjectsTree

  /** Every parent link goes strictly up in `rank`: the parent relation has no cycle. */
  ghost predicate RankedBy(c: Catalog, rank: map<string, nat>)
  {
    forall i :: 0 <= i < |c| && ParentOf(c[i].1).Some? ==>
      c[i].0 in rank && ParentOf(c[i].1).value in rank && rank[c[i].0] < rank[ParentOf(c[i].1).value]
  }

  function Height(rank: map<string, nat>, k: string): (h: nat)
  {
    if k in rank then rank[k] else 0
  }

  /** Reference for `get_project_children`. */
  function Descendants(c: Catalog, k: string, rank: map<string, nat>): (below: seq<string>)
    requires RankedBy(c, rank)
    decreases Height(rank, k), 1, 0
  {
    Scan(c, k, rank, |c|)
  }

  /** What the loop of `get_project_children(k)` has gathered after the first `n` projects. */
  function Scan(c: Catalog, k: string, rank: map<string, nat>, n: nat): (gathered: seq<string>)
    requires RankedBy(c, rank) && n <= |c|
    decreases Height(rank, k), 0, n
  {
    if n == 0 then []
    else
      Scan(c, k, rank, n - 1) +
      (if ParentOf(c[n - 1].1) == Some(k) then [c[n - 1].0] + Descendants(c, c[n - 1].0, rank) else [])
  }

  /** `get_project_children`. */
  method GetProjectChildren(projectKey: string, projects: Catalog, ghost rank: map<string, nat>)
    returns (children: seq<string>)
    requires RankedBy(projects, rank)
    ensures children == Descendants(projects, projectKey, rank)
    decreases Height(rank, projectKey)
  {
    children := [];
    var i := 0;
    while i < |projects|
      invariant 0 <= i <= |projects|
      invariant children == Scan(projects, projectKey, rank, i)
    {
      var project := projects[i].0;
      var data := projects[i].1;
      if |data.parentProject| != 0 {
        var parent := data.parentProject[0].id;
        if parent == projectKey {
          children := children + [project];
          var sub := GetProjectChildren(project, projects, rank);
          children := children + sub;
        }
      }
      i := i + 1;
    }
  }

  /** Membership in the partial scan: a child among the first `n` projects, or one of its descendants. */
  lemma {:induction false} ScanMember(c: Catalog, k: string, rank: map<string, nat>, n: nat, z: string)
    requires RankedBy(c, rank) && n <= |c|
    ensures z in Scan(c, k, rank, n) <==>
      exists j :: 0 <= j < n && ChildAt(c, j, k) && (z == c[j].0 || z in Descendants(c, c[j].0, rank))
    decreases n
  {
    if n > 0 {
      ScanMember(c, k, rank, n - 1, z);
    }
  }

  lemma DescendantsMember(c: Catalog, k: string, rank: map<string, nat>, z: string)
    requires RankedBy(c, rank)
    ensures z in Descendants(c, k, rank) <==>
      exists j :: ChildAt(c, j, k) && (z == c[j].0 || z in Descendants(c, c[j].0, rank))
  {
    ScanMember(c, k, rank, |c|, z);
  }

  /** A descendant ranks strictly below its ancestor; in particular no project is its own descendant. */
  lemma {:induction false} DescendantsRank(c: Catalog, k: string, rank: map<string, nat>, z: string)
    requires RankedBy(c, rank) && z in Descendants(c, k, rank)
    ensures z in rank && k in rank && rank[z] < rank[k]
    decreases Height(rank, k)
  {
    DescendantsMember(c, k, rank, z);
    var j :| ChildAt(c, j, k) && (z == c[j].0 || z in Descendants(c, c[j].0, rank));
    if z != c[j].0 {
      DescendantsRank(c, c[j].0, rank, z);
    }
  }

  lemma NotOwnDescendant(c: Catalog, k: string, rank: map<string, nat>)
    requires RankedBy(c, rank)
    ensures k !in Descendants(c, k, rank)
  {
    if k in Descendants(c, k, rank) {
      DescendantsRank(c, k, rank, k);
    }
  }

  /** Every descendant is the key of a project whose parent is `k` or another descendant. */
  lemma {:induction false} DescendantsParent(c: Catalog, k: string, rank: map<string, nat>, z: string)
    requires RankedBy(c, rank) && z in Descendants(c, k, rank)
    ensures exists i :: (0 <= i < |c| && c[i].0 == z && ParentOf(c[i].1).Some? &&
      (ParentOf(c[i].1).value == k || ParentOf(c[i].1).value in Descendants(c, k, rank)))
    decreases Height(rank, k)
  {
    DescendantsMember(c, k, rank, z);
    var j :| ChildAt(c, j, k) && (z == c[j].0 || z in Descendants(c, c[j].0, rank));
    if z != c[j].0 {
      var y := c[j].0;
      DescendantsParent(c, y, rank, z);
      var i :| 0 <= i < |c| && c[i].0 == z && ParentOf(c[i].1).Some? &&
        (ParentOf(c[i].1).value == y || ParentOf(c[i].1).value in Descendants(c, y, rank));
      DescendantsMember(c, k, rank, ParentOf(c[i].1).value);
    }
  }

  /** Project `i`'s children, and everything below them, are below `k` whenever project `i` is. */
  lemma {:induction false} DescendantsClosed(c: Catalog, k: string, rank: map<string, nat>, i: int, z: string)
    requires RankedBy(c, rank) && ChildAt(c, i, z)
    requires z == k || z in Descendants(c, k, rank)
    ensures c[i].0 in Descendants(c, k, rank)
    decreases Height(rank, k)
  {
    DescendantsMember(c, k, rank, c[i].0);
    if z != k {
      DescendantsMember(c, k, rank, z);
      var j :| ChildAt(c, j, k) && (z == c[j].0 || z in Descendants(c, c[j].0, rank));
      if z == c[j].0 {
      } else {
        DescendantsClosed(c, c[j].0, rank, i, z);
      }
      DescendantsMember(c, c[j].0, rank, c[i].0);
    }
  }

  /** `s` holds the child of every project it holds. */
  ghost predicate ClosedUnderChildren(c: Catalog, s: set<string>)
  {
    forall i :: 0 <= i < |c| && ParentOf(c[i].1).Some? && ParentOf(c[i].1).value in s ==> c[i].0 in s
  }

  /** The descendants form the least set holding the children of `k` and closed under children. */
  lemma {:induction false} DescendantsLeast(c: Catalog, k: string, rank: map<string, nat>, s: set<string>)
    requires RankedBy(c, rank)
    requires forall i :: ChildAt(c, i, k) ==> c[i].0 in s
    requires ClosedUnderChildren(c, s)
    ensures forall z :: z in Descendants(c, k, rank) ==> z in s
    decreases Height(rank, k)
  {
    forall z | z in Descendants(c, k, rank) ensures z in s {
      DescendantsMember(c, k, rank, z);
      var j :| ChildAt(c, j, k) && (z == c[j].0 || z in Descendants(c, c[j].0, rank));
      if z != c[j].0 {
        var y := c[j].0;
        assert forall i :: ChildAt(c, i, y) ==> c[i].0 in s;
        DescendantsLeast(c, y, rank, s);
      }
    }
  }

  /** Below a descendant of `a` lie only descendants of `a`. */
  lemma DescendantsTransitive(c: Catalog, a: string, b: string, rank: map<string, nat>)
    requires RankedBy(c, rank) && b in Descendants(c, a, rank)
    ensures forall z :: z in Descendants(c, b, rank) ==> z in Descendants(c, a, rank)
  {
    var s := set z | z in Descendants(c, a, rank);
    forall i | ChildAt(c, i, b) ensures c[i].0 in s {
      DescendantsClosed(c, a, rank, i, b);
    }
    forall i | 0 <= i < |c| && ParentOf(c[i].1).Some? && ParentOf(c[i].1).value in s ensures c[i].0 in s {
      DescendantsClosed(c, a, rank, i, ParentOf(c[i].1).value);
    }
    DescendantsLeast(c, b, rank, s);
  }

  /** A project with no children yields the empty list. */
  lemma Leaf(c: Catalog, k: string, rank: map<string, nat>)
    requires RankedBy(c, rank) && DirectChildren(c, k) == []
    ensures Descendants(c, k, rank) == []
  {
    var d := Descendants(c, k, rank);
    if d != [] {
      DescendantsMember(c, k, rank, d[0]);
      var j :| ChildAt(c, j, k) && (d[0] == c[j].0 || d[0] in Descendants(c, c[j].0, rank));
      DirectChildrenMember(c, k, c[j].0);
    }
  }

  /** Each listed project followed by everything below it. */
  function Expand(c: Catalog, xs: seq<string>, rank: map<string, nat>): (expanded: seq<string>)
    requires RankedBy(c, rank)
    decreases |xs|
  {
    if |xs| == 0 then []
    else Expand(c, xs[..|xs| - 1], rank) + [xs[|xs| - 1]] + Descendants(c, xs[|xs| - 1], rank)
  }

  lemma {:induction false} ScanPreOrder(c: Catalog, k: string, rank: map<string, nat>, n: nat)
    requires RankedBy(c, rank) && n <= |c|
    ensures Scan(c, k, rank, n) == Expand(c, DirectChildren(c[..n], k), rank)
    decreases n
  {
    if n > 0 {
      ScanPreOrder(c, k, rank, n - 1);
      assert c[..n][..n - 1] == c[..n - 1];
      var d := DirectChildren(c[..n - 1], k);
      if ParentOf(c[n - 1].1) == Some(k) {
        var d' := d + [c[n - 1].0];
        assert c[..n][n - 1] == c[n - 1];
        assert DirectChildren(c[..n], k) == d';
        assert d'[..|d'| - 1] == d;
      } else {
        assert c[..n][n - 1] == c[n - 1];
        assert DirectChildren(c[..n], k) == d;
      }
    }
  }

  /**
   * Pre-order: the result is each direct child, in catalog order, followed at
   * once by its own descendants.
   */
  lemma DescendantsPreOrder(c: Catalog, k: string, rank: map<string, nat>)
    requires RankedBy(c, rank)
    ensures Descendants(c, k, rank) == Expand(c, DirectChildren(c, k), rank)
  {
    ScanPreOrder(c, k, rank, |c|);
    assert c[..|c|] == c;
  }

  /** Two children of one project are never below one another. */
  lemma SiblingsApart(c: Catalog, k: string, rank: map<string, nat>, i: int, j: int)
    requires RankedBy(c, rank) && DistinctKeys(c) && ChildAt(c, i, k) && ChildAt(c, j, k)
    ensures c[i].0 !in Descendants(c, c[j].0, rank)
  {
    var y := c[j].0;
    if c[i].0 in Descendants(c, y, rank) {
      DescendantsParent(c, y, rank, c[i].0);
      var i' :| 0 <= i' < |c| && c[i'].0 == c[i].0 && ParentOf(c[i'].1).Some? &&
        (ParentOf(c[i'].1).value == y || ParentOf(c[i'].1).value in Descendants(c, y, rank));
      assert i' == i;
      if k != y {
        DescendantsRank(c, y, rank, k);
      }
      assert false;
    }
  }

  /** Two projects neither of which is below the other have nothing below them in common. */
  lemma {:induction false} Disjoint(c: Catalog, x: string, y: string, rank: map<string, nat>, z: string)
    requires RankedBy(c, rank) && DistinctKeys(c)
    requires x != y && x !in Descendants(c, y, rank) && y !in Descendants(c, x, rank)
    ensures !(z in Descendants(c, x, rank) && z in Descendants(c, y, rank))
    decreases Height(rank, x) - Height(rank, z)
  {
    if z in Descendants(c, x, rank) && z in Descendants(c, y, rank) {
      DescendantsRank(c, x, rank, z);
      DescendantsParent(c, x, rank, z);
      var i :| 0 <= i < |c| && c[i].0 == z && ParentOf(c[i].1).Some? &&
        (ParentOf(c[i].1).value == x || ParentOf(c[i].1).value in Descendants(c, x, rank));
      DescendantsParent(c, y, rank, z);
      var i' :| 0 <= i' < |c| && c[i'].0 == z && ParentOf(c[i'].1).Some? &&
        (ParentOf(c[i'].1).value == y || ParentOf(c[i'].1).value in Descendants(c, y, rank));
      assert i' == i;
      var p := ParentOf(c[i].1).value;
      assert p in Descendants(c, x, rank) && p in Descendants(c, y, rank);
      DescendantsRank(c, x, rank, p);
      Disjoint(c, x, y, rank, p);
    }
  }

  lemma NoDupConcat(a: seq<string>, x: string, b: seq<string>)
    requires NoDup(a) && NoDup(b) && x !in a && x !in b
    requires forall z :: z in a ==> z !in b
    ensures NoDup(a + [x] + b)
  {
    var s := a + [x] + b;
    forall i, j | 0 <= i < j < |s| ensures s[i] != s[j] {
      if j < |a| {
      } else if i < |a| {
        assert s[i] in a;
        if j > |a| {
          assert s[j] == b[j - |a| - 1];
        }
      } else if i == |a| {
        assert s[j] == b[j - |a| - 1];
      } else {
        assert s[i] == b[i - |a| - 1] && s[j] == b[j - |a| - 1];
      }
    }
  }

  /** With distinct keys, every descendant is listed once. */
  lemma {:induction false} DescendantsNoDup(c: Catalog, k: string, rank: map<string, nat>)
    requires RankedBy(c, rank) && DistinctKeys(c)
    ensures NoDup(Descendants(c, k, rank))
    decreases Height(rank, k), 1, 0
  {
    ScanNoDup(c, k, rank, |c|);
  }

  lemma {:induction false} ScanNoDup(c: Catalog, k: string, rank: map<string, nat>, n: nat)
    requires RankedBy(c, rank) && DistinctKeys(c) && n <= |c|
    ensures NoDup(Scan(c, k, rank, n))
    decreases Height(rank, k), 0, n
  {
    if n > 0 {
      ScanNoDup(c, k, rank, n - 1);
      if ChildAt(c, n - 1, k) {
        var x := c[n - 1].0;
        var a, b := Scan(c, k, rank, n - 1), Descendants(c, x, rank);
        DescendantsNoDup(c, x, rank);
        NotOwnDescendant(c, x, rank);
        if x in a {
          ScanMember(c, k, rank, n - 1, x);
          var j :| 0 <= j < n - 1 && ChildAt(c, j, k) && (x == c[j].0 || x in Descendants(c, c[j].0, rank));
          SiblingsApart(c, k, rank, n - 1, j);
        }
        forall z | z in a ensures z !in b {
          ScanMember(c, k, rank, n - 1, z);
          var j :| 0 <= j < n - 1 && ChildAt(c, j, k) && (z == c[j].0 || z in Descendants(c, c[j].0, rank));
          SiblingsApart(c, k, rank, j, n - 1);
          if z != c[j].0 {
            SiblingsApart(c, k, rank, n - 1, j);
            Disjoint(c, x, c[j].0, rank, z);
          }
        }
        NoDupConcat(a, x, b);
        assert Scan(c, k, rank, n) == a + [x] + b;
      }
    }
  }

  /**
   * The (ancestor, descendant) pairs that the insertion loop of
   * `create_projects_db_info` writes to `project_children`.
   */
  function ChildLinks(c: Catalog, rank: map<string, nat>): (links: set<(string, string)>)
    requires RankedBy(c, rank)
  {
    set i, z | 0 <= i < |c| && z in Descendants(c, c[i].0, rank) :: (c[i].0, z)
  }

  /** Project `i` has key `k`. */
  ghost predicate KeyAt(c: Catalog, i: int, k: string)
  {
    0 <= i < |c| && c[i].0 == k
  }

  /**
   * The links join two catalog keys (so both `projects_db` lookups succeed),
   * never a project to itself; they hold every parent link and are closed
   * under composition.
   */
  lemma ChildLinksMeaning(c: Catalog, rank: map<string, nat>)
    requires RankedBy(c, rank)
    ensures var links := ChildLinks(c, rank);
      && (forall a, z :: (a, z) in links ==> a != z && (exists i :: KeyAt(c, i, a)) && (exists i :: KeyAt(c, i, z)))
      && (forall i, j :: 0 <= i < |c| && ChildAt(c, j, c[i].0) ==> (c[i].0, c[j].0) in links)
      && (forall a, b, z :: (a, b) in links && (b, z) in links ==> (a, z) in links)
  {
    var links := ChildLinks(c, rank);
    forall a, z | (a, z) in links
      ensures a != z && (exists i :: KeyAt(c, i, a)) && (exists i :: KeyAt(c, i, z))
    {
      var i :| 0 <= i < |c| && z in Descendants(c, c[i].0, rank) && (a, z) == (c[i].0, z);
      assert KeyAt(c, i, a);
      NotOwnDescendant(c, a, rank);
      DescendantsParent(c, a, rank, z);
      var i' :| 0 <= i' < |c| && c[i'].0 == z && ParentOf(c[i'].1).Some? &&
        (ParentOf(c[i'].1).value == a || ParentOf(c[i'].1).value in Descendants(c, a, rank));
      assert KeyAt(c, i', z);
    }
    forall i, j | 0 <= i < |c| && ChildAt(c, j, c[i].0) ensures (c[i].0, c[j].0) in links {
      DescendantsMember(c, c[i].0, rank, c[j].0);
    }
    forall a, b, z | (a, b) in links && (b, z) in links ensures (a, z) in links {
      var i :| 0 <= i < |c| && b in Descendants(c, c[i].0, rank) && (a, b) == (c[i].0, b);
      var i' :| 0 <= i' < |c| && z in Descendants(c, c[i'].0, rank) && (b, z) == (c[i'].0, z);
      DescendantsTransitive(c, a, b, rank);
    }
  }

  /**
   * Three projects listed leaf first: the result follows the tree, not the
   * catalog, and a leaf has nothing below it.
   */
  lemma ChainExample(l: string, m: string, r: string, pl: Project, pm: Project, pr: Project,
                     rank: map<string, nat>)
    requires l != m && m != r && l != r
    requires ParentOf(pl) == Some(m) && ParentOf(pm) == Some(r) && ParentOf(pr).None?
    requires rank == map[l := 0, m := 1, r := 2]
    ensures RankedBy([(l, pl), (m, pm), (r, pr)], rank)
    ensures Descendants([(l, pl), (m, pm), (r, pr)], r, rank) == [m, l]
    ensures Descendants([(l, pl), (m, pm), (r, pr)], m, rank) == [l]
    ensures Descendants([(l, pl), (m, pm), (r, pr)], l, rank) == []
  {
    var c := [(l, pl), (m, pm), (r, pr)];
    assert RankedBy(c, rank);
    assert Scan(c, l, rank, 1) == [];
    assert Scan(c, l, rank, 2) == [];
    assert Scan(c, l, rank, 3) == [];
    assert Scan(c, m, rank, 1) == [l] + Descendants(c, l, rank);
    assert Scan(c, m, rank, 2) == [l];
    assert Scan(c, m, rank, 3) == [l];
    assert Scan(c, r, rank, 1) == [];
    assert Scan(c, r, rank, 2) == [m] + Descendants(c, m, rank);
    assert Scan(c, r, rank, 3) == [m, l];
  }
}
