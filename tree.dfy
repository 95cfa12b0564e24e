/**
 * The tree of `showProjectsTree`: a dictionary from a project key to the keys
 * of its direct children, built in one pass over the catalog.
 */
module ProjectsTree {
  import opened Wrappers
  import opened Catalog

  /** The keys of the projects whose parent is `k`, in catalog order. */
  function DirectChildren(c: Catalog, k: string): (children: seq<string>)
    decreases |c|
  {
    if |c| == 0 then []
    else DirectChildren(c[..|c| - 1], k) + (if ParentOf(c[|c| - 1].1) == Some(k) then [c[|c| - 1].0] else [])
  }

  /** Project `i` names `k` as its parent. */
  ghost predicate ChildAt(c: Catalog, i: int, k: string)
  {
    0 <= i < |c| && ParentOf(c[i].1) == Some(k)
  }

  /** Project `i` is parentless. */
  ghost predicate RootAt(c: Catalog, i: int)
  {
    0 <= i < |c| && ParentOf(c[i].1).None?
  }

  /** The tree key an entry creates: its parent's id, or its own key when it has no parent. */
  function NodeOf(e: (string, Project)): (node: string)
  {
    match ParentOf(e.1)
    case Some(parent) => parent
    case None => e.0
  }

  function TreeKeys(c: Catalog): (keys: set<string>)
  {
    set i | 0 <= i < |c| :: NodeOf(c[i])
  }

  /** Reference for `showProjectsTree`: every key with its direct children. */
  function Tree(c: Catalog): (tree: map<string, seq<string>>)
  {
    map k | k in TreeKeys(c) :: DirectChildren(c, k)
  }

  lemma DirectChildrenSnoc(c: Catalog, e: (string, Project), k: string)
    ensures DirectChildren(c + [e], k) == DirectChildren(c, k) + (if ParentOf(e.1) == Some(k) then [e.0] else [])
  {
    assert (c + [e])[..|c|] == c;
  }

  lemma TreeKeysSnoc(c: Catalog, e: (string, Project))
    ensures TreeKeys(c + [e]) == TreeKeys(c) + {NodeOf(e)}
  {
    var c' := c + [e];
    forall k | k in TreeKeys(c') ensures k in TreeKeys(c) + {NodeOf(e)} {
      var i :| 0 <= i < |c'| && NodeOf(c'[i]) == k;
      if i < |c| {
        assert NodeOf(c[i]) == k;
      }
    }
    forall k | k in TreeKeys(c) ensures k in TreeKeys(c') {
      var i :| 0 <= i < |c| && NodeOf(c[i]) == k;
      assert NodeOf(c'[i]) == k;
    }
    assert NodeOf(c'[|c|]) == NodeOf(e);
  }

  /** A key the tree does not hold has no children. */
  lemma {:induction false} DirectChildrenOutside(c: Catalog, k: string)
    requires k !in TreeKeys(c)
    ensures DirectChildren(c, k) == []
    decreases |c|
  {
    if |c| > 0 {
      var c' := c[..|c| - 1];
      assert c == c' + [c[|c| - 1]];
      TreeKeysSnoc(c', c[|c| - 1]);
      DirectChildrenOutside(c', k);
    }
  }

  lemma TreeOf(c: Catalog)
    ensures Tree(c).Keys == TreeKeys(c)
    ensures forall k :: k in Tree(c) ==> Tree(c)[k] == DirectChildren(c, k)
  {
  }

  /** A dictionary with the tree's keys and lists is the tree. */
  lemma TreeEq(c: Catalog, tree: map<string, seq<string>>)
    requires tree.Keys == TreeKeys(c)
    requires forall k :: k in tree ==> tree[k] == DirectChildren(c, k)
    ensures tree == Tree(c)
  {
  }

  /** The loop body for a parentless project. */
  lemma TreeSnocRoot(c: Catalog, e: (string, Project), tree: map<string, seq<string>>)
    requires ParentOf(e.1).None?
    requires tree == if e.0 in Tree(c) then Tree(c) else Tree(c)[e.0 := []]
    ensures tree == Tree(c + [e])
  {
    var t := Tree(c);
    TreeOf(c);
    TreeKeysSnoc(c, e);
    assert tree.Keys == TreeKeys(c + [e]);
    forall k | k in tree ensures tree[k] == DirectChildren(c + [e], k) {
      DirectChildrenSnoc(c, e, k);
      if k !in t {
        DirectChildrenOutside(c, k);
      }
    }
    TreeEq(c + [e], tree);
  }

  /** The loop body for a project with a parent. */
  lemma TreeSnocChild(c: Catalog, e: (string, Project), tree: map<string, seq<string>>)
    requires ParentOf(e.1).Some?
    requires var p := ParentOf(e.1).value;
      tree == Tree(c)[p := (if p in Tree(c) then Tree(c)[p] else []) + [e.0]]
    ensures tree == Tree(c + [e])
  {
    var p := ParentOf(e.1).value;
    var t := Tree(c);
    TreeOf(c);
    TreeKeysSnoc(c, e);
    assert tree.Keys == t.Keys + {p};
    assert tree.Keys == TreeKeys(c + [e]);
    forall k | k in tree ensures tree[k] == DirectChildren(c + [e], k) {
      DirectChildrenSnoc(c, e, k);
      if k == p {
        if p !in t {
          DirectChildrenOutside(c, p);
        }
        assert tree[k] == (if p in t then t[p] else []) + [e.0];
      } else {
        assert tree[k] == t[k];
      }
    }
    TreeEq(c + [e], tree);
  }

  /** `showProjectsTree`, without the final `pprint`. */
  method BuildProjectsTree(projects: Catalog) returns (tree: map<string, seq<string>>)
    ensures tree == Tree(projects)
  {
    tree := map[];
    var i := 0;
    while i < |projects|
      invariant 0 <= i <= |projects|
      invariant tree == Tree(projects[..i])
    {
      var key := projects[i].0;
      var data := projects[i].1;
      assert projects[..i + 1] == projects[..i] + [projects[i]];
      if |data.parentProject| == 0 {
        if key !in tree {
          tree := tree[key := []];
        }
        TreeSnocRoot(projects[..i], projects[i], tree);
      } else {
        var parent := data.parentProject[0].id;
        if parent !in tree {
          tree := tree[parent := []];
        }
        tree := tree[parent := tree[parent] + [key]];
        TreeSnocChild(projects[..i], projects[i], tree);
      }
      i := i + 1;
    }
    assert projects[..i] == projects;
  }

  /** The direct children of `k` are the keys of the projects naming `k` as their parent. */
  lemma {:induction false} DirectChildrenMember(c: Catalog, k: string, x: string)
    ensures x in DirectChildren(c, k) <==> exists i :: ChildAt(c, i, k) && c[i].0 == x
    decreases |c|
  {
    if |c| > 0 {
      var n := |c| - 1;
      var c' := c[..n];
      DirectChildrenMember(c', k, x);
      if exists i :: ChildAt(c, i, k) && c[i].0 == x {
        var i :| ChildAt(c, i, k) && c[i].0 == x;
        if i < n {
          assert ChildAt(c', i, k) && c'[i].0 == x;
        }
      }
      if exists i :: ChildAt(c', i, k) && c'[i].0 == x {
        var i :| ChildAt(c', i, k) && c'[i].0 == x;
        assert ChildAt(c, i, k) && c[i].0 == x;
      }
    }
  }

  /** With distinct keys, no child is listed twice. */
  lemma {:induction false} DirectChildrenNoDup(c: Catalog, k: string)
    requires DistinctKeys(c)
    ensures NoDup(DirectChildren(c, k))
    decreases |c|
  {
    if |c| > 0 {
      var n := |c| - 1;
      var c' := c[..n];
      assert DistinctKeys(c');
      DirectChildrenNoDup(c', k);
      if ParentOf(c[n].1) == Some(k) {
        DirectChildrenMember(c', k, c[n].0);
        forall i | ChildAt(c', i, k) ensures c'[i].0 != c[n].0 {
          assert c'[i] == c[i];
        }
      }
    }
  }

  /** Children are listed in catalog order. */
  lemma {:induction false} DirectChildrenOrder(c: Catalog, k: string, i: int, j: int)
    requires ChildAt(c, i, k) && ChildAt(c, j, k) && i < j
    ensures exists a, b :: (0 <= a < b < |DirectChildren(c, k)| &&
      DirectChildren(c, k)[a] == c[i].0 && DirectChildren(c, k)[b] == c[j].0)
    decreases |c|
  {
    var n := |c| - 1;
    var c' := c[..n];
    var d, d' := DirectChildren(c, k), DirectChildren(c', k);
    assert d == d' + (if ParentOf(c[n].1) == Some(k) then [c[n].0] else []);
    if j < n {
      assert ChildAt(c', i, k) && ChildAt(c', j, k);
      DirectChildrenOrder(c', k, i, j);
      var a, b :| 0 <= a < b < |d'| && d'[a] == c'[i].0 && d'[b] == c'[j].0;
      assert c'[i] == c[i] && c'[j] == c[j];
      assert d[a] == d'[a] && d[b] == d'[b];
      assert 0 <= a < b < |d| && d[a] == c[i].0 && d[b] == c[j].0;
    } else {
      assert d == d' + [c[n].0];
      assert ChildAt(c', i, k) && c'[i].0 == c[i].0;
      DirectChildrenMember(c', k, c[i].0);
      var a :| 0 <= a < |d'| && d'[a] == c[i].0;
      assert j == n && d[a] == c[i].0 && d[|d| - 1] == c[j].0;
      assert 0 <= a < |d| - 1 < |d|;
    }
  }

  /**
   * The shape of the tree: its keys are the parentless projects and the
   * parents named; each key maps to exactly the projects naming it as parent.
   */
  lemma TreeShape(c: Catalog)
    ensures var t := Tree(c);
      && (forall i :: RootAt(c, i) ==> c[i].0 in t)
      && (forall k :: k in t <==> exists i :: (RootAt(c, i) && c[i].0 == k) || ChildAt(c, i, k))
      && (forall k, x :: k in t ==> (x in t[k] <==> exists i :: ChildAt(c, i, k) && c[i].0 == x))
      && (forall i :: 0 <= i < |c| && ParentOf(c[i].1).Some? ==>
            ParentOf(c[i].1).value in t && c[i].0 in t[ParentOf(c[i].1).value])
  {
    var t := Tree(c);
    forall i | 0 <= i < |c| ensures NodeOf(c[i]) in t { }
    forall k | k in t ensures exists i :: (RootAt(c, i) && c[i].0 == k) || ChildAt(c, i, k) {
      var i :| 0 <= i < |c| && NodeOf(c[i]) == k;
      assert (RootAt(c, i) && c[i].0 == k) || ChildAt(c, i, k);
    }
    forall k, x | k in t ensures x in t[k] <==> exists i :: ChildAt(c, i, k) && c[i].0 == x {
      DirectChildrenMember(c, k, x);
    }
    forall i | 0 <= i < |c| && ParentOf(c[i].1).Some?
      ensures c[i].0 in t[ParentOf(c[i].1).value]
    {
      DirectChildrenMember(c, ParentOf(c[i].1).value, c[i].0);
    }
  }

  /**
   * With distinct keys, every project with a parent appears once, in its
   * parent's list only, and no parentless project appears in any list.
   */
  lemma TreeOnce(c: Catalog)
    requires DistinctKeys(c)
    ensures var t := Tree(c);
      && (forall k :: k in t ==> NoDup(t[k]))
      && (forall i, k :: RootAt(c, i) && k in t ==> c[i].0 !in t[k])
      && (forall i, k :: 0 <= i < |c| && ParentOf(c[i].1).Some? && k in t && k != ParentOf(c[i].1).value ==>
            c[i].0 !in t[k])
  {
    var t := Tree(c);
    forall k | k in t ensures NoDup(t[k]) {
      DirectChildrenNoDup(c, k);
    }
    forall i, k | 0 <= i < |c| && k in t && c[i].0 in t[k] ensures ParentOf(c[i].1) == Some(k) {
      DirectChildrenMember(c, k, c[i].0);
      var j :| ChildAt(c, j, k) && c[j].0 == c[i].0;
      assert i == j;
    }
  }

  /**
   * A root, a project below it and one below that: the root and the middle
   * project get entries, the leaf appears only in its parent's list.
   */
  lemma TreeExample(r: string, m: string, l: string, pr: Project, pm: Project, pl: Project)
    requires r != m && m != l && r != l
    requires ParentOf(pr).None? && ParentOf(pm) == Some(r) && ParentOf(pl) == Some(m)
    ensures Tree([(r, pr), (m, pm), (l, pl)]) == map[r := [m], m := [l]]
  {
    var c0: Catalog := [];
    var c1 := c0 + [(r, pr)];
    var c2 := c1 + [(m, pm)];
    var c := c2 + [(l, pl)];
    assert c == [(r, pr), (m, pm), (l, pl)];
    assert TreeKeys(c0) == {};
    TreeKeysSnoc(c0, (r, pr));
    TreeKeysSnoc(c1, (m, pm));
    TreeKeysSnoc(c2, (l, pl));
    assert TreeKeys(c) == {r, m};
    DirectChildrenSnoc(c0, (r, pr), r);
    DirectChildrenSnoc(c1, (m, pm), r);
    DirectChildrenSnoc(c2, (l, pl), r);
    DirectChildrenSnoc(c0, (r, pr), m);
    DirectChildrenSnoc(c1, (m, pm), m);
    DirectChildrenSnoc(c2, (l, pl), m);
    TreeEq(c, map[r := [m], m := [l]]);
  }
}
