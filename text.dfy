/**
 * The few string operations of Python 2 that the catalog normaliser relies on:
 * `p in s`, `s.split(sep)`, `sep.join(parts)` and `s.replace(pat, rep)`, over
 * `string` = `seq<char>`, with `Find`, the index of a first occurrence, as a
 * helper for stating their specifications.  Every pattern the
 * program passes is a non-empty literal, so the operations that Python
 * defines differently for the empty pattern require a non-empty one.
 */
module Text {

  /** `p` occurs in `s` starting at index `i`. */
  predicate OccursAt(s: string, p: string, i: nat)
  {
    i + |p| <= |s| && s[i..i + |p|] == p
  }

  /** Python's `p in s`. */
  predicate Contains(s: string, p: string)
    decreases |s|
  {
    |p| <= |s| && (s[..|p|] == p || Contains(s[1..], p))
  }

  /** Index of the first occurrence of `p` in `s`, or `|s|` when there is none. */
  function Find(s: string, p: string): (r: nat)
    ensures r <= |s|
    decreases |s|
  {
    if |s| < |p| then |s|
    else if s[..|p|] == p then 0
    else 1 + Find(s[1..], p)
  }

  /** Python's `s.split(sep)`: the pieces between the leftmost non-overlapping occurrences. */
  function Split(s: string, sep: string): (r: seq<string>)
    requires |sep| > 0
    ensures |r| >= 1
    ensures |r| >= 2 <==> Contains(s, sep)
    decreases |s|
  {
    if |s| < |sep| then [s]
    else if s[..|sep|] == sep then [""] + Split(s[|sep|..], sep)
    else
      var t := Split(s[1..], sep);
      [[s[0]] + t[0]] + t[1..]
  }

  /** Python's `sep.join(parts)`. */
  function Join(parts: seq<string>, sep: string): (joined: string)
    decreases |parts|
  {
    if |parts| == 0 then ""
    else if |parts| == 1 then parts[0]
    else parts[0] + sep + Join(parts[1..], sep)
  }

  /** Python's `s.replace(pat, rep)`: every leftmost non-overlapping occurrence is replaced. */
  function ReplaceAll(s: string, pat: string, rep: string): (replaced: string)
    requires |pat| > 0
    decreases |s|
  {
    if |s| < |pat| then s
    else if s[..|pat|] == pat then rep + ReplaceAll(s[|pat|..], pat, rep)
    else [s[0]] + ReplaceAll(s[1..], pat, rep)
  }

  /** `Find` returns the first occurrence, and only reports "absent" when there is none. */
  lemma FindSpec(s: string, p: string)
    requires |p| > 0
    ensures Contains(s, p) <==> Find(s, p) < |s|
    ensures Contains(s, p) ==> OccursAt(s, p, Find(s, p))
    ensures forall i :: 0 <= i < Find(s, p) ==> !OccursAt(s, p, i)
  {
    FindFound(s, p);
    FindFirst(s, p);
  }

  lemma {:induction false} FindFound(s: string, p: string)
    requires |p| > 0
    ensures Contains(s, p) <==> Find(s, p) < |s|
    ensures Contains(s, p) ==> OccursAt(s, p, Find(s, p))
    decreases |s|
  {
    if |s| >= |p| && s[..|p|] != p {
      FindFound(s[1..], p);
      var f := Find(s[1..], p);
      assert Find(s, p) == 1 + f;
      if Contains(s, p) {
        assert s[1..][f..f + |p|] == s[1 + f..1 + f + |p|];
      }
    }
  }

  lemma {:induction false} FindFirst(s: string, p: string)
    requires |p| > 0
    ensures forall i :: 0 <= i < Find(s, p) ==> !OccursAt(s, p, i)
    decreases |s|
  {
    if |s| >= |p| && s[..|p|] != p {
      FindFirst(s[1..], p);
      assert Find(s, p) == 1 + Find(s[1..], p);
      forall i | 0 < i < Find(s, p) ensures !OccursAt(s, p, i) {
        OccursShift(s, p, i);
      }
    }
  }

  /** An occurrence past the first character is one in the tail. */
  lemma OccursShift(s: string, p: string, i: nat)
    requires 0 < i && |s| > 0
    ensures OccursAt(s, p, i) <==> OccursAt(s[1..], p, i - 1)
  {
    if i + |p| <= |s| {
      assert s[1..][i - 1..i - 1 + |p|] == s[i..i + |p|];
    }
  }

  /** An occurrence anywhere makes `Contains` true. */
  lemma {:induction false} OccursContains(s: string, p: string, i: nat)
    requires OccursAt(s, p, i)
    ensures Contains(s, p)
    decreases i
  {
    if i > 0 {
      assert s[1..][i - 1..i - 1 + |p|] == s[i..i + |p|];
      OccursContains(s[1..], p, i - 1);
    }
  }

  /**
   * The first piece of `s.split(sep)` is the text before the first occurrence
   * of `sep`, and the other pieces are the split of what follows it.
   */
  lemma {:induction false} SplitAtFirst(s: string, sep: string)
    requires |sep| > 0
    ensures Split(s, sep)[0] == s[..Find(s, sep)]
    ensures Contains(s, sep) ==>
      Find(s, sep) + |sep| <= |s| &&
      Split(s, sep)[1..] == Split(s[Find(s, sep) + |sep|..], sep)
    ensures !Contains(s, sep) ==> Split(s, sep) == [s]
  {
    FindSpec(s, sep);
    SplitHead(s, sep);
    if Contains(s, sep) {
      SplitTail(s, sep);
    } else {
      assert s[..|s|] == s;
    }
  }

  lemma {:induction false} SplitHead(s: string, sep: string)
    requires |sep| > 0
    ensures Split(s, sep)[0] == s[..Find(s, sep)]
    decreases |s|
  {
    if |s| >= |sep| && s[..|sep|] != sep {
      var f := Find(s[1..], sep);
      SplitHead(s[1..], sep);
      assert [s[0]] + s[1..][..f] == s[..1 + f];
    } else if |s| < |sep| {
      assert s[..|s|] == s;
    }
  }

  lemma {:induction false} SplitTail(s: string, sep: string)
    requires |sep| > 0 && Contains(s, sep)
    ensures Find(s, sep) + |sep| <= |s|
    ensures Split(s, sep)[1..] == Split(s[Find(s, sep) + |sep|..], sep)
    decreases |s|
  {
    if s[..|sep|] != sep {
      var t := Split(s[1..], sep);
      var f := Find(s[1..], sep);
      assert Contains(s[1..], sep);
      SplitTail(s[1..], sep);
      assert Find(s, sep) == 1 + f;
      calc {
        Split(s, sep)[1..];
      == { assert Split(s, sep) == [[s[0]] + t[0]] + t[1..]; }
        t[1..];
      ==
        Split(s[1..][f + |sep|..], sep);
      == { assert s[1..][f + |sep|..] == s[Find(s, sep) + |sep|..]; }
        Split(s[Find(s, sep) + |sep|..], sep);
      }
    } else {
      assert Find(s, sep) == 0;
      assert Split(s, sep) == [""] + Split(s[|sep|..], sep);
    }
  }

  /** The text of `s` after the first `sep`, up to the next `sep` or the end. */
  function Between(s: string, sep: string): (between: string)
    requires |sep| > 0 && Contains(s, sep)
  {
    FindSpec(s, sep);
    var rest := s[Find(s, sep) + |sep|..];
    rest[..Find(rest, sep)]
  }

  /** The second piece of `s.split(sep)` is the text between the first and the second `sep`. */
  lemma SecondPiece(s: string, sep: string)
    requires |sep| > 0
    requires Contains(s, sep)
    ensures Find(s, sep) + |sep| <= |s|
    ensures Split(s, sep)[1] == Between(s, sep)
  {
    SplitAtFirst(s, sep);
    var rest := s[Find(s, sep) + |sep|..];
    var parts := Split(s, sep);
    assert parts[1..] == Split(rest, sep);
    SplitAtFirst(rest, sep);
    assert parts[1] == parts[1..][0];
  }

  lemma JoinConsHead(c: char, t: seq<string>, sep: string)
    requires |t| >= 1
    ensures Join([[c] + t[0]] + t[1..], sep) == [c] + Join(t, sep)
  {
    var u := [[c] + t[0]] + t[1..];
    if |t| > 1 {
      assert u[1..] == t[1..];
    }
  }

  /** `s.replace(pat, rep) == rep.join(s.split(pat))`. */
  lemma {:induction false} ReplaceAllIsJoinOfSplit(s: string, pat: string, rep: string)
    requires |pat| > 0
    ensures ReplaceAll(s, pat, rep) == Join(Split(s, pat), rep)
    decreases |s|
  {
    if |s| < |pat| {
    } else if s[..|pat|] == pat {
      ReplaceAllIsJoinOfSplit(s[|pat|..], pat, rep);
      var t := Split(s[|pat|..], pat);
      assert ([""] + t)[1..] == t;
    } else {
      ReplaceAllIsJoinOfSplit(s[1..], pat, rep);
      JoinConsHead(s[0], Split(s[1..], pat), rep);
    }
  }

  /**
   * `ReplaceAll` replaces the first occurrence and continues after it; a
   * string without the pattern is left unchanged.
   */
  lemma ReplaceAllAtFirst(s: string, pat: string, rep: string)
    requires |pat| > 0
    ensures !Contains(s, pat) ==> ReplaceAll(s, pat, rep) == s
    ensures Contains(s, pat) ==>
      Find(s, pat) + |pat| <= |s| &&
      ReplaceAll(s, pat, rep) ==
        s[..Find(s, pat)] + rep + ReplaceAll(s[Find(s, pat) + |pat|..], pat, rep)
  {
    SplitAtFirst(s, pat);
    ReplaceAllIsJoinOfSplit(s, pat, rep);
    if Contains(s, pat) {
      var rest := s[Find(s, pat) + |pat|..];
      ReplaceAllIsJoinOfSplit(rest, pat, rep);
      var parts := Split(s, pat);
      assert parts == [parts[0]] + parts[1..];
    }
  }

  /** A string containing `a + p + b` contains `p`. */
  lemma ContainsInfix(s: string, a: string, p: string, b: string)
    requires |a + p + b| > 0
    requires Contains(s, a + p + b)
    ensures Contains(s, p)
  {
    var q := a + p + b;
    FindSpec(s, q);
    var f := Find(s, q);
    var w := s[f..f + |q|];
    assert w == q;
    forall t | 0 <= t < |p| ensures s[f + |a| + t] == p[t] {
      assert s[f + |a| + t] == w[|a| + t];
      assert q[|a| + t] == p[t];
    }
    assert s[f + |a|..f + |a| + |p|] == p;
    OccursContains(s, p, f + |a|);
  }

  /** A string in which the first character of `p` never appears does not contain `p`. */
  lemma {:induction false} AbsentLead(s: string, p: string)
    requires |p| > 0 && p[0] !in s
    ensures !Contains(s, p)
    decreases |s|
  {
    if |s| >= |p| {
      assert s[..|p|][0] != p[0];
      AbsentLead(s[1..], p);
    }
  }

  /** `Find` passes over a prefix in which the first character of `p` never appears. */
  lemma {:induction false} FindSkip(a: string, b: string, p: string)
    requires |p| > 0 && p[0] !in a
    ensures Find(a + b, p) == |a| + Find(b, p)
    decreases |a|
  {
    if |a| > 0 {
      var s := a + b;
      if |s| >= |p| {
        assert s[..|p|][0] != p[0];
        assert s[1..] == a[1..] + b;
        FindSkip(a[1..], b, p);
      } else {
        assert |b| < |p|;
      }
    } else {
      assert a + b == b;
    }
  }

  /** A string with a single occurrence of `pat` has just that one replaced. */
  lemma ReplaceSingle(pre: string, pat: string, tail: string, rep: string)
    requires |pat| > 0
    requires Find(pre + pat + tail, pat) == |pre|
    requires !Contains(tail, pat)
    ensures ReplaceAll(pre + pat + tail, pat, rep) == pre + rep + tail
  {
    var s := pre + pat + tail;
    assert OccursAt(s, pat, |pre|) by {
      assert s[|pre|..|pre| + |pat|] == pat;
    }
    OccursContains(s, pat, |pre|);
    ReplaceAllAtFirst(s, pat, rep);
    assert s[..|pre|] == pre;
    assert s[|pre| + |pat|..] == tail;
    ReplaceAllAtFirst(tail, pat, rep);
  }

  /**
   * A pattern whose first character does not recur in it is first found right
   * after a text that does not contain it.
   */
  lemma {:induction false} FindAfter(a: string, p: string)
    requires |p| > 0 && !Contains(a, p)
    requires forall d :: 0 < d < |p| ==> p[d] != p[0]
    ensures Find(a + p, p) == |a|
    decreases |a|
  {
    var s := a + p;
    if |a| == 0 {
      assert s == p;
    } else {
      assert s[..|p|] != p by {
        if |a| >= |p| {
          assert a[..|p|] == s[..|p|];
        } else {
          assert s[..|p|][|a|] == p[0];
        }
      }
      assert s[1..] == a[1..] + p;
      FindAfter(a[1..], p);
    }
  }

  /** Splitting on a one-character separator absent from the first field peels that field off. */
  lemma {:induction false} SplitPeel(a: string, sep: string, b: string)
    requires |sep| == 1 && sep[0] !in a
    ensures Split(a + sep + b, sep) == [a] + Split(b, sep)
    decreases |a|
  {
    var s := a + sep + b;
    if |a| == 0 {
      assert s == sep + b && s[..1] == sep && s[1..] == b;
    } else {
      assert s[..1] == [a[0]] && s[..1] != sep;
      assert s[1..] == a[1..] + sep + b;
      SplitPeel(a[1..], sep, b);
      assert [s[0]] + a[1..] == a;
    }
  }

  /** Splitting a join on a one-character separator that no part holds gives the parts back. */
  lemma {:induction false} SplitOfJoin(parts: seq<string>, sep: string)
    requires |parts| > 0 && |sep| == 1
    requires forall i :: 0 <= i < |parts| ==> sep[0] !in parts[i]
    ensures Split(Join(parts, sep), sep) == parts
    decreases |parts|
  {
    if |parts| == 1 {
      AbsentLead(parts[0], sep);
      SplitAtFirst(parts[0], sep);
    } else {
      SplitOfJoin(parts[1..], sep);
      SplitPeel(parts[0], sep, Join(parts[1..], sep));
      assert [parts[0]] + parts[1..] == parts;
    }
  }
}
