/** Generic sequence operations the model shares: `List.RemoveAll` (as its
    complement `Keep`), order-preserving subsequences, removal at an index
    and duplicate-free union in insertion order. */
module Sequences {

  /** The elements of `s` that satisfy `p`, in order. `list.RemoveAll(q)` is
      `Keep(list, x => !q(x))`. */
  function Keep<T(!new)>(s: seq<T>, p: T -> bool): (r: seq<T>)
    ensures |r| <= |s|
    ensures forall x :: x in r <==> x in s && p(x)
    decreases |s|
  {
    if |s| == 0 then []
    else if p(s[0]) then [s[0]] + Keep(s[1..], p)
    else Keep(s[1..], p)
  }

  /** `a` is obtained from `b` by deleting elements, without reordering. */
  predicate IsSubsequence<T(==)>(a: seq<T>, b: seq<T>)
    decreases |b|
  {
    if |a| == 0 then true
    else if |b| == 0 then false
    else (a[0] == b[0] && IsSubsequence(a[1..], b[1..])) || IsSubsequence(a, b[1..])
  }

  lemma {:induction false} SubsequenceReflexive<T>(a: seq<T>)
    ensures IsSubsequence(a, a)
    decreases |a|
  {
    if |a| > 0 {
      SubsequenceReflexive(a[1..]);
    }
  }

  lemma {:induction false} SubsequenceTransitive<T>(a: seq<T>, b: seq<T>, c: seq<T>)
    requires IsSubsequence(a, b) && IsSubsequence(b, c)
    ensures IsSubsequence(a, c)
    decreases |c|
  {
    if |a| > 0 {
      if IsSubsequence(b, c[1..]) {
        SubsequenceTransitive(a, b, c[1..]);
      } else if a[0] == b[0] && IsSubsequence(a[1..], b[1..]) {
        SubsequenceTransitive(a[1..], b[1..], c[1..]);
      } else {
        SubsequenceTransitive(a, b[1..], c[1..]);
      }
    }
  }

  lemma {:induction false} KeepIsSubsequence<T(!new)>(s: seq<T>, p: T -> bool)
    ensures IsSubsequence(Keep(s, p), s)
    decreases |s|
  {
    if |s| > 0 {
      KeepIsSubsequence(s[1..], p);
      if p(s[0]) {
        assert ([s[0]] + Keep(s[1..], p))[1..] == Keep(s[1..], p);
      }
    }
  }

  lemma {:induction false} SubsequenceOfSuffix<T>(a: seq<T>, b: seq<T>, k: nat)
    requires k <= |b| && IsSubsequence(a, b[k..])
    ensures IsSubsequence(a, b)
    decreases k
  {
    if k > 0 {
      assert b[k - 1..][1..] == b[k..];
      SubsequenceOfSuffix(a, b, k - 1);
    }
  }

  lemma {:induction false} SubsequenceAppend<T>(a: seq<T>, b: seq<T>, c: seq<T>, d: seq<T>)
    requires IsSubsequence(a, c) && IsSubsequence(b, d)
    ensures IsSubsequence(a + b, c + d)
    decreases |c|
  {
    if |a| == 0 {
      assert a + b == b;
      SubsequenceOfSuffix(b, c + d, |c|) by {
        assert (c + d)[|c|..] == d;
      }
    } else if |c| > 0 {
      assert (c + d)[1..] == c[1..] + d;
      if a[0] == c[0] && IsSubsequence(a[1..], c[1..]) {
        SubsequenceAppend(a[1..], b, c[1..], d);
        assert (a + b)[1..] == a[1..] + b;
      } else {
        SubsequenceAppend(a, b, c[1..], d);
      }
    }
  }

  /** `list.RemoveAt(j)`. */
  function RemoveAt<T>(s: seq<T>, j: nat): (r: seq<T>)
    requires j < |s|
    ensures |r| == |s| - 1
    ensures multiset(r) + multiset{s[j]} == multiset(s)
  {
    assert s == s[..j] + [s[j]] + s[j + 1..];
    s[..j] + s[j + 1..]
  }

  lemma RemoveAtIsSubsequence<T>(s: seq<T>, j: nat)
    requires j < |s|
    ensures IsSubsequence(RemoveAt(s, j), s)
  {
    SubsequenceReflexive(s[..j]);
    SubsequenceReflexive(s[j + 1..]);
    SubsequenceOfSuffix(s[j + 1..], s[j..], 1);
    SubsequenceAppend(s[..j], s[j + 1..], s[..j], s[j..]);
    assert s[..j] + s[j..] == s;
  }

  /** Two filters in a row keep exactly what satisfies both. */
  lemma {:induction false} KeepKeep<T(!new)>(s: seq<T>, p: T -> bool, q: T -> bool, both: T -> bool)
    requires forall x :: both(x) == (p(x) && q(x))
    ensures Keep(Keep(s, p), q) == Keep(s, both)
    decreases |s|
  {
    if |s| > 0 {
      KeepKeep(s[1..], p, q, both);
      if p(s[0]) {
        assert ([s[0]] + Keep(s[1..], p))[1..] == Keep(s[1..], p);
      }
    }
  }

  /** Filters with the same verdicts give the same result. */
  lemma {:induction false} KeepSame<T(!new)>(s: seq<T>, p: T -> bool, q: T -> bool)
    requires forall x :: x in s ==> p(x) == q(x)
    ensures Keep(s, p) == Keep(s, q)
    decreases |s|
  {
    if |s| > 0 {
      KeepSame(s[1..], p, q);
    }
  }

  lemma {:induction false} KeepAll<T(!new)>(s: seq<T>, p: T -> bool)
    requires forall x :: x in s ==> p(x)
    ensures Keep(s, p) == s
    decreases |s|
  {
    if |s| > 0 {
      KeepAll(s[1..], p);
    }
  }

  lemma {:induction false} KeepAppend<T(!new)>(a: seq<T>, b: seq<T>, p: T -> bool)
    ensures Keep(a + b, p) == Keep(a, p) + Keep(b, p)
    decreases |a|
  {
    if |a| == 0 {
      assert a + b == b;
    } else {
      assert (a + b)[1..] == a[1..] + b;
      KeepAppend(a[1..], b, p);
    }
  }

  lemma {:induction false} KeepNone<T(!new)>(s: seq<T>, p: T -> bool)
    requires forall x :: x in s ==> !p(x)
    ensures Keep(s, p) == []
    decreases |s|
  {
    if |s| > 0 {
      KeepNone(s[1..], p);
    }
  }

  /** Apply `list.RemoveAll(stage)` for every stage, in order. */
  function RemoveEach<T(!new)>(s: seq<T>, stages: seq<T -> bool>): seq<T>
    decreases |stages|
  {
    if |stages| == 0 then s
    else RemoveEach(Keep(s, x => !stages[0](x)), stages[1..])
  }

  /** `x` is removed by none of the stages. */
  predicate SurvivesAll<T(!new)>(x: T, stages: seq<T -> bool>) {
    forall i :: 0 <= i < |stages| ==> !stages[i](x)
  }

  lemma SurvivesSingle<T(!new)>(x: T, f: T -> bool)
    ensures SurvivesAll(x, [f]) == !f(x)
    ensures SurvivesAll(x, [])
  {
    assert [f][0] == f;
  }

  lemma SurvivesAllAppend<T(!new)>(x: T, a: seq<T -> bool>, b: seq<T -> bool>)
    ensures SurvivesAll(x, a + b) == (SurvivesAll(x, a) && SurvivesAll(x, b))
  {
    if SurvivesAll(x, a) && SurvivesAll(x, b) {
      forall i | 0 <= i < |a + b|
        ensures !(a + b)[i](x)
      {
        if i >= |a| {
          assert (a + b)[i] == b[i - |a|];
        }
      }
    }
    if SurvivesAll(x, a + b) {
      forall i | 0 <= i < |a|
        ensures !a[i](x)
      {
        assert (a + b)[i] == a[i];
      }
      forall i | 0 <= i < |b|
        ensures !b[i](x)
      {
        assert (a + b)[|a| + i] == b[i];
      }
    }
  }

  /** A chain of `RemoveAll` calls keeps exactly the elements no stage
      removes, in their original order. */
  lemma {:induction false} RemoveEachIsKeep<T(!new)>(s: seq<T>, stages: seq<T -> bool>)
    ensures RemoveEach(s, stages) == Keep(s, x => SurvivesAll(x, stages))
    decreases |stages|
  {
    if |stages| == 0 {
      KeepAll(s, x => SurvivesAll(x, stages));
    } else {
      var first := Keep(s, x => !stages[0](x));
      RemoveEachIsKeep(first, stages[1..]);
      forall x
        ensures SurvivesAll(x, stages) == (!stages[0](x) && SurvivesAll(x, stages[1..]))
      {
        if !stages[0](x) && SurvivesAll(x, stages[1..]) {
          forall i | 0 <= i < |stages|
            ensures !stages[i](x)
          {
            if i > 0 {
              assert stages[i] == stages[1..][i - 1];
            }
          }
        }
        if SurvivesAll(x, stages) {
          forall i | 0 <= i < |stages[1..]|
            ensures !stages[1..][i](x)
          {
            assert stages[1..][i] == stages[i + 1];
          }
        }
      }
      KeepKeep(s, x => !stages[0](x), x => SurvivesAll(x, stages[1..]), x => SurvivesAll(x, stages));
    }
  }

  /** `HashSet.UnionWith` on a duplicate-free sequence kept in insertion order. */
  function Union<T(==,!new)>(a: seq<T>, b: seq<T>): (r: seq<T>)
    ensures forall x :: x in r <==> x in a || x in b
    ensures |r| >= |a| && r[..|a|] == a
    ensures NoDuplicates(a) ==> NoDuplicates(r)
    decreases |b|
  {
    if |b| == 0 then a
    else if b[0] in a then Union(a, b[1..])
    else
      var r := Union(a + [b[0]], b[1..]);
      assert r[..|a|] == r[..|a| + 1][..|a|];
      r
  }

  predicate NoDuplicates<T(==)>(s: seq<T>) {
    forall i, j :: 0 <= i < j < |s| ==> s[i] != s[j]
  }

  function Reverse<T>(s: seq<T>): (r: seq<T>)
    ensures |r| == |s|
    ensures forall i :: 0 <= i < |s| ==> r[i] == s[|s| - 1 - i]
    decreases |s|
  {
    if |s| == 0 then [] else Reverse(s[1..]) + [s[0]]
  }

  /** Number of elements satisfying `p`. */
  function CountWhere<T(!new)>(s: seq<T>, p: T -> bool): nat {
    |Keep(s, p)|
  }

  /** Adding elements that are new and distinct to a set in insertion order
      appends them. */
  lemma {:induction false} UnionDisjoint<T(!new)>(a: seq<T>, b: seq<T>)
    requires NoDuplicates(b)
    requires forall x :: x in b ==> x !in a
    ensures Union(a, b) == a + b
    decreases |b|
  {
    if |b| > 0 {
      assert b == [b[0]] + b[1..];
      assert a + [b[0]] + b[1..] == a + b;
      assert b[0] !in a;
      assert forall x :: x in b[1..] ==> x != b[0] by {
        forall x | x in b[1..] ensures x != b[0] {
          var k :| 0 <= k < |b[1..]| && b[1..][k] == x;
          assert b[k + 1] == x;
        }
      }
      assert NoDuplicates(b[1..]) by {
        forall i, j | 0 <= i < j < |b[1..]| ensures b[1..][i] != b[1..][j] {
          assert b[1..][i] == b[i + 1] && b[1..][j] == b[j + 1];
        }
      }
      assert forall x :: x in b[1..] ==> x !in a + [b[0]];
      UnionDisjoint(a + [b[0]], b[1..]);
      assert Union(a, b) == Union(a + [b[0]], b[1..]);
    }
  }

  lemma ReverseAppend<T>(a: seq<T>, b: seq<T>)
    ensures Reverse(a + b) == Reverse(b) + Reverse(a)
  {
  }

  lemma ReverseReverse<T>(s: seq<T>)
    ensures Reverse(Reverse(s)) == s
  {
  }

  /** Reversal keeps the elements and their distinctness. */
  lemma ReverseElements<T>(s: seq<T>)
    ensures forall x :: x in Reverse(s) <==> x in s
    ensures NoDuplicates(s) ==> NoDuplicates(Reverse(s))
  {
    var r := Reverse(s);
    forall x | x in s ensures x in r {
      var k :| 0 <= k < |s| && s[k] == x;
      assert r[|s| - 1 - k] == x;
    }
  }

  /** A duplicate-free concatenation has duplicate-free, disjoint parts. */
  lemma NoDuplicatesAppend<T>(a: seq<T>, b: seq<T>)
    requires NoDuplicates(a + b)
    ensures NoDuplicates(a) && NoDuplicates(b)
    ensures forall x :: x in a ==> x !in b
  {
    forall i, j | 0 <= i < |a| && 0 <= j < |b| ensures a[i] != b[j] {
      assert (a + b)[i] == a[i] && (a + b)[|a| + j] == b[j];
    }
    forall i, j | 0 <= i < j < |a| ensures a[i] != a[j] {
      assert (a + b)[i] == a[i] && (a + b)[j] == a[j];
    }
    forall i, j | 0 <= i < j < |b| ensures b[i] != b[j] {
      assert (a + b)[|a| + i] == b[i] && (a + b)[|a| + j] == b[j];
    }
  }
}
