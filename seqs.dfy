/** Generic facts about sequences: order-preserving filters, duplicate removal, subsequences. */
module Seqs {

  /** No element occurs twice. */
  predicate NoDups<T(==)>(s: seq<T>)
  {
    forall i, j :: 0 <= i < j < |s| ==> s[i] != s[j]
  }

  /** `a` can be obtained from `b` by deleting elements, keeping the order of the rest. */
  predicate IsSubsequence<T(==)>(a: seq<T>, b: seq<T>)
    decreases |b|
  {
    if a == [] then true
    else if b == [] then false
    else (a[0] == b[0] && IsSubsequence(a[1..], b[1..])) || IsSubsequence(a, b[1..])
  }

  /** Every earlier element stands in relation `R` to every later one. */
  predicate Pairwise<T>(s: seq<T>, R: (T, T) -> bool)
  {
    forall i, j :: 0 <= i < j < |s| ==> R(s[i], s[j])
  }

  /** The elements of `s` that satisfy `p`, in their original order: a boolean row mask. */
  function Filter<T(==,!new)>(s: seq<T>, p: T -> bool): (r: seq<T>)
    ensures |r| <= |s|
    ensures forall x :: x in r <==> x in s && p(x)
  {
    if s == [] then [] else (if p(s[0]) then [s[0]] else []) + Filter(s[1..], p)
  }

  /** A filter keeps every copy of a value it accepts and no copy of one it rejects. */
  lemma {:induction false} FilterCopies<T(!new)>(s: seq<T>, p: T -> bool)
    ensures forall x :: multiset(Filter(s, p))[x] == if p(x) then multiset(s)[x] else 0
  {
    if s != [] {
      FilterCopies(s[1..], p);
      assert s == [s[0]] + s[1..];
      assert multiset(s) == multiset([s[0]]) + multiset(s[1..]);
      assert Filter(s, p) == (if p(s[0]) then [s[0]] else []) + Filter(s[1..], p);
    }
  }

  /** The distinct elements of `s`, each at the place of its first occurrence. */
  function Dedupe<T(==,!new)>(s: seq<T>): (r: seq<T>)
    ensures NoDups(r)
    ensures forall x :: x in r <==> x in s
    ensures |r| <= |s|
  {
    if s == [] then []
    else
      var d := Dedupe(s[..|s| - 1]);
      assert forall x :: x in s <==> x in s[..|s| - 1] || x == s[|s| - 1];
      if s[|s| - 1] in d then d else d + [s[|s| - 1]]
  }

  lemma {:induction false} FilterIsSubsequence<T(!new)>(s: seq<T>, p: T -> bool)
    ensures IsSubsequence(Filter(s, p), s)
  {
    if s != [] {
      FilterIsSubsequence(s[1..], p);
      var f := Filter(s, p);
      if p(s[0]) {
        assert f[0] == s[0] && f[1..] == Filter(s[1..], p);
      } else {
        assert f == Filter(s[1..], p);
      }
    }
  }

  lemma {:induction false} FilterIdempotent<T(!new)>(s: seq<T>, p: T -> bool)
    ensures Filter(Filter(s, p), p) == Filter(s, p)
  {
    if s != [] {
      FilterIdempotent(s[1..], p);
      var f := Filter(s, p);
      if p(s[0]) {
        assert f[0] == s[0] && f[1..] == Filter(s[1..], p);
        assert Filter(f, p) == [s[0]] + Filter(f[1..], p);
      } else {
        assert f == Filter(s[1..], p);
      }
    }
  }

  lemma {:induction false} FilterKeepsAll<T(!new)>(s: seq<T>, p: T -> bool)
    requires forall i :: 0 <= i < |s| ==> p(s[i])
    ensures Filter(s, p) == s
  {
    if s != [] {
      FilterKeepsAll(s[1..], p);
      assert [s[0]] + s[1..] == s;
    }
  }

  lemma {:induction false} FilterConcat<T(!new)>(a: seq<T>, b: seq<T>, p: T -> bool)
    ensures Filter(a + b, p) == Filter(a, p) + Filter(b, p)
  {
    if a == [] {
      assert a + b == b;
    } else {
      assert (a + b)[0] == a[0] && (a + b)[1..] == a[1..] + b;
      FilterConcat(a[1..], b, p);
    }
  }

  lemma {:induction false} PairwiseCons<T>(x: T, t: seq<T>, R: (T, T) -> bool)
    requires Pairwise(t, R)
    requires forall k :: 0 <= k < |t| ==> R(x, t[k])
    ensures Pairwise([x] + t, R)
  {
    var s := [x] + t;
    forall i, j | 0 <= i < j < |s| ensures R(s[i], s[j]) {
      assert s[j] == t[j - 1];
      if i > 0 {
        assert s[i] == t[i - 1];
      }
    }
  }

  lemma {:induction false} PairwiseTail<T>(s: seq<T>, R: (T, T) -> bool)
    requires s != [] && Pairwise(s, R)
    ensures Pairwise(s[1..], R)
    ensures forall k :: 0 <= k < |s[1..]| ==> R(s[0], s[1..][k])
  {
    forall i, j | 0 <= i < j < |s[1..]| ensures R(s[1..][i], s[1..][j]) {
      assert s[1..][i] == s[i + 1] && s[1..][j] == s[j + 1];
    }
    forall k | 0 <= k < |s[1..]| ensures R(s[0], s[1..][k]) {
      assert s[1..][k] == s[k + 1];
    }
  }

  lemma {:induction false} FilterPairwise<T(!new)>(s: seq<T>, p: T -> bool, R: (T, T) -> bool)
    requires Pairwise(s, R)
    ensures Pairwise(Filter(s, p), R)
  {
    if s != [] {
      var t := s[1..];
      PairwiseTail(s, R);
      FilterPairwise(t, p, R);
      if p(s[0]) {
        var f := Filter(t, p);
        forall k | 0 <= k < |f| ensures R(s[0], f[k]) {
          assert f[k] in t;
          var m :| 0 <= m < |t| && t[m] == f[k];
        }
        PairwiseCons(s[0], f, R);
      }
    }
  }

  /** Splitting by a predicate loses and invents no rows. */
  lemma {:induction false} FilterPartition<T(!new)>(s: seq<T>, p: T -> bool, q: T -> bool)
    requires forall x :: q(x) == !p(x)
    ensures |Filter(s, p)| + |Filter(s, q)| == |s|
  {
    if s != [] {
      FilterPartition(s[1..], p, q);
    }
  }

  /** Filtering by `p` first changes nothing when `q` already implies `p`. */
  lemma {:induction false} FilterNarrow<T(!new)>(s: seq<T>, p: T -> bool, q: T -> bool)
    requires forall x :: q(x) ==> p(x)
    ensures Filter(Filter(s, p), q) == Filter(s, q)
  {
    if s != [] {
      FilterNarrow(s[1..], p, q);
      var f := Filter(s, p);
      if p(s[0]) {
        assert f[0] == s[0] && f[1..] == Filter(s[1..], p);
        assert Filter(f, q) == (if q(s[0]) then [s[0]] else []) + Filter(f[1..], q);
      } else {
        assert f == Filter(s[1..], p);
      }
    }
  }

  /** A filter keeps something exactly when some position satisfies the predicate. */
  lemma {:induction false} FilterNonEmpty<T(!new)>(s: seq<T>, p: T -> bool)
    ensures |Filter(s, p)| >= 1 <==> exists i :: 0 <= i < |s| && p(s[i])
  {
    if |Filter(s, p)| >= 1 {
      assert Filter(s, p)[0] in Filter(s, p);
    }
    if i :| 0 <= i < |s| && p(s[i]) {
      assert s[i] in Filter(s, p);
    }
  }

  lemma {:induction false} FilterTwoFrom<T(!new)>(s: seq<T>, p: T -> bool, i: nat, j: nat)
    requires i < j < |s| && p(s[i]) && p(s[j])
    ensures |Filter(s, p)| >= 2
  {
    var t := s[1..];
    assert Filter(s, p) == (if p(s[0]) then [s[0]] else []) + Filter(t, p);
    if i == 0 {
      FilterNonEmpty(t, p);
      assert p(t[j - 1]);
    } else {
      FilterTwoFrom(t, p, i - 1, j - 1);
    }
  }

  lemma {:induction false} FilterTwoTo<T(!new)>(s: seq<T>, p: T -> bool)
    requires |Filter(s, p)| >= 2
    ensures exists i, j :: 0 <= i < j < |s| && p(s[i]) && p(s[j])
  {
    var t := s[1..];
    assert Filter(s, p) == (if p(s[0]) then [s[0]] else []) + Filter(t, p);
    if p(s[0]) {
      FilterNonEmpty(t, p);
      var j :| 0 <= j < |t| && p(t[j]);
      assert p(s[0]) && p(s[j + 1]);
    } else {
      FilterTwoTo(t, p);
      var i, j :| 0 <= i < j < |t| && p(t[i]) && p(t[j]);
      assert p(s[i + 1]) && p(s[j + 1]);
    }
  }

  /** A filter keeps at least two elements exactly when two positions satisfy the predicate. */
  lemma {:induction false} FilterAtLeastTwo<T(!new)>(s: seq<T>, p: T -> bool)
    ensures |Filter(s, p)| >= 2 <==> exists i, j :: 0 <= i < j < |s| && p(s[i]) && p(s[j])
  {
    if |Filter(s, p)| >= 2 {
      FilterTwoTo(s, p);
    }
    if i, j :| 0 <= i < j < |s| && p(s[i]) && p(s[j]) {
      FilterTwoFrom(s, p, i, j);
    }
  }

  /** The first kept element is the first element that satisfies the predicate. */
  lemma {:induction false} FilterFirst<T(!new)>(s: seq<T>, p: T -> bool, j: nat)
    requires j < |s| && p(s[j])
    requires forall k :: 0 <= k < j ==> !p(s[k])
    ensures |Filter(s, p)| >= 1 && Filter(s, p)[0] == s[j]
  {
    if j > 0 {
      assert !p(s[0]);
      FilterFirst(s[1..], p, j - 1);
    }
  }

  /**
   * When `s[i]` and `s[j]` are the first two elements that satisfy the predicate, the
   * second kept element is `s[j]`: positional selection on a filtered table.
   */
  lemma {:induction false} FilterSecond<T(!new)>(s: seq<T>, p: T -> bool, i: nat, j: nat)
    requires i < j < |s| && p(s[i]) && p(s[j])
    requires forall k :: 0 <= k < j && k != i ==> !p(s[k])
    ensures |Filter(s, p)| >= 2 && Filter(s, p)[1] == s[j]
  {
    if i == 0 {
      FilterFirst(s[1..], p, j - 1);
    } else {
      assert !p(s[0]);
      FilterSecond(s[1..], p, i - 1, j - 1);
    }
  }

  /** A slice that lies in the first part of a concatenation is a slice of that part. */
  lemma {:induction false} SliceOfPrefix<T>(a: seq<T>, b: seq<T>, lo: nat, hi: nat)
    requires lo <= hi <= |a|
    ensures (a + b)[lo..hi] == a[lo..hi]
  {
    assert forall k :: lo <= k < hi ==> (a + b)[k] == a[k];
  }

  /** The second part of a concatenation is the slice after the first. */
  lemma {:induction false} SliceOfSuffix<T>(a: seq<T>, b: seq<T>)
    ensures (a + b)[|a|..|a| + |b|] == b
  {
  }

  /** Whatever a slice holds, the whole sequence holds. */
  lemma {:induction false} SliceMember<T>(v: seq<T>, lo: nat, hi: nat, w: seq<T>, n: nat)
    requires lo <= hi <= |v| && v[lo..hi] == w && n < |w|
    ensures w[n] in v
  {
    assert w[n] == v[lo + n];
  }

  lemma {:induction false} PrefixOfPrefix<T>(s: seq<T>, n: nat, m: nat)
    requires m <= n <= |s|
    ensures s[..n][..m] == s[..m]
  {
  }

  lemma {:induction false} NoDupsConcat<T>(a: seq<T>, b: seq<T>)
    requires NoDups(a) && NoDups(b)
    requires forall x :: x in a ==> x !in b
    ensures NoDups(a + b)
  {
    forall i, j | 0 <= i < j < |a + b| ensures (a + b)[i] != (a + b)[j] {
      if i < |a| && j >= |a| {
        assert (a + b)[i] in a && (a + b)[j] == b[j - |a|];
      }
    }
  }
}
