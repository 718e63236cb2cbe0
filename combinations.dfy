/** `itertools.combinations(members, 2)`: every pair of positions i < j, in lexicographic order. */
module Combinations {
  import opened Seqs

  /** The pairs (x, y) for each y of `rest`, in order. */
  function PairsWith<T>(x: T, rest: seq<T>): (r: seq<(T, T)>)
    ensures |r| == |rest|
    ensures forall i :: 0 <= i < |rest| ==> r[i] == (x, rest[i])
  {
    if rest == [] then [] else [(x, rest[0])] + PairsWith(x, rest[1..])
  }

  /** (m[0], m[1]), (m[0], m[2]), ..., (m[1], m[2]), ...: the 2-combinations of `m`. */
  function Pairs<T>(m: seq<T>): seq<(T, T)>
  {
    if |m| == 0 then [] else PairsWith(m[0], m[1..]) + Pairs(m[1..])
  }

  /** k members give k * (k - 1) / 2 pairs; fewer than two give none. */
  lemma {:induction false} PairsCount<T>(m: seq<T>)
    ensures 2 * |Pairs(m)| == |m| * (|m| - 1)
    ensures |Pairs(m)| == |m| * (|m| - 1) / 2
    ensures |m| < 2 ==> Pairs(m) == []
  {
    if |m| > 0 {
      PairsCount(m[1..]);
      var n := |m|;
      assert 2 * |Pairs(m)| == 2 * (n - 1) + (n - 1) * (n - 2);
      assert 2 * (n - 1) + (n - 1) * (n - 2) == n * (n - 1);
    }
  }

  /** A pair is emitted exactly when its first component stands before its second in `m`. */
  lemma {:induction false} PairsMembership<T>(m: seq<T>, a: T, b: T)
    ensures (a, b) in Pairs(m) <==> exists i, j :: 0 <= i < j < |m| && m[i] == a && m[j] == b
  {
    if |m| > 0 {
      PairsMembership(m[1..], a, b);
      var head := PairsWith(m[0], m[1..]);
      assert Pairs(m) == head + Pairs(m[1..]);
      if (a, b) in head {
        var k :| 0 <= k < |head| && head[k] == (a, b);
        assert m[0] == a && m[k + 1] == b;
      }
      if (a, b) in Pairs(m[1..]) {
        var i, j :| 0 <= i < j < |m[1..]| && m[1..][i] == a && m[1..][j] == b;
        assert m[i + 1] == a && m[j + 1] == b;
      }
      if i, j :| 0 <= i < j < |m| && m[i] == a && m[j] == b {
        if i == 0 {
          assert head[j - 1] == (a, b);
        } else {
          assert m[1..][i - 1] == a && m[1..][j - 1] == b;
        }
      }
    }
  }

  /**
   * Over duplicate-free members no pair repeats, no pair joins a member with itself,
   * and no unordered pair appears in both orientations.
   */
  lemma {:induction false} PairsDistinct<T>(m: seq<T>)
    requires NoDups(m)
    ensures NoDups(Pairs(m))
    ensures forall p :: p in Pairs(m) ==> p.0 != p.1 && (p.1, p.0) !in Pairs(m)
  {
    PairsNoDups(m);
    forall p | p in Pairs(m) ensures p.0 != p.1 && (p.1, p.0) !in Pairs(m) {
      PairsMembership(m, p.0, p.1);
      PairsMembership(m, p.1, p.0);
    }
  }

  lemma {:induction false} PairsNoDups<T>(m: seq<T>)
    requires NoDups(m)
    ensures NoDups(Pairs(m))
  {
    if |m| > 0 {
      var head := PairsWith(m[0], m[1..]);
      assert NoDups(m[1..]) by {
        forall i, j | 0 <= i < j < |m[1..]| ensures m[1..][i] != m[1..][j] {
          assert m[1..][i] == m[i + 1] && m[1..][j] == m[j + 1];
        }
      }
      PairsNoDups(m[1..]);
      assert NoDups(head) by {
        forall i, j | 0 <= i < j < |head| ensures head[i] != head[j] {
          assert head[i].1 == m[i + 1] && head[j].1 == m[j + 1];
        }
      }
      forall p | p in head ensures p !in Pairs(m[1..]) {
        var k :| 0 <= k < |head| && head[k] == p;
        PairsMembership(m[1..], p.0, p.1);
      }
      NoDupsConcat(head, Pairs(m[1..]));
    }
  }

  /** Every two distinct members are paired, in one orientation or the other. */
  lemma {:induction false} PairsCover<T>(m: seq<T>, a: T, b: T)
    requires a in m && b in m && a != b
    ensures (a, b) in Pairs(m) || (b, a) in Pairs(m)
  {
    var i :| 0 <= i < |m| && m[i] == a;
    var j :| 0 <= j < |m| && m[j] == b;
    PairsMembership(m, a, b);
    PairsMembership(m, b, a);
  }
}
