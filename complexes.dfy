/**
 * The complex expander: rows whose first identifier names a complex are grouped by that
 * identifier, each group's distinct partners are paired, and every pair takes the
 * annotations of the group's second row.
 */
module Complexes {
  import opened Wrappers
  import opened Seqs
  import opened Text
  import opened Records
  import opened Combinations

  /** Line 53: the first identifier names a complex (case-sensitive substring test). */
  predicate IsComplex(r: Record)
  {
    Contains(r.uidA, "complex")
  }

  /** Line 72: an ordinary pairwise interaction. */
  predicate IsPairwise(r: Record)
  {
    !IsComplex(r)
  }

  /** `rows[rows['uidA'] == key]`: the rows of one key, in input order. */
  function RowsOf(rows: seq<Record>, key: string): (g: seq<Record>)
    ensures forall r :: r in g <==> r in rows && r.uidA == key
  {
    Filter(rows, HasKey(key))
  }

  /** The mask `rows['uidA'] == key`. */
  function HasKey(key: string): Record -> bool
  {
    (r: Record) => r.uidA == key
  }

  /** A key has a second row exactly when two input rows carry it. */
  lemma {:induction false} RowsOfTwice(rows: seq<Record>, key: string)
    ensures |RowsOf(rows, key)| >= 2 <==>
      exists i, j :: 0 <= i < j < |rows| && rows[i].uidA == key && rows[j].uidA == key
  {
    FilterAtLeastTwo(rows, HasKey(key));
  }

  /**
   * `.iloc[1]` of a key's rows is its second input row: the row `rows[j]` when `rows[i]`
   * and `rows[j]` are the first two rows with that key.
   */
  lemma {:induction false} RowsOfSecond(rows: seq<Record>, key: string, i: nat, j: nat)
    requires i < j < |rows| && rows[i].uidA == key && rows[j].uidA == key
    requires forall k :: 0 <= k < j && k != i ==> rows[k].uidA != key
    ensures |RowsOf(rows, key)| >= 2 && RowsOf(rows, key)[1] == rows[j]
  {
    FilterSecond(rows, HasKey(key), i, j);
  }

  function UidAs(rows: seq<Record>): (ids: seq<string>)
    ensures |ids| == |rows| && forall i :: 0 <= i < |rows| ==> ids[i] == rows[i].uidA
  {
    seq(|rows|, i requires 0 <= i < |rows| => rows[i].uidA)
  }

  function UidBs(rows: seq<Record>): (ids: seq<string>)
    ensures |ids| == |rows| && forall i :: 0 <= i < |rows| ==> ids[i] == rows[i].uidB
  {
    seq(|rows|, i requires 0 <= i < |rows| => rows[i].uidB)
  }

  /** The `groupby('uidA')` keys of a table, each once, in order of first appearance. */
  function Keys(rows: seq<Record>): (ks: seq<string>)
    ensures NoDups(ks)
    ensures forall k :: k in ks <==> exists r :: r in rows && r.uidA == k
  {
    var ids := UidAs(rows);
    assert forall k :: k in ids <==> exists r :: r in rows && r.uidA == k by {
      forall k | k in ids ensures exists r :: r in rows && r.uidA == k {
        var i :| 0 <= i < |ids| && ids[i] == k;
        assert rows[i] in rows;
      }
      forall k | exists r :: r in rows && r.uidA == k ensures k in ids {
        var r :| r in rows && r.uidA == k;
        var i :| 0 <= i < |rows| && rows[i] == r;
        assert ids[i] == k;
      }
    }
    Dedupe(ids)
  }

  /** Lines 54-57: `list(set(...))` of the partners recorded for `key`, each once. */
  function Members(rows: seq<Record>, key: string): (m: seq<string>)
    ensures NoDups(m)
    ensures forall b :: b in m <==> exists r :: r in rows && r.uidA == key && r.uidB == b
  {
    var g := RowsOf(rows, key);
    var ids := UidBs(g);
    assert forall b :: b in ids <==> exists r :: r in g && r.uidB == b by {
      forall b | b in ids ensures exists r :: r in g && r.uidB == b {
        var i :| 0 <= i < |ids| && ids[i] == b;
        assert g[i] in g;
      }
      forall b | exists r :: r in g && r.uidB == b ensures b in ids {
        var r :| r in g && r.uidB == b;
        var i :| 0 <= i < |g| && g[i] == r;
        assert ids[i] == b;
      }
    }
    Dedupe(ids)
  }

  /** Lines 62-65: one row per pair, each carrying the representative's annotations. */
  function WithMeta(pairs: seq<(string, string)>, rep: Record): (block: seq<Record>)
    ensures |block| == |pairs|
    ensures forall i :: 0 <= i < |pairs| ==>
      block[i] == Record(pairs[i].0, pairs[i].1, rep.interactionType, rep.detectionMethod, rep.taxid)
  {
    seq(|pairs|, i requires 0 <= i < |pairs| =>
      Record(pairs[i].0, pairs[i].1, rep.interactionType, rep.detectionMethod, rep.taxid))
  }

  /** One pass of the loop body (lines 61-65): fails where `.iloc[1]` finds no second row. */
  function ExpandKey(rows: seq<Record>, key: string): Result<seq<Record>, Error>
  {
    var group := RowsOf(rows, key);
    if |group| < 2 then Err(ComplexWithoutSecondRow(key))
    else Ok(WithMeta(Pairs(Members(rows, key)), group[1]))
  }

  /** The loop of lines 60-66 over `keys`: the blocks of the keys, concatenated in key order. */
  function ExpandAll(rows: seq<Record>, keys: seq<string>): Result<seq<Record>, Error>
    decreases |keys|
  {
    if keys == [] then Ok([])
    else
      match ExpandAll(rows, keys[..|keys| - 1])
      case Err(e) => Err(e)
      case Ok(acc) =>
        match ExpandKey(rows, keys[|keys| - 1])
        case Err(e) => Err(e)
        case Ok(block) => Ok(acc + block)
  }

  /** The number of 2-combinations of k things. */
  function Choose2(k: nat): nat
  {
    if k == 0 then 0 else k * (k - 1) / 2
  }

  /** The number of pairs the keys' members give: the sum of k * (k - 1) / 2. */
  function TotalPairs(rows: seq<Record>, keys: seq<string>): nat
    decreases |keys|
  {
    if keys == [] then 0
    else TotalPairs(rows, keys[..|keys| - 1]) + Choose2(|Members(rows, keys[|keys| - 1])|)
  }

  /** `x` links `a` and `b`, in either orientation. */
  predicate Joins(x: Record, a: string, b: string)
  {
    (x.uidA == a && x.uidB == b) || (x.uidA == b && x.uidB == a)
  }

  /** `x` carries the interaction type, method and taxon of `rep`. */
  predicate SameAnnotations(x: Record, rep: Record)
  {
    x.interactionType == rep.interactionType && x.detectionMethod == rep.detectionMethod
    && x.taxid == rep.taxid
  }

  lemma {:induction false} BlockMembers(m: seq<string>, rep: Record)
    requires NoDups(m)
    ensures forall x :: x in WithMeta(Pairs(m), rep) ==>
      x.uidA != x.uidB && x.uidA in m && x.uidB in m && SameAnnotations(x, rep)
  {
    var pairs := Pairs(m);
    var block := WithMeta(pairs, rep);
    PairsDistinct(m);
    forall x | x in block ensures x.uidA != x.uidB && x.uidA in m && x.uidB in m && SameAnnotations(x, rep) {
      var i :| 0 <= i < |block| && block[i] == x;
      assert pairs[i] in pairs;
      PairsMembership(m, pairs[i].0, pairs[i].1);
    }
  }

  lemma {:induction false} BlockUnique(m: seq<string>, rep: Record)
    requires NoDups(m)
    ensures var block := WithMeta(Pairs(m), rep);
      forall i, j :: 0 <= i < j < |block| ==> !Joins(block[j], block[i].uidA, block[i].uidB)
  {
    var pairs := Pairs(m);
    var block := WithMeta(pairs, rep);
    PairsDistinct(m);
    forall i, j | 0 <= i < j < |block| ensures !Joins(block[j], block[i].uidA, block[i].uidB) {
      assert pairs[i] in pairs && pairs[j] in pairs;
    }
  }

  lemma {:induction false} BlockCovers(m: seq<string>, rep: Record)
    ensures forall a, b :: a in m && b in m && a != b ==>
      exists x :: x in WithMeta(Pairs(m), rep) && Joins(x, a, b)
  {
    var pairs := Pairs(m);
    var block := WithMeta(pairs, rep);
    forall a, b | a in m && b in m && a != b ensures exists x :: x in block && Joins(x, a, b) {
      PairsCover(m, a, b);
      if (a, b) in pairs {
        var i :| 0 <= i < |pairs| && pairs[i] == (a, b);
        assert block[i] in block && Joins(block[i], a, b);
      } else {
        var i :| 0 <= i < |pairs| && pairs[i] == (b, a);
        assert block[i] in block && Joins(block[i], a, b);
      }
    }
  }

  /**
   * The block built from any duplicate-free member list: k * (k - 1) / 2 rows, each joining
   * two different members and annotated like `rep`, every two members joined exactly once.
   */
  lemma {:induction false} BlockSpec(m: seq<string>, rep: Record)
    requires NoDups(m)
    ensures var block := WithMeta(Pairs(m), rep);
      && |block| == Choose2(|m|)
      && (|m| < 2 ==> block == [])
      && (forall x :: x in block ==> x.uidA != x.uidB && x.uidA in m && x.uidB in m)
      && (forall x :: x in block ==> SameAnnotations(x, rep))
      && (forall i, j :: 0 <= i < j < |block| ==> !Joins(block[j], block[i].uidA, block[i].uidB))
      && (forall a, b :: a in m && b in m && a != b ==> exists x :: x in block && Joins(x, a, b))
  {
    PairsCount(m);
    BlockMembers(m, rep);
    BlockUnique(m, rep);
    BlockCovers(m, rep);
  }

  /**
   * One key's block exists exactly when the key has a second row, and is then the block of
   * the key's distinct partners annotated like that second row.
   */
  lemma {:induction false} ExpandKeySpec(rows: seq<Record>, key: string)
    ensures ExpandKey(rows, key).Ok? <==> |RowsOf(rows, key)| >= 2
    ensures ExpandKey(rows, key).Ok? ==>
      var block := ExpandKey(rows, key).value;
      var m := Members(rows, key);
      var rep := RowsOf(rows, key)[1];
      && |block| == Choose2(|m|)
      && (|m| < 2 ==> block == [])
      && (forall x :: x in block ==> x.uidA != x.uidB && x.uidA in m && x.uidB in m)
      && (forall x :: x in block ==> SameAnnotations(x, rep))
      && (forall i, j :: 0 <= i < j < |block| ==> !Joins(block[j], block[i].uidA, block[i].uidB))
      && (forall a, b :: a in m && b in m && a != b ==> exists x :: x in block && Joins(x, a, b))
  {
    var group := RowsOf(rows, key);
    if |group| >= 2 {
      BlockSpec(Members(rows, key), group[1]);
    }
  }

  /**
   * When `rows[i]` and `rows[j]` are the first two rows of a key, the key's block exists and
   * every pair in it carries the type, method and taxon of `rows[j]`.
   */
  lemma {:induction false} ExpandKeyAnnotations(rows: seq<Record>, key: string, i: nat, j: nat)
    requires i < j < |rows| && rows[i].uidA == key && rows[j].uidA == key
    requires forall k :: 0 <= k < j && k != i ==> rows[k].uidA != key
    ensures ExpandKey(rows, key).Ok?
    ensures forall x :: x in ExpandKey(rows, key).value ==> SameAnnotations(x, rows[j])
  {
    RowsOfSecond(rows, key, i, j);
    BlockMembers(Members(rows, key), rows[j]);
  }

  /**
   * The whole loop succeeds exactly when every key has a second row; otherwise it stops
   * at the first key, in iteration order, that has none.
   */
  lemma {:induction false} ExpandAllOk(rows: seq<Record>, keys: seq<string>)
    ensures ExpandAll(rows, keys).Ok? <==> forall k :: k in keys ==> |RowsOf(rows, k)| >= 2
    ensures ExpandAll(rows, keys).Err? ==> exists i :: (0 <= i < |keys|
      && ExpandAll(rows, keys).error == ComplexWithoutSecondRow(keys[i])
      && |RowsOf(rows, keys[i])| < 2
      && forall j :: 0 <= j < i ==> |RowsOf(rows, keys[j])| >= 2)
  {
    ExpandAllSucceedsIff(rows, keys);
    ExpandAllFirstError(rows, keys);
  }

  lemma {:induction false} ExpandAllSucceedsIff(rows: seq<Record>, keys: seq<string>)
    ensures ExpandAll(rows, keys).Ok? <==> forall k :: k in keys ==> |RowsOf(rows, k)| >= 2
    decreases |keys|
  {
    if keys != [] {
      var init := keys[..|keys| - 1];
      ExpandAllSucceedsIff(rows, init);
      assert keys == init + [keys[|keys| - 1]];
      assert forall k :: k in keys <==> k in init || k == keys[|keys| - 1];
    }
  }

  lemma {:induction false} ExpandAllFirstError(rows: seq<Record>, keys: seq<string>)
    ensures ExpandAll(rows, keys).Err? ==> exists i :: (0 <= i < |keys|
      && ExpandAll(rows, keys).error == ComplexWithoutSecondRow(keys[i])
      && |RowsOf(rows, keys[i])| < 2
      && forall j :: 0 <= j < i ==> |RowsOf(rows, keys[j])| >= 2)
    decreases |keys|
  {
    if keys != [] {
      var init := keys[..|keys| - 1];
      var last := |keys| - 1;
      ExpandAllFirstError(rows, init);
      ExpandAllSucceedsIff(rows, init);
      assert forall j :: 0 <= j < last ==> keys[j] == init[j];
      if ExpandAll(rows, init).Err? {
        var i :| 0 <= i < |init| && ExpandAll(rows, init).error == ComplexWithoutSecondRow(init[i])
          && |RowsOf(rows, init[i])| < 2 && forall j :: 0 <= j < i ==> |RowsOf(rows, init[j])| >= 2;
        assert keys[i] == init[i];
      } else {
        assert forall j :: 0 <= j < last ==> keys[j] in init;
      }
    }
  }

  /**
   * A successful loop emits exactly the pairs the keys' members give, and every emitted row
   * belongs to the block of one of the keys.
   */
  lemma {:induction false} ExpandAllBlocks(rows: seq<Record>, keys: seq<string>)
    requires ExpandAll(rows, keys).Ok?
    ensures |ExpandAll(rows, keys).value| == TotalPairs(rows, keys)
    ensures forall x :: x in ExpandAll(rows, keys).value ==>
      exists k :: k in keys && ExpandKey(rows, k).Ok? && x in ExpandKey(rows, k).value
    decreases |keys|
  {
    if keys != [] {
      var init := keys[..|keys| - 1];
      var last := keys[|keys| - 1];
      ExpandAllBlocks(rows, init);
      ExpandKeySpec(rows, last);
      var acc := ExpandAll(rows, init).value;
      var block := ExpandKey(rows, last).value;
      assert ExpandAll(rows, keys).value == acc + block;
      forall x | x in acc + block
        ensures exists k :: k in keys && ExpandKey(rows, k).Ok? && x in ExpandKey(rows, k).value
      {
        if x in acc {
          var k :| k in init && ExpandKey(rows, k).Ok? && x in ExpandKey(rows, k).value;
          assert k in keys;
        } else {
          assert last in keys;
        }
      }
    }
  }

  /**
   * A successful loop places the block of the `i`-th key right after the pairs of the keys
   * before it: the output is the keys' blocks, concatenated in key order.
   */
  lemma {:induction false} ExpandAllPlaces(rows: seq<Record>, keys: seq<string>, i: nat)
    requires ExpandAll(rows, keys).Ok? && i < |keys|
    ensures ExpandKey(rows, keys[i]).Ok?
    ensures TotalPairs(rows, keys[..i]) <= TotalPairs(rows, keys[..i + 1]) <= |ExpandAll(rows, keys).value|
    ensures ExpandAll(rows, keys).value[TotalPairs(rows, keys[..i])..TotalPairs(rows, keys[..i + 1])]
      == ExpandKey(rows, keys[i]).value
    decreases |keys|
  {
    if i == |keys| - 1 {
      ExpandAllPlacesLast(rows, keys);
    } else {
      var init := keys[..|keys| - 1];
      ExpandAllSnoc(rows, keys);
      ExpandAllPlaces(rows, init, i);
      PrefixOfPrefix(keys, |keys| - 1, i);
      PrefixOfPrefix(keys, |keys| - 1, i + 1);
      SliceOfPrefix(ExpandAll(rows, init).value, ExpandKey(rows, keys[|keys| - 1]).value,
        TotalPairs(rows, keys[..i]), TotalPairs(rows, keys[..i + 1]));
    }
  }

  /** The last key's block is the tail of the output, after the pairs of the other keys. */
  lemma {:induction false} ExpandAllPlacesLast(rows: seq<Record>, keys: seq<string>)
    requires ExpandAll(rows, keys).Ok? && keys != []
    ensures var i := |keys| - 1;
      && ExpandKey(rows, keys[i]).Ok?
      && TotalPairs(rows, keys[..i]) <= TotalPairs(rows, keys[..i + 1]) == |ExpandAll(rows, keys).value|
      && ExpandAll(rows, keys).value[TotalPairs(rows, keys[..i])..TotalPairs(rows, keys[..i + 1])]
        == ExpandKey(rows, keys[i]).value
  {
    var i := |keys| - 1;
    ExpandAllSnoc(rows, keys);
    ExpandAllCount(rows, keys[..i]);
    ExpandKeyCount(rows, keys[i]);
    assert keys[..i + 1] == keys;
    SliceOfSuffix(ExpandAll(rows, keys[..i]).value, ExpandKey(rows, keys[i]).value);
  }

  /** Every row a successful loop emits is annotated like one of the rows it was given. */
  lemma {:induction false} ExpandedFrom(rows: seq<Record>, keys: seq<string>, x: Record)
    requires ExpandAll(rows, keys).Ok? && x in ExpandAll(rows, keys).value
    ensures exists r :: r in rows && SameAnnotations(x, r)
  {
    ExpandAllBlocks(rows, keys);
    var k :| k in keys && ExpandKey(rows, k).Ok? && x in ExpandKey(rows, k).value;
    ExpandKeySpec(rows, k);
    var g := RowsOf(rows, k);
    assert g[1] in g;
  }

  /** Every row of every key's block appears in the output of a successful loop. */
  lemma {:induction false} ExpandAllCovers(rows: seq<Record>, keys: seq<string>)
    requires ExpandAll(rows, keys).Ok?
    ensures forall k, x :: k in keys && ExpandKey(rows, k).Ok? && x in ExpandKey(rows, k).value ==>
      x in ExpandAll(rows, keys).value
  {
    forall k, x | k in keys && ExpandKey(rows, k).Ok? && x in ExpandKey(rows, k).value
      ensures x in ExpandAll(rows, keys).value
    {
      var i :| 0 <= i < |keys| && keys[i] == k;
      var n :| 0 <= n < |ExpandKey(rows, k).value| && ExpandKey(rows, k).value[n] == x;
      ExpandAllCoversOne(rows, keys, i, n);
    }
  }

  lemma {:induction false} ExpandAllCoversOne(rows: seq<Record>, keys: seq<string>, i: nat, n: nat)
    requires ExpandAll(rows, keys).Ok? && i < |keys|
    requires ExpandKey(rows, keys[i]).Ok? && n < |ExpandKey(rows, keys[i]).value|
    ensures ExpandKey(rows, keys[i]).value[n] in ExpandAll(rows, keys).value
  {
    ExpandAllPlaces(rows, keys, i);
    SliceMember(ExpandAll(rows, keys).value, TotalPairs(rows, keys[..i]), TotalPairs(rows, keys[..i + 1]),
      ExpandKey(rows, keys[i]).value, n);
  }

  /** A successful loop over a non-empty key list is the loop over all but the last key, then that key's block. */
  lemma {:induction false} ExpandAllSnoc(rows: seq<Record>, keys: seq<string>)
    requires keys != [] && ExpandAll(rows, keys).Ok?
    ensures ExpandAll(rows, keys[..|keys| - 1]).Ok? && ExpandKey(rows, keys[|keys| - 1]).Ok?
    ensures ExpandAll(rows, keys).value
      == ExpandAll(rows, keys[..|keys| - 1]).value + ExpandKey(rows, keys[|keys| - 1]).value
  {
  }

  /** A key's block has k * (k - 1) / 2 rows for its k distinct partners. */
  lemma {:induction false} ExpandKeyCount(rows: seq<Record>, key: string)
    requires ExpandKey(rows, key).Ok?
    ensures |ExpandKey(rows, key).value| == Choose2(|Members(rows, key)|)
  {
    PairsCount(Members(rows, key));
  }

  /** A successful loop emits the sum over the keys of k * (k - 1) / 2 rows. */
  lemma {:induction false} ExpandAllCount(rows: seq<Record>, keys: seq<string>)
    requires ExpandAll(rows, keys).Ok?
    ensures |ExpandAll(rows, keys).value| == TotalPairs(rows, keys)
    decreases |keys|
  {
    if keys != [] {
      var init := keys[..|keys| - 1];
      ExpandAllSnoc(rows, keys);
      ExpandAllCount(rows, init);
      ExpandKeyCount(rows, keys[|keys| - 1]);
    }
  }

  /** Once the loop has failed on a prefix of the keys, the later keys do not change the outcome. */
  lemma {:induction false} ExpandAllStops(rows: seq<Record>, keys: seq<string>, i: nat)
    requires i <= |keys|
    requires ExpandAll(rows, keys[..i]).Err?
    ensures ExpandAll(rows, keys) == ExpandAll(rows, keys[..i])
    decreases |keys| - i
  {
    if i < |keys| {
      var init := keys[..|keys| - 1];
      assert init[..i] == keys[..i];
      ExpandAllStops(rows, init, i);
    } else {
      assert keys[..i] == keys;
    }
  }

  /**
   * The group of a key that names a complex is the same in the complex rows as in the
   * whole table, so `.iloc[1]` picks the second input row with that identifier.
   */
  lemma {:induction false} ComplexGroup(rows: seq<Record>, key: string)
    requires Contains(key, "complex")
    ensures RowsOf(Filter(rows, IsComplex), key) == RowsOf(rows, key)
    ensures key in Keys(Filter(rows, IsComplex)) <==> exists r :: r in rows && r.uidA == key
    ensures forall b :: b in Members(Filter(rows, IsComplex), key) <==>
      exists r :: r in rows && r.uidA == key && r.uidB == b
  {
    FilterNarrow(rows, IsComplex, HasKey(key));
  }

  /**
   * Expanding the complex rows of a table succeeds exactly when every row whose first
   * identifier names a complex has another row with the same identifier.
   */
  lemma {:induction false} ExpandSucceeds(rows: seq<Record>)
    ensures var complexRows := Filter(rows, IsComplex);
      ExpandAll(complexRows, Keys(complexRows)).Ok? <==>
        forall i :: 0 <= i < |rows| && IsComplex(rows[i]) ==>
          exists j :: 0 <= j < |rows| && j != i && rows[j].uidA == rows[i].uidA
  {
    var complexRows := Filter(rows, IsComplex);
    var keys := Keys(complexRows);
    ExpandAllOk(complexRows, keys);
    if forall k :: k in keys ==> |RowsOf(complexRows, k)| >= 2 {
      forall i | 0 <= i < |rows| && IsComplex(rows[i])
        ensures exists j :: 0 <= j < |rows| && j != i && rows[j].uidA == rows[i].uidA
      {
        var k := rows[i].uidA;
        assert rows[i] in complexRows;
        ComplexGroup(rows, k);
        RowsOfTwice(rows, k);
        var a, b :| 0 <= a < b < |rows| && rows[a].uidA == k && rows[b].uidA == k;
        if a != i { assert rows[a].uidA == k; } else { assert rows[b].uidA == k; }
      }
    }
    if forall i :: 0 <= i < |rows| && IsComplex(rows[i]) ==>
         exists j :: 0 <= j < |rows| && j != i && rows[j].uidA == rows[i].uidA
    {
      forall k | k in keys ensures |RowsOf(complexRows, k)| >= 2 {
        var r :| r in complexRows && r.uidA == k;
        var i :| 0 <= i < |rows| && rows[i] == r;
        ComplexGroup(rows, k);
        RowsOfTwice(rows, k);
        var j :| 0 <= j < |rows| && j != i && rows[j].uidA == rows[i].uidA;
        if i < j {
          assert rows[i].uidA == k && rows[j].uidA == k;
        } else {
          assert rows[j].uidA == k && rows[i].uidA == k;
        }
      }
    }
  }

  /** One more key extends a successful loop by that key's block, or stops it with that key's error. */
  lemma {:induction false} ExpandAllStep(rows: seq<Record>, keys: seq<string>, i: nat, acc: seq<Record>)
    requires i < |keys| && ExpandAll(rows, keys[..i]) == Ok(acc)
    ensures ExpandAll(rows, keys[..i + 1]) ==
      if ExpandKey(rows, keys[i]).Ok? then Ok(acc + ExpandKey(rows, keys[i]).value)
      else Err(ExpandKey(rows, keys[i]).error)
  {
    assert keys[..i + 1][..i] == keys[..i];
  }

  /** Lines 53-66: expand the complex rows, key by key, into one table of pairs. */
  method ExpandComplexes(complexRows: seq<Record>) returns (r: Result<seq<Record>, Error>)
    ensures r == ExpandAll(complexRows, Keys(complexRows))
  {
    var keys := Keys(complexRows);
    var complexDf: seq<Record> := [];
    var i := 0;
    while i < |keys|
      invariant 0 <= i <= |keys|
      invariant ExpandAll(complexRows, keys[..i]) == Ok(complexDf)
    {
      var key := keys[i];
      var proteins := Members(complexRows, key);
      var proteinPairs := Pairs(proteins);
      var group := RowsOf(complexRows, key);
      ExpandAllStep(complexRows, keys, i, complexDf);
      if |group| < 2 {
        ExpandAllStops(complexRows, keys, i + 1);
        return Err(ComplexWithoutSecondRow(key));
      }
      var tempValues := group[1];
      var result := WithMeta(proteinPairs, tempValues);
      complexDf := complexDf + result;
      i := i + 1;
    }
    assert keys[..i] == keys;
    return Ok(complexDf);
  }
}
