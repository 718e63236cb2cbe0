/**
 * The combiner and filter, and the parser end to end: tag the two kinds of rows, put the
 * ordinary rows before the expanded complex pairs, keep the second colon-separated field of
 * each identifier, and drop every row holding a sentinel cell.
 */
module Pipeline {
  import opened Wrappers
  import opened Seqs
  import opened Text
  import opened Records
  import opened Extractors
  import opened Complexes

  /** The `Gold_Standard` column: direct evidence or a pair derived from a complex. */
  datatype Gold = PPI | Complex

  function GoldLabel(g: Gold): string
  {
    match g
    case PPI => "PPI"
    case Complex => "Complex"
  }

  /** A normalised row with its `Gold_Standard` tag. */
  datatype Tagged = Tagged(row: Record, gold: Gold)

  /** Lines 69 and 73: give every row of a table the same tag. */
  function Tag(rows: seq<Record>, g: Gold): (t: seq<Tagged>)
    ensures |t| == |rows| && forall i :: 0 <= i < |rows| ==> t[i] == Tagged(rows[i], g)
  {
    seq(|rows|, i requires 0 <= i < |rows| => Tagged(rows[i], g))
  }

  /** Lines 69-76: the ordinary rows tagged "PPI", then the expanded pairs tagged "Complex". */
  function Combine(rows: seq<Record>, expanded: seq<Record>): seq<Tagged>
  {
    Tag(Filter(rows, IsPairwise), PPI) + Tag(expanded, Complex)
  }

  /**
   * The combined table: the rows that do not name a complex, unchanged, in input order and
   * tagged "PPI", all before the expanded pairs, which are tagged "Complex"; together with the
   * complex rows the ordinary rows account for every input row.
   */
  lemma {:induction false} CombineSpec(rows: seq<Record>, expanded: seq<Record>)
    ensures |Combine(rows, expanded)| == |Filter(rows, IsPairwise)| + |expanded|
    ensures |Filter(rows, IsPairwise)| + |Filter(rows, IsComplex)| == |rows|
    ensures IsSubsequence(Filter(rows, IsPairwise), rows)
    ensures forall r :: Tagged(r, PPI) in Combine(rows, expanded) <==> r in rows && !IsComplex(r)
    ensures forall i :: 0 <= i < |Combine(rows, expanded)| ==>
      (Combine(rows, expanded)[i].gold == PPI <==> i < |Filter(rows, IsPairwise)|)
    ensures forall i :: 0 <= i < |Filter(rows, IsPairwise)| ==>
      Combine(rows, expanded)[i].row == Filter(rows, IsPairwise)[i]
    ensures forall j :: |Filter(rows, IsPairwise)| <= j < |Combine(rows, expanded)| ==>
      Combine(rows, expanded)[j] == Tagged(expanded[j - |Filter(rows, IsPairwise)|], Complex)
  {
    FilterIsSubsequence(rows, IsPairwise);
    FilterPartition(rows, IsPairwise, IsComplex);
    CombinePositions(rows, expanded);
    assert forall r :: Tagged(r, PPI) in Combine(rows, expanded) <==> r in rows && !IsComplex(r) by {
      CombinePPI(rows, expanded);
    }
  }

  lemma {:induction false} CombinePositions(rows: seq<Record>, expanded: seq<Record>)
    ensures |Combine(rows, expanded)| == |Filter(rows, IsPairwise)| + |expanded|
    ensures forall i :: 0 <= i < |Combine(rows, expanded)| ==>
      (Combine(rows, expanded)[i].gold == PPI <==> i < |Filter(rows, IsPairwise)|)
    ensures forall i :: 0 <= i < |Filter(rows, IsPairwise)| ==>
      Combine(rows, expanded)[i].row == Filter(rows, IsPairwise)[i]
    ensures forall j :: |Filter(rows, IsPairwise)| <= j < |Combine(rows, expanded)| ==>
      Combine(rows, expanded)[j] == Tagged(expanded[j - |Filter(rows, IsPairwise)|], Complex)
  {
    CombineLayout(Filter(rows, IsPairwise), expanded);
  }

  /** The positions of `Tag(a, PPI) + Tag(b, Complex)`. */
  lemma {:induction false} CombineLayout(a: seq<Record>, b: seq<Record>)
    ensures var c := Tag(a, PPI) + Tag(b, Complex);
      && |c| == |a| + |b|
      && (forall i :: 0 <= i < |c| ==> (c[i].gold == PPI <==> i < |a|))
      && (forall i :: 0 <= i < |a| ==> c[i].row == a[i])
      && (forall j :: |a| <= j < |c| ==> c[j] == Tagged(b[j - |a|], Complex))
  {
  }

  lemma {:induction false} CombinePPI(rows: seq<Record>, expanded: seq<Record>)
    ensures forall r :: Tagged(r, PPI) in Combine(rows, expanded) <==> r in rows && !IsComplex(r)
  {
    var pairwise := Filter(rows, IsPairwise);
    var c := Combine(rows, expanded);
    forall r ensures Tagged(r, PPI) in c <==> r in rows && !IsComplex(r) {
      if Tagged(r, PPI) in c {
        var i :| 0 <= i < |c| && c[i] == Tagged(r, PPI);
        assert i < |pairwise|;
        assert c[i].row == pairwise[i] && pairwise[i] in pairwise;
      }
      if r in rows && !IsComplex(r) {
        var i :| 0 <= i < |pairwise| && pairwise[i] == r;
        assert c[i] == Tagged(r, PPI);
      }
    }
  }

  /** Lines 79-80: `s.split(':')[1]`, absent when `s` has no colon. */
  function CleanId(s: string): (r: Option<string>)
    ensures r.None? <==> ':' !in s
    ensures r.Some? ==> ':' !in r.value
  {
    var parts := Split(s, ':');
    if |parts| >= 2 then Some(parts[1]) else None
  }

  /** `p:id` becomes `id`, and with more colons only the second field is kept. */
  lemma {:induction false} CleanIdSpec(pre: string, id: string, rest: string)
    requires ':' !in pre && ':' !in id
    ensures CleanId(pre + [':'] + id) == Some(id)
    ensures CleanId(pre + [':'] + id + [':'] + rest) == Some(id)
  {
    SplitJoined(pre, ':', id);
    assert pre + [':'] + id + [':'] + rest == pre + [':'] + (id + [':'] + rest);
    SplitJoined(pre, ':', id + [':'] + rest);
    SplitJoined(id, ':', rest);
  }

  /** A row of the final table; a cleaned identifier is absent when the raw one had no colon. */
  datatype CleanRow = CleanRow(
    uidA: Option<string>,
    uidB: Option<string>,
    interactionType: string,
    detectionMethod: string,
    taxid: nat,
    gold: Gold)

  function CleanOne(t: Tagged): CleanRow
  {
    CleanRow(CleanId(t.row.uidA), CleanId(t.row.uidB), t.row.interactionType,
      t.row.detectionMethod, t.row.taxid, t.gold)
  }

  /** Lines 79-80 over the whole table. */
  function CleanTable(ts: seq<Tagged>): (r: seq<CleanRow>)
    ensures |r| == |ts| && forall i :: 0 <= i < |ts| ==> r[i] == CleanOne(ts[i])
  {
    seq(|ts|, i requires 0 <= i < |ts| => CleanOne(ts[i]))
  }

  /** The text values of line 83. */
  predicate IsSentinelText(s: string)
  {
    s == NoInfo || s == "unspecified method" || s == "0"
  }

  predicate IsSentinelId(v: Option<string>)
  {
    v.Some? && IsSentinelText(v.value)
  }

  /** Line 84: some cell of the row equals 'No_info', 'unspecified method', 0 or '0'. */
  predicate HasSentinel(r: CleanRow)
  {
    || IsSentinelId(r.uidA) || IsSentinelId(r.uidB)
    || IsSentinelText(r.interactionType) || IsSentinelText(r.detectionMethod)
    || r.taxid == 0
    || IsSentinelText(GoldLabel(r.gold))
  }

  predicate Keeps(r: CleanRow)
  {
    !HasSentinel(r)
  }

  /** Line 84: the rows without a sentinel cell. */
  function DropSentinels(rows: seq<CleanRow>): seq<CleanRow>
  {
    Filter(rows, Keeps)
  }

  /**
   * The filter keeps an order-preserving selection of the rows, none holding a sentinel,
   * every copy of every row without one among them; a second pass changes nothing.
   */
  lemma {:induction false} DropSentinelsSpec(rows: seq<CleanRow>)
    ensures IsSubsequence(DropSentinels(rows), rows)
    ensures forall r :: r in DropSentinels(rows) ==> !HasSentinel(r)
    ensures forall r :: r in rows && !HasSentinel(r) ==> r in DropSentinels(rows)
    ensures forall r :: multiset(DropSentinels(rows))[r] == if HasSentinel(r) then 0 else multiset(rows)[r]
    ensures DropSentinels(DropSentinels(rows)) == DropSentinels(rows)
    ensures (forall i :: 0 <= i < |rows| ==> !HasSentinel(rows[i])) ==> DropSentinels(rows) == rows
  {
    FilterIsSubsequence(rows, Keeps);
    FilterCopies(rows, Keeps);
    FilterIdempotent(rows, Keeps);
    if forall i :: 0 <= i < |rows| ==> !HasSentinel(rows[i]) {
      FilterKeepsAll(rows, Keeps);
    }
  }

  /** The whole of `iRefIndex_parser` after the file is read, up to the file being written. */
  function Parse(raws: seq<RawRecord>): Result<seq<CleanRow>, Error>
  {
    match NormalizeTable(raws)
    case Err(e) => Err(e)
    case Ok(rows) =>
      var complexRows := Filter(rows, IsComplex);
      match ExpandAll(complexRows, Keys(complexRows))
      case Err(e) => Err(e)
      case Ok(expanded) => Ok(DropSentinels(CleanTable(Combine(rows, expanded))))
  }

  /** Lines 22-84 in the order the script runs them, each step overwriting the table. */
  method IRefIndexParser(raws: seq<RawRecord>) returns (r: Result<seq<CleanRow>, Error>)
    ensures r == Parse(raws)
  {
    var normalized := NormalizeTable(raws);
    if normalized.Err? {
      return Err(normalized.error);
    }
    var filteredData := normalized.value;
    var complexData := Filter(filteredData, IsComplex);
    var complexDf := ExpandComplexes(complexData);
    if complexDf.Err? {
      return Err(complexDf.error);
    }
    var noComplexData := Filter(filteredData, IsPairwise);
    var finalDataset := Tag(noComplexData, PPI) + Tag(complexDf.value, Complex);
    var cleaned := CleanTable(finalDataset);
    return Ok(DropSentinels(cleaned));
  }

  /** The `i`-th raw row has a first identifier that names a complex. */
  predicate NamesComplex(raws: seq<RawRecord>, i: nat)
    requires i < |raws|
  {
    Contains(raws[i].uidA, "complex")
  }

  /**
   * The parser fails exactly when some taxon field is not an integer, or some complex
   * identifier occurs in only one row.
   */
  lemma {:induction false} ParseOk(raws: seq<RawRecord>)
    ensures Parse(raws).Ok? <==>
      && (forall i :: 0 <= i < |raws| ==> ExtractTaxon(raws[i].hostTaxid).Ok?)
      && (forall i :: 0 <= i < |raws| && NamesComplex(raws, i) ==>
            exists j :: 0 <= j < |raws| && j != i && raws[j].uidA == raws[i].uidA)
  {
    var norm := NormalizeTable(raws);
    if norm.Ok? {
      var rows := norm.value;
      ExpandSucceeds(rows);
      PartnersCarryOver(raws, rows);
    }
  }

  /** Normalisation leaves the identifiers alone, so partner rows are the same before and after. */
  lemma {:induction false} PartnersCarryOver(raws: seq<RawRecord>, rows: seq<Record>)
    requires NormalizeTable(raws) == Ok(rows)
    ensures (forall i :: 0 <= i < |rows| && IsComplex(rows[i]) ==>
              exists j :: 0 <= j < |rows| && j != i && rows[j].uidA == rows[i].uidA)
      <==> (forall i :: 0 <= i < |raws| && NamesComplex(raws, i) ==>
              exists j :: 0 <= j < |raws| && j != i && raws[j].uidA == raws[i].uidA)
  {
    assert forall i :: 0 <= i < |raws| ==> rows[i].uidA == raws[i].uidA;
  }

  /** `a` before `b` respects "PPI rows first". */
  predicate GoldOrdered(a: CleanRow, b: CleanRow)
  {
    a.gold == Complex ==> b.gold == Complex
  }

  /**
   * Every row of a successful run is free of sentinel cells, has a positive taxon and decoded
   * type and method labels, and all "PPI" rows come before all "Complex" rows.
   */
  lemma {:induction false} ParseRows(raws: seq<RawRecord>)
    requires Parse(raws).Ok?
    ensures forall x :: x in Parse(raws).value ==>
      !HasSentinel(x) && x.taxid > 0 && x.interactionType != NoInfo && x.detectionMethod != NoInfo
    ensures Pairwise(Parse(raws).value, GoldOrdered)
  {
    var rows := NormalizeTable(raws).value;
    var complexRows := Filter(rows, IsComplex);
    var expanded := ExpandAll(complexRows, Keys(complexRows)).value;
    var cleaned := CleanTable(Combine(rows, expanded));
    DropSentinelsSpec(cleaned);
    CombineSpec(rows, expanded);
    assert Pairwise(cleaned, GoldOrdered);
    FilterPairwise(cleaned, Keeps, GoldOrdered);
  }

  /**
   * Provenance of a successful run: its "PPI" rows are exactly the cleaned ordinary input
   * rows without sentinels, in input order, and its "Complex" rows are the cleaned expanded
   * pairs without sentinels, in expansion order.
   */
  lemma {:induction false} ParseProvenance(raws: seq<RawRecord>)
    requires Parse(raws).Ok?
    ensures var rows := NormalizeTable(raws).value;
      var complexRows := Filter(rows, IsComplex);
      var expanded := ExpandAll(complexRows, Keys(complexRows)).value;
      Parse(raws).value ==
        DropSentinels(CleanTable(Tag(Filter(rows, IsPairwise), PPI)))
        + DropSentinels(CleanTable(Tag(expanded, Complex)))
  {
    var rows := NormalizeTable(raws).value;
    var complexRows := Filter(rows, IsComplex);
    var expanded := ExpandAll(complexRows, Keys(complexRows)).value;
    var a := Tag(Filter(rows, IsPairwise), PPI);
    var b := Tag(expanded, Complex);
    assert CleanTable(a + b) == CleanTable(a) + CleanTable(b);
    FilterConcat(CleanTable(a), CleanTable(b), Keeps);
  }

  /** `x` carries the decoded annotations of `raw`, and if it is a "PPI" row, also its cleaned identifiers. */
  predicate LabelledFrom(x: CleanRow, raw: RawRecord)
  {
    && x.interactionType == ExtractBracket(raw.interactionType)
    && x.detectionMethod == ExtractBracket(raw.detectionMethod)
    && ExtractTaxon(raw.hostTaxid) == Ok(x.taxid)
    && (x.gold == PPI ==>
          x.uidA == CleanId(raw.uidA) && x.uidB == CleanId(raw.uidB) && !Contains(raw.uidA, "complex"))
  }

  /**
   * Every row of a successful run carries the decoded type, method and taxon of some raw
   * row; a "PPI" row is moreover the cleaned form of an ordinary raw row.
   */
  lemma {:induction false} ParseLabels(raws: seq<RawRecord>, x: CleanRow)
    requires Parse(raws).Ok? && x in Parse(raws).value
    ensures exists i :: 0 <= i < |raws| && LabelledFrom(x, raws[i])
  {
    var rows := NormalizeTable(raws).value;
    var complexRows := Filter(rows, IsComplex);
    var expanded := ExpandAll(complexRows, Keys(complexRows)).value;
    var cleaned := CleanTable(Combine(rows, expanded));
    assert x in cleaned;
    var k :| 0 <= k < |cleaned| && cleaned[k] == x;
    CombinedFrom(raws, rows, expanded, k);
  }

  /** Each row of the cleaned, combined table has a raw row it is labelled from. */
  lemma {:induction false} CombinedFrom(raws: seq<RawRecord>, rows: seq<Record>, expanded: seq<Record>, k: nat)
    requires NormalizeTable(raws) == Ok(rows)
    requires ExpandAll(Filter(rows, IsComplex), Keys(Filter(rows, IsComplex))) == Ok(expanded)
    requires k < |Combine(rows, expanded)|
    ensures exists i :: 0 <= i < |raws| && LabelledFrom(CleanOne(Combine(rows, expanded)[k]), raws[i])
  {
    var complexRows := Filter(rows, IsComplex);
    var pairwise := Filter(rows, IsPairwise);
    var c := Combine(rows, expanded);
    CombinePositions(rows, expanded);
    var m: nat;
    if k < |pairwise| {
      assert pairwise[k] in pairwise;
      m :| 0 <= m < |rows| && rows[m] == pairwise[k];
      NormalizedFrom(raws, rows, m);
    } else {
      var y := expanded[k - |pairwise|];
      assert c[k] == Tagged(y, Complex);
      ExpandedFrom(complexRows, Keys(complexRows), y);
      var r :| r in complexRows && SameAnnotations(y, r);
      m :| 0 <= m < |rows| && rows[m] == r;
      NormalizedFrom(raws, rows, m);
    }
    assert LabelledFrom(CleanOne(c[k]), raws[m]);
  }
}
