/**
 * The field normaliser: the regular expressions `\((.*)\)` and `:(.*)\(` as `re.findall`
 * applies them, the decoded interaction type, method and host taxon, and the per-row map.
 */
module Extractors {
  import opened Wrappers
  import opened Text
  import opened Records

  /** The first line break at or after `i`, or the end: where `.` stops matching. */
  function LineEnd(s: string, i: nat): (k: nat)
    requires i <= |s|
    ensures i <= k <= |s| && (k == |s| || s[k] == '\n')
    ensures forall j :: i <= j < k ==> s[j] != '\n'
    decreases |s| - i
  {
    if i == |s| || s[i] == '\n' then i else LineEnd(s, i + 1)
  }

  /**
   * The group of `open(.*)close` when the match starts at `i`: the greedy `.*` runs to the end
   * of the line and backs off to the last `close` before it.
   */
  function MatchAt(s: string, open: char, close: char, i: nat): Option<string>
    requires i < |s|
  {
    if s[i] != open then None
    else match LastIndexIn(s, close, i + 1, LineEnd(s, i + 1))
      case None => None
      case Some(j) => Some(s[i + 1..j])
  }

  /** The leftmost match at or after `i`, as the regex engine scans. */
  function SearchFrom(s: string, open: char, close: char, i: nat): Option<string>
    requires i <= |s|
    decreases |s| - i
  {
    if i == |s| then None
    else match MatchAt(s, open, close, i)
      case Some(g) => Some(g)
      case None => SearchFrom(s, open, close, i + 1)
  }

  /** The first element of `re.findall(open + "(.*)" + close, s)`, or None when the list is empty. */
  function FindallFirst(s: string, open: char, close: char): Option<string>
  {
    SearchFrom(s, open, close, 0)
  }

  /** The first `open` and the last `close` of `s`, when that `close` comes after that `open`. */
  function GreedySpan(s: string, open: char, close: char): (r: Option<(nat, nat)>)
    ensures r.Some? ==> r.value.0 < r.value.1 < |s|
    ensures r.Some? ==> s[r.value.0] == open && s[r.value.1] == close
    ensures r.Some? ==> forall k :: 0 <= k < r.value.0 ==> s[k] != open
    ensures r.Some? ==> forall k :: r.value.1 < k < |s| ==> s[k] != close
    ensures r.None? <==> forall i, j :: 0 <= i < j < |s| && s[i] == open ==> s[j] != close
  {
    match (FirstIndexOf(s, open), LastIndexOf(s, close))
    case (Some(p), Some(q)) => if p < q then Some((p, q)) else None
    case _ => None
  }

  lemma {:induction false} SearchSkips(s: string, open: char, close: char, i: nat, p: nat)
    requires i <= p <= |s|
    requires forall k :: i <= k < p ==> s[k] != open
    ensures SearchFrom(s, open, close, i) == SearchFrom(s, open, close, p)
    decreases p - i
  {
    if i < p {
      SearchSkips(s, open, close, i + 1, p);
    }
  }

  lemma {:induction false} SearchFails(s: string, open: char, close: char, i: nat)
    requires i <= |s|
    requires forall k :: i < k < |s| ==> s[k] != close
    ensures SearchFrom(s, open, close, i) == None
    decreases |s| - i
  {
    if i < |s| {
      SearchFails(s, open, close, i + 1);
    }
  }

  /**
   * On a line without breaks the greedy match is exactly the text strictly between
   * the first `open` and the last `close`, and there is none when no `close` follows an `open`.
   */
  lemma {:induction false} FindallFirstSpan(s: string, open: char, close: char)
    requires '\n' !in s
    ensures var g := GreedySpan(s, open, close);
      FindallFirst(s, open, close) == if g.Some? then Some(s[g.value.0 + 1..g.value.1]) else None
  {
    match FirstIndexOf(s, open)
    case None =>
      SearchSkips(s, open, close, 0, |s|);
    case Some(p) =>
      SearchSkips(s, open, close, 0, p);
      assert LineEnd(s, p + 1) == |s|;
      match LastIndexIn(s, close, p + 1, |s|)
      case None =>
        SearchFails(s, open, close, p + 1);
      case Some(j) =>
        assert LastIndexOf(s, close) == Some(j);
  }

  /** Lines 29-34 and 37-42: the bracketed value of an annotation, or "No_info". */
  function ExtractBracket(s: string): string
  {
    match FindallFirst(s, '(', ')')
    case Some(g) => g
    case None => NoInfo
  }

  /** Type and method normalisation keeps exactly the text between the first '(' and the last ')'. */
  lemma {:induction false} BracketSpan(s: string)
    requires '\n' !in s
    ensures var g := GreedySpan(s, '(', ')');
      ExtractBracket(s) == if g.Some? then s[g.value.0 + 1..g.value.1] else NoInfo
  {
    FindallFirstSpan(s, '(', ')');
  }

  /** The span of `pre + [open] + v + [close] + post` is the inserted pair when `pre` has no `open` and `post` no `close`. */
  lemma {:induction false} SpanOfJoined(pre: string, open: char, v: string, close: char, post: string)
    requires open !in pre && close !in post
    ensures var s := pre + [open] + v + [close] + post;
      && GreedySpan(s, open, close) == Some((|pre|, |pre| + 1 + |v|))
      && s[|pre| + 1..|pre| + 1 + |v|] == v
  {
    var s := pre + [open] + v + [close] + post;
    assert s == pre + [open] + (v + [close] + post);
    assert s == (pre + [open] + v) + [close] + post;
    FirstIndexOfJoined(pre, open, v + [close] + post);
    LastIndexOfJoined(pre + [open] + v, close, post);
  }

  /** `prefix(value)suffix` decodes to `value`, whatever brackets `value` itself holds. */
  lemma {:induction false} BracketRoundTrip(pre: string, v: string, post: string)
    requires '(' !in pre && ')' !in post
    requires '\n' !in pre + v + post
    ensures ExtractBracket(pre + "(" + v + ")" + post) == v
  {
    var s := pre + ['('] + v + [')'] + post;
    assert pre + "(" + v + ")" + post == s;
    SpanOfJoined(pre, '(', v, ')', post);
    BracketSpan(s);
  }

  /** Lines 45-50: the host taxon, 0 when absent or not positive, an error when `int()` raises. */
  function ExtractTaxon(s: string): (r: Result<nat, Error>)
  {
    match FindallFirst(s, ':', '(')
    case None => Ok(0)
    case Some(g) =>
      match ParseInt(g)
      case None => Err(TaxidNotInteger(g))
      case Some(n) => Ok(if n > 0 then n else 0)
  }

  /**
   * Taxon normalisation: no ':' before a later '(' gives 0; otherwise the text between the
   * first ':' and the last '(' is read as an integer, kept when positive, 0 when not,
   * and the row fails when it is not an integer.
   */
  lemma {:induction false} TaxonSpan(s: string)
    requires '\n' !in s
    ensures GreedySpan(s, ':', '(').None? ==> ExtractTaxon(s) == Ok(0)
    ensures forall p: nat, q: nat :: GreedySpan(s, ':', '(') == Some((p, q)) ==>
      var text := s[p + 1..q];
      && (ParseInt(text).None? <==> ExtractTaxon(s) == Err(TaxidNotInteger(text)))
      && (forall n :: ParseInt(text) == Some(n) && n > 0 ==> ExtractTaxon(s) == Ok(n))
      && (forall n :: ParseInt(text) == Some(n) && n <= 0 ==> ExtractTaxon(s) == Ok(0))
  {
    FindallFirstSpan(s, ':', '(');
  }

  /** `prefix:N(name)` decodes to N when N is positive and to 0 otherwise. */
  lemma {:induction false} TaxonRoundTrip(pre: string, n: int, post: string)
    requires ':' !in pre && '(' !in post
    requires '\n' !in pre + post
    ensures ExtractTaxon(pre + ":" + ShowInt(n) + "(" + post) == Ok(if n > 0 then n else 0)
  {
    var v := ShowInt(n);
    var s := pre + [':'] + v + ['('] + post;
    assert pre + ":" + v + "(" + post == s;
    assert '\n' !in v;
    SpanOfJoined(pre, ':', v, '(', post);
    TaxonSpan(s);
    ParseShow(n);
  }

  /** Lines 29-50 applied to one row. */
  function NormalizeRow(raw: RawRecord): Result<Record, Error>
  {
    match ExtractTaxon(raw.hostTaxid)
    case Err(e) => Err(e)
    case Ok(t) =>
      Ok(Record(raw.uidA, raw.uidB, ExtractBracket(raw.interactionType), ExtractBracket(raw.detectionMethod), t))
  }

  /**
   * Lines 29-50 applied to the whole table: the first row whose taxon `int()` rejects stops
   * the run; otherwise every row is normalised in place, in order.
   */
  function NormalizeTable(raws: seq<RawRecord>): (r: Result<seq<Record>, Error>)
    ensures r.Ok? <==> forall i :: 0 <= i < |raws| ==> ExtractTaxon(raws[i].hostTaxid).Ok?
    ensures r.Ok? ==> |r.value| == |raws|
    ensures r.Ok? ==> forall i :: 0 <= i < |raws| ==> NormalizeRow(raws[i]) == Ok(r.value[i])
    ensures r.Err? ==> exists i :: (0 <= i < |raws| && NormalizeRow(raws[i]) == Err(r.error)
      && forall k :: 0 <= k < i ==> NormalizeRow(raws[k]).Ok?)
  {
    if raws == [] then Ok([])
    else
      match NormalizeRow(raws[0])
      case Err(e) => Err(e)
      case Ok(row) =>
        match NormalizeTable(raws[1..])
        case Err(e) =>
          ghost var i :| 0 <= i < |raws[1..]| && NormalizeRow(raws[1..][i]) == Err(e)
            && forall k :: 0 <= k < i ==> NormalizeRow(raws[1..][k]).Ok?;
          assert NormalizeRow(raws[i + 1]) == Err(e);
          Err(e)
        case Ok(rows) => Ok([row] + rows)
  }

  /** `r` carries the decoded type, method and taxon of `raw`. */
  predicate DecodedFrom(r: Record, raw: RawRecord)
  {
    && r.interactionType == ExtractBracket(raw.interactionType)
    && r.detectionMethod == ExtractBracket(raw.detectionMethod)
    && ExtractTaxon(raw.hostTaxid) == Ok(r.taxid)
  }

  /** Every normalised row keeps the identifiers and decodes the annotations of its raw row. */
  lemma {:induction false} NormalizedFrom(raws: seq<RawRecord>, rows: seq<Record>, m: nat)
    requires NormalizeTable(raws) == Ok(rows) && m < |rows|
    ensures m < |raws| && DecodedFrom(rows[m], raws[m])
    ensures rows[m].uidA == raws[m].uidA && rows[m].uidB == raws[m].uidB
  {
    assert NormalizeRow(raws[m]) == Ok(rows[m]);
  }
}
