# iRefIndex interaction parser, modelled in Dafny

This project models `iRefIndex_parser` from `Parsing_iRefIndex.py`. The function turns an
iRefIndex molecular-interaction export into a clean table of interactions. It runs in five steps:

1. **Field normalisation.** The interaction type and the detection method keep the text between
   the first `(` and the last `)`, or become `"No_info"`. The host taxon keeps the integer between
   the first `:` and the last `(` when it is positive, and becomes `0` otherwise.
2. **Complex expansion.** Rows whose first identifier (`uidA`) contains `"complex"` are grouped by
   that identifier. Each group's distinct partners (`uidB`) are paired as in
   `itertools.combinations(members, 2)`. Every pair takes the interaction type, method and taxon
   of the group's *second* row.
3. **Tag and combine.** Ordinary rows are tagged `"PPI"` and expanded pairs `"Complex"`. The
   ordinary rows come first.
4. **Identifier cleaning.** Each identifier keeps its second `:`-separated field. It is absent
   when there is no colon.
5. **Sentinel filter.** Every row with a cell equal to `"No_info"`, `"unspecified method"`, `0`
   or `"0"` is dropped.

Tables are sequences of records. The `method` column is called `detectionMethod`, because
`method` is a Dafny keyword. The file layout follows the parser's components:

- `wrappers.dfy`: `Option` and `Result`.
- `seqs.dfy`: the order-preserving filter behind every boolean mask, and duplicate removal.
- `text.dfy`: character search, `str.split`, `in` on strings, and `int()` on decimal strings.
- `records.dfy`: raw and normalised rows, and the two exceptions the parser can raise.
- `extractors.dfy`: the regular expressions as `re.findall` applies them, and the field normaliser.
- `combinations.dfy`: the 2-combinations of a list.
- `complexes.dfy`: grouping, pairing and the expansion loop, as a method with a loop invariant.
- `pipeline.dfy`: tagging, combining, cleaning, filtering, and the whole parser as a function and
  as a method.

Four behaviours of the code are easy to misread:

- Identifier cleaning keeps the second colon-separated field (`a:b:c` gives `b`). It does not
  keep everything after the first colon. A missing colon gives an absent value, not the original
  string.
- A complex identifier that occurs in only one row makes `.iloc[1]` raise, so the whole run
  fails. It is not skipped. The model returns `Err(ComplexWithoutSecondRow(key))`. A group with
  two or more rows but a single distinct partner gives zero pairs without error.
- The annotations of a group come from its second row in input order, not its first.
- A non-numeric taxon text makes `int()` raise. It is not coerced to 0. The model returns
  `Err(TaxidNotInteger(text))`.

## Model

| member | source | states |
|---|---|---|
| `Extractors.FindallFirstSpan` | Parsing_iRefIndex.py:29-31 | `FindallFirst`, the first `re.findall` match of `open(.*)close`, is on a line with no breaks the text strictly between the first `open` and the last `close`; there is none when no `close` follows an `open` |
| `Extractors.GreedySpan` | Parsing_iRefIndex.py:29-31 | the reference positions: the first `open` and the last `close`; absent exactly when no `close` stands after any `open` |
| `Extractors.BracketSpan` | Parsing_iRefIndex.py:29-42 | `ExtractBracket`, the type and method label, is exactly the text between the first `(` and the last `)` when that `)` follows the `(`, and exactly `"No_info"` otherwise |
| `Extractors.BracketRoundTrip` | Parsing_iRefIndex.py:29-42 | `ExtractBracket` decodes `prefix(value)suffix` to `value` whenever the prefix has no `(` and the suffix no `)`, whatever brackets `value` contains |
| `Extractors.TaxonSpan` | Parsing_iRefIndex.py:45-50 | `ExtractTaxon` gives 0 when no `:` precedes a later `(`; otherwise it reads the text between the first `:` and the last `(` with `int()` (`Text.ParseInt`): kept if positive, 0 if not, and the run fails if it is not an integer |
| `Extractors.TaxonRoundTrip` | Parsing_iRefIndex.py:45-50 | `ExtractTaxon` of `prefix:N(name)` is N for positive N and 0 for N <= 0 |
| `Extractors.NormalizeTable` | Parsing_iRefIndex.py:29-50 | normalisation (`NormalizeRow` on every row) succeeds exactly when every taxon field is accepted; it then has one normalised row per input row, in order; otherwise it fails with the error of the first rejected row |
| `Extractors.NormalizedFrom` | Parsing_iRefIndex.py:29-50 | each normalised row keeps its raw row's identifiers and carries that row's decoded type, method and taxon |
| `Text.ParseShow` | Parsing_iRefIndex.py:49 | `ParseInt`, the model of `int()`, reads back the decimal spelling of every integer, negative ones included |
| `Text.ShowDigitsValue` | Parsing_iRefIndex.py:49 | a digit string without a redundant leading zero is the spelling of the value `ParseInt` gives it |
| `Text.ContainsAt` | Parsing_iRefIndex.py:53 | `Contains`, the substring test used for `"complex"`, holds exactly when the pattern occurs at some position |
| `Seqs.Filter` | Parsing_iRefIndex.py:53 | a boolean row mask keeps exactly the rows that satisfy it, and no more rows than it was given |
| `Seqs.FilterCopies` | Parsing_iRefIndex.py:53 | a mask keeps every copy of an accepted row and no copy of a rejected one |
| `Seqs.FilterSecond` | Parsing_iRefIndex.py:63 | when `s[i]` and `s[j]` are the first two rows a mask accepts, element 1 of the selection is `s[j]` |
| `Seqs.FilterPartition` | Parsing_iRefIndex.py:53-72 | the complex rows and the ordinary rows together account for every input row |
| `Seqs.Dedupe` | Parsing_iRefIndex.py:55 | `list(set(values))` holds each value of the input exactly once and nothing else |
| `Complexes.Keys` | Parsing_iRefIndex.py:54-56 | the group keys are duplicate-free and are exactly the `uidA` values of the rows given |
| `Complexes.Members` | Parsing_iRefIndex.py:54-57 | a key's member list is duplicate-free and is exactly the set of `uidB` values of the rows with that `uidA` |
| `Complexes.RowsOf` | Parsing_iRefIndex.py:63 | the selection `complex_data['uidA'] == key` keeps exactly the rows with that key |
| `Complexes.RowsOfTwice` | Parsing_iRefIndex.py:63 | `.iloc[1]` exists exactly when two input rows carry the key |
| `Complexes.RowsOfSecond` | Parsing_iRefIndex.py:63 | `.iloc[1]` of a key's rows is the key's second input row |
| `Complexes.ComplexGroup` | Parsing_iRefIndex.py:53-63 | for a key that contains `"complex"`, its rows, its membership and its second row are the same among the complex rows as in the whole table; only complex rows take part |
| `Combinations.PairsCount` | Parsing_iRefIndex.py:61 | `Pairs`, the model of `itertools.combinations(members, 2)`, gives k * (k - 1) / 2 pairs for k members, and none for fewer than two |
| `Combinations.PairsMembership` | Parsing_iRefIndex.py:61 | `Pairs` emits (a, b) exactly when a stands before b in the member list |
| `Combinations.PairsDistinct` | Parsing_iRefIndex.py:61 | over duplicate-free members no pair repeats, none joins a member to itself, and none appears in both orientations |
| `Combinations.PairsCover` | Parsing_iRefIndex.py:61 | every two distinct members are paired in one orientation |
| `Complexes.BlockSpec` | Parsing_iRefIndex.py:61-65 | `WithMeta` applied to the pairs of any duplicate-free ordering of k members gives k * (k - 1) / 2 rows, each joining two different members, every two members joined exactly once, every row carrying the representative's type, method and taxon |
| `Complexes.ExpandKeySpec` | Parsing_iRefIndex.py:61-65 | `ExpandKey`, one pass of the loop body, succeeds exactly when the key has a second row, and its block then has all the properties above, with annotations from element 1 of the key's rows |
| `Complexes.ExpandKeyAnnotations` | Parsing_iRefIndex.py:61-65 | when `rows[i]` and `rows[j]` are the first two rows of a key, `ExpandKey` succeeds and every pair carries the type, method and taxon of `rows[j]` |
| `Complexes.ExpandAllOk` | Parsing_iRefIndex.py:60-66 | `ExpandAll`, the whole loop, succeeds exactly when every key has a second row; otherwise it fails at the first key, in iteration order, that has none |
| `Complexes.ExpandAllBlocks` | Parsing_iRefIndex.py:60-66 | a successful loop emits exactly the sum of k * (k - 1) / 2 over the keys, and every emitted row belongs to one key's block |
| `Complexes.ExpandAllPlaces` | Parsing_iRefIndex.py:60-66 | in a successful loop, the output slice after the pairs of keys `0..i-1` is exactly the block of key `i`: the output is the blocks concatenated in key order |
| `Complexes.ExpandAllCovers` | Parsing_iRefIndex.py:60-66 | every row of every key's block appears in the output of a successful loop |
| `Complexes.ExpandedFrom` | Parsing_iRefIndex.py:60-66 | every row the loop emits carries the annotations of one of the rows it was given |
| `Complexes.ExpandSucceeds` | Parsing_iRefIndex.py:53-66 | expanding the complex rows succeeds exactly when every row whose `uidA` contains `"complex"` has another row with the same `uidA` |
| `Complexes.ExpandComplexes` | Parsing_iRefIndex.py:53-66 | the loop over `complex_dict.items()`, growing the table block by block, computes `ExpandAll` over the keys or stops with the first key's error |
| `Pipeline.CombineSpec` | Parsing_iRefIndex.py:69-76 | `Combine` gives the ordinary rows unchanged, in input order and tagged `"PPI"`, followed by the expanded rows tagged `"Complex"`; a row is tagged `"PPI"` exactly when it is an input row that does not name a complex |
| `Pipeline.CleanId` | Parsing_iRefIndex.py:79-80 | a cleaned identifier is absent exactly when there is no colon, and never contains a colon |
| `Pipeline.CleanIdSpec` | Parsing_iRefIndex.py:79-80 | `p:id` becomes `id`, and `a:b:c` keeps only `b` |
| `Text.Split` | Parsing_iRefIndex.py:79-80 | `str.split(':')` gives at least one field, exactly one when there is no colon, and no field contains a colon |
| `Text.JoinSplit` | Parsing_iRefIndex.py:79-80 | joining the fields of `Split` with `:` gives back the identifier |
| `Text.SplitJoin` | Parsing_iRefIndex.py:79-80 | `Split` of colon-free fields joined with `:` gives back those fields |
| `Pipeline.DropSentinelsSpec` | Parsing_iRefIndex.py:83-84 | `DropSentinels`, the mask of `HasSentinel`, keeps an order-preserving subsequence, no kept row has a sentinel cell, every copy of every row without one is kept, and filtering twice equals filtering once |
| `Pipeline.ParseOk` | Parsing_iRefIndex.py:29-66 | `Parse`, the whole parser, fails exactly when some taxon text is not an integer or some complex identifier occurs in only one row |
| `Pipeline.ParseRows` | Parsing_iRefIndex.py:69-84 | every row `Parse` outputs is free of sentinels, has a positive taxon and type and method labels other than `"No_info"`, and all `"PPI"` rows come before all `"Complex"` rows |
| `Pipeline.ParseLabels` | Parsing_iRefIndex.py:29-84 | every row `Parse` outputs carries the `ExtractBracket` type and method and the `ExtractTaxon` taxon of some raw row; a `"PPI"` row also carries that raw row's `CleanId` identifiers, and that raw row does not name a complex |
| `Pipeline.ParseProvenance` | Parsing_iRefIndex.py:69-84 | the output of `Parse` is `DropSentinels` of `CleanTable` of the ordinary rows, followed by `DropSentinels` of `CleanTable` of the expanded pairs |
| `Pipeline.IRefIndexParser` | Parsing_iRefIndex.py:22-84 | the script's steps, run in order, compute the parser's specification `Parse` |

## Left out

- File input and output: reading the tab-separated file, renaming `#uidA`, selecting the five columns, writing the CSV, the hard-coded paths and the module-level call (Parsing_iRefIndex.py:8, 22-26, 87, 90). The parser takes the selected columns as a sequence of raw records and returns the final table.
- Complexes.ExpandComplexes: iterates the keys in order of first appearance. pandas `groupby` iterates them in sorted order. This changes only the order of the blocks and which key is named when several keys have a single row. Every block property is stated per key.
- Complexes.Members: lists partners in order of first appearance. `list(set(...))` uses hash order. The pair properties (`Combinations.PairsDistinct`, `Complexes.BlockSpec`) hold for any duplicate-free ordering.
- Text.ParseInt: reads an optional `+`/`-` sign followed by ASCII digits. The surrounding whitespace, underscores and non-ASCII digits that Python's `int()` also accepts are treated as non-integers.
- The clean first/last characterisations (`Extractors.FindallFirstSpan`, `BracketSpan`, `TaxonSpan`) are stated for fields without line breaks. The regex model itself handles line breaks: `.` stops at them, as in Python.
- The missing `import itertools`. Line 61 would raise `NameError` whenever a complex key exists. The model assumes the import is present and writes the combinations out as a function.
- pandas NaN semantics. A missing cleaned identifier is `None` and is never a sentinel, like NaN in `isin`. Missing cells in the input, which would make `re.findall` raise, are not modelled because every field is a string.
- dtype effects of `concat` and `reset_index`. The taxon column is modelled as integers throughout.
