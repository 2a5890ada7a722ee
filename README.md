# DTS Corrector — a verified model of the reconciliation core

The DTS Corrector takes daily time sheets (DTS) and a Start Form (SF) roster,
each roster entry being a crew-list name, a project job title and an SF
number. It reconciles the messy, human-typed name and title of every time-sheet
row with a roster entry. This project models that reconciliation in Dafny and
proves what it does:

- **Text** (`text.dfy`): a spreadsheet cell, which is either missing (pandas
  NaN) or some text. It covers Python's `str()` of a cell (NaN prints as
  `nan`), `str.strip()` over Python's white-space set, `str.lower()`, and the
  `normalize` key that chains them.
- **Classifier** (`classifier.dfy`): `was_working`. A row is kept when its
  worked amount (`Dolgozott`) parses as a number greater than zero, or when
  its start time (`Kezdés`) is not blank. The rows are then split into kept
  rows and dropped (audit) rows.
- **Matching** (`matching.dfy`): `find_best_match` and
  `match_blank_deal_title`, as imperative scans. Each is proved equal to a
  functional specification: "the first maximal score, accepted when it
  reaches 85". For the primary scan the score is 0.7 × token-set name ratio
  + 0.3 × token-sort title ratio. The blank-deal fallback uses the
  token-sort title ratio alone, over the entries whose SF number starts with
  `BD`.
- **Reconcile** (`reconcile.dfy`): the match-and-correct loop. For each kept
  row it builds six result columns by the three-tier rule (primary match,
  blank-deal fallback, unchanged). It is proved equal to a per-row
  resolution, with one entry per row in every column, in row order.
- **Header** (`header.dfy`): the search for the `Dátum` header row in the
  first 20 cells of column A.

The rapidfuzz scorers are parameters of the model. They are arbitrary total
functions; where a proof needs it, they are assumed to score between 0 and
100 (`Matching.InRange`). Scores are exact reals.

Three behaviours of the code that are easy to misread:

- A row's fallback match becomes a Blank Deal only when the accepted entry's
  title is truthy (`if bd_title:`). An accepted blank-deal entry with an empty
  title gives `Same` with an empty SF number.
- `Changed` versus `Same` uses Python's `!=`. A missing (NaN) name or title
  differs from everything, itself included. A row whose NaN title is matched
  to a roster entry with a NaN title is therefore `Changed`, even though no
  text changed.
- The explicit check for a blank, `"0"` or `"0.0"` worked amount
  (`correct_dts_streamlit.py:54`) never changes the verdict
  (`Classifier.WorkedIffPositive`). Those amounts would fail the
  positive-number test anyway.

## Model

| member | source | states |
|---|---|---|
| Text.CellText | correct_dts_streamlit.py:77 | definition of `str()` of a cell: a missing value is `nan`, text is itself |
| Text.Trim | correct_dts_streamlit.py:77 | `strip()` never lengthens the text; what it removes and keeps is TrimSlice and TrimShape |
| Text.LowerChar | correct_dts_streamlit.py:77 | definition of lower-casing one character; its properties are LowerCharFacts |
| Text.Lower | correct_dts_streamlit.py:77 | the model's lower-casing keeps the length, character by character (Python's `lower()` can lengthen a few characters, see Left out) |
| Text.Normalize | correct_dts_streamlit.py:77 | `normalize` is `strip()` then `lower()` and never lengthens the text; its key properties are NormalizeShape and NormalizeIdempotent |
| Text.TrimSlice | correct_dts_streamlit.py:77 | `strip()` keeps one contiguous slice of the text and removes only white space before and after it |
| Text.TrimShape | correct_dts_streamlit.py:77 | the stripped text has no white space at either end |
| Text.TrimTrimmed | correct_dts_streamlit.py:77 | stripping text with no white space at its ends changes nothing |
| Text.LowerCharFacts | correct_dts_streamlit.py:77 | lower-casing a character leaves no upper-case letter, keeps white space, and changes only upper-case letters |
| Text.NormalizeShape | correct_dts_streamlit.py:77 | a normalized key has no white space at its ends and no upper-case letter |
| Text.NormalizeIdempotent | correct_dts_streamlit.py:77 | normalizing a normalized key gives the same key |
| Sequences.Filter | correct_dts_streamlit.py:66-68 | a boolean-mask selection holds only rows that satisfy the mask, all taken from the input, and every input row that satisfies it |
| Sequences.FilterConcat | correct_dts_streamlit.py:66-68 | a mask selection distributes over concatenation, so it keeps row order |
| Sequences.FilterPartition | correct_dts_streamlit.py:66-68 | a mask and its negation split the rows: the lengths add up and the two multisets sum to the input's multiset |
| Classifier.SplitSignRestores | correct_dts_streamlit.py:58 | the text is a sign of at most one character (`""`, `+` or `-`) followed by the rest; negative exactly for `-`; a leading `+` or `-` is always taken |
| Classifier.ParseUnsigned | correct_dts_streamlit.py:58 | an accepted text is exactly its digit parts joined by its single point (or the whole digits alone, with an empty fraction), with at least one digit |
| Classifier.ParseDecimal | correct_dts_streamlit.py:58 | every decimal that `float()` accepts here is well formed |
| Classifier.ParseDecimalAccepts | correct_dts_streamlit.py:58 | every plain decimal text is accepted: an optional `+` or `-`, digits with or without one point and at least one digit parse to exactly that sign, whole part and fraction |
| Classifier.ParseDecimalText | correct_dts_streamlit.py:58 | an accepted text is exactly the decimal's own sign (`""`, `+` or `-`, negative exactly for `-`), digits and point: nothing else is read |
| Classifier.UnsignedCharacters | correct_dts_streamlit.py:58 | every character of an accepted unsigned text is a digit or the point |
| Classifier.ParsedCharacters | correct_dts_streamlit.py:58 | every character of an accepted text is a digit, the point, or a sign in first position |
| Classifier.NonNumericRejected | correct_dts_streamlit.py:57-60 | a text holding any other character does not parse (the `ValueError` path) |
| Classifier.IndexOf | correct_dts_streamlit.py:58 | the first position of the decimal point, or proof that there is none |
| Classifier.ParseFormat | correct_dts_streamlit.py:58 | round trip: every well-formed decimal is parsed back from its text |
| Classifier.ReplaceCharFacts | correct_dts_streamlit.py:58 | `replace(",", ".")` leaves no comma, leaves comma-free text unchanged, and works piece by piece over concatenation |
| Classifier.TrimReplace | correct_dts_streamlit.py:58 | replacing commas commutes with `strip()` |
| Classifier.WorkedIffPositive | correct_dts_streamlit.py:52-60 | an amount records work exactly when it is present and its comma-corrected, stripped text parses as a positive number; the blank/"0"/"0.0" guard is redundant |
| Classifier.NonNumericNotWorked | correct_dts_streamlit.py:52-60 | an amount whose comma-corrected, stripped text holds a character that cannot be part of a number records no work |
| Classifier.ZeroAmountsNotPositive | correct_dts_streamlit.py:54-58 | "", "0" and "0.0" do not parse as positive numbers |
| Classifier.LettersDoNotParse | correct_dts_streamlit.py:57-60 | example: "abc" does not parse |
| Classifier.CommaBecomesPoint | correct_dts_streamlit.py:58 | "7,5" is read as 7.5, which is positive |
| Classifier.PlainAmountsWork | correct_dts_streamlit.py:52-60 | "8" (no point) and "+.5" (leading plus, no whole digits) record work |
| Classifier.AmountExamples | correct_dts_streamlit.py:52-60 | "abc" records no work; "7,5" records work |
| Classifier.ClassifierExamples | correct_dts_streamlit.py:52-64 | an amount of "0" with no start time is dropped; a blank amount with a start time is kept; "abc" is dropped; "7,5" is kept |
| Classifier.IsPositive | correct_dts_streamlit.py:58 | definition of `> 0` on a parsed decimal: not negative and some digit is not zero |
| Classifier.ParsesPositive | correct_dts_streamlit.py:58 | definition of `float(...) > 0`, false when the parse fails |
| Classifier.Worked | correct_dts_streamlit.py:53-60 | definition of `worked`; WorkedIffPositive characterizes it |
| Classifier.HasStart | correct_dts_streamlit.py:62-63 | definition of `has_kezdes`: the cell is present and not blank after `strip()` |
| Classifier.WasWorking | correct_dts_streamlit.py:52-64 | definition of `was_working`: worked or has a start time; ClassifierExamples shows the cases |
| Classifier.Kept | correct_dts_streamlit.py:66-68 | the kept rows are exactly the input rows that were working |
| Classifier.Dropped | correct_dts_streamlit.py:66-67 | the dropped rows are exactly the input rows that were not working |
| Classifier.KeptDroppedPartition | correct_dts_streamlit.py:66-68 | kept and dropped rows hold every uploaded row exactly once (lengths and multisets), and each selection keeps upload order |
| Header.IsMarker | correct_dts_streamlit.py:30 | definition of the header test: the normalized text is `dátum`; UpperCaseMarker shows it |
| Header.FindHeaderRow | correct_dts_streamlit.py:27-34 | returns the first of the first 20 rows whose stripped, lower-cased column-A text is `dátum`; the error exactly when none is |
| Header.UpperCaseMarker | correct_dts_streamlit.py:30 | `" DÁTUM\t"` marks the header |
| Matching.Composite | correct_dts_streamlit.py:84-86 | definition of the composite score; its range is CompositeRange |
| Matching.TitleScore | correct_dts_streamlit.py:96 | definition of the blank-deal title score |
| Matching.CompositeRange | correct_dts_streamlit.py:84-86 | with scorers in 0..100 the composite score is in 0..100, and it is 100 exactly when both ratios are 100 |
| Matching.PrimaryScores | correct_dts_streamlit.py:83-86 | one composite score per roster entry |
| Matching.TitleScores | correct_dts_streamlit.py:95-96 | one title score per blank-deal entry |
| Matching.FirstMax | correct_dts_streamlit.py:87-89 | the replace-on-strictly-higher scan yields a position in the sequence |
| Matching.FirstMaxIsFirstMax | correct_dts_streamlit.py:87-89 | that position holds a maximal score, and every earlier score is strictly smaller |
| Matching.FirstMaxUnique | correct_dts_streamlit.py:87-89 | the first maximal position is unique, so it is the scan's result |
| Matching.Best | correct_dts_streamlit.py:87-90 | an accepted position is a position of the sequence |
| Matching.BestSpec | correct_dts_streamlit.py:87-90 | nothing is accepted exactly when every score is below 85; otherwise the first maximal score, which reaches 85 |
| Matching.PrimaryMatch | correct_dts_streamlit.py:79-90 | functional form of `find_best_match`; characterized by PrimaryMatchSpec and PrimaryMatchIsFirstBest, and equal to FindBestMatch |
| Matching.PrimaryMatchSpec | correct_dts_streamlit.py:79-90 | no primary match exactly when every composite score is below 85; a match is a roster entry scoring at least 85 |
| Matching.PrimaryMatchIsFirstBest | correct_dts_streamlit.py:79-90 | the earliest entry with the maximal composite score is chosen when that score reaches 85 (ties go to roster order) |
| Matching.ExactEntrySelected | correct_dts_streamlit.py:79-90 | with scorers in 0..100, an entry whose name ratio and title ratio are both 100 is the primary match unless an earlier entry also scores 100 |
| Matching.IsBlankDeal | correct_dts_streamlit.py:93 | definition of the blank-deal test: the SF number's `str()` starts with `BD` |
| Matching.BlankDeals | correct_dts_streamlit.py:93 | the blank-deal subset is exactly the roster entries whose SF number text starts with "BD" |
| Matching.BlankDealMatch | correct_dts_streamlit.py:92-101 | functional form of `match_blank_deal_title`; characterized by BlankDealMatchSpec and BlankDealMatchIsFirstBest, and equal to MatchBlankDealTitle |
| Matching.BlankDealMatchSpec | correct_dts_streamlit.py:92-101 | no fallback exactly when every blank-deal title score is below 85; a fallback comes from a blank-deal entry scoring at least 85 |
| Matching.BlankDealMatchIsFirstBest | correct_dts_streamlit.py:92-101 | the earliest blank-deal entry with the maximal title score is chosen when that score reaches 85 |
| Matching.FindBestMatch | correct_dts_streamlit.py:79-90 | the imperative scan returns the primary match specification |
| Matching.MatchBlankDealTitle | correct_dts_streamlit.py:92-101 | the imperative scan over the blank-deal rows returns the fallback specification |
| Reconcile.Label | correct_dts_streamlit.py:121-133 | the `Match result` text is "Same", "Changed" or "Blank Deal" |
| Reconcile.Differs | correct_dts_streamlit.py:121 | definition of Python's `!=` on cells: a missing value differs from everything |
| Reconcile.Truthy | correct_dts_streamlit.py:124 | definition of `if bd_title:`: a missing value is true, the empty text false |
| Reconcile.Resolve | correct_dts_streamlit.py:115-133 | functional form of one loop iteration; characterized by ResolveOutcomes, ResolvePrimary, ResolveBlankDeal and ResolveUnmatched, and equal to CorrectRow |
| Reconcile.ResolveOutcomes | correct_dts_streamlit.py:115-133 | Same keeps the row's name and title; Changed takes a roster entry that differs from the row; Blank Deal keeps the name, takes a truthy title with a "BD" SF number, and occurs only when no composite score reached 85 |
| Reconcile.ResolvePrimary | correct_dts_streamlit.py:115-121 | with a primary match, the row takes that entry's name, title and SF number; Changed exactly when one of them differs |
| Reconcile.ResolveBlankDeal | correct_dts_streamlit.py:122-133 | with no primary match but a fallback, the name is kept and the row is a Blank Deal when the fallback title is truthy; otherwise it is Same with an empty SF number |
| Reconcile.ResolveUnmatched | correct_dts_streamlit.py:129-133 | with neither match, the row is unchanged, Same, with an empty SF number |
| Reconcile.Append | correct_dts_streamlit.py:112-133 | every column grows by exactly one value per row |
| Reconcile.CorrectedBy | correct_dts_streamlit.py:104-133 | the six columns after the rows, each resolved by a given resolution function, appended in order; characterized by CorrectedAt and CorrectedConcat |
| Reconcile.Corrected | correct_dts_streamlit.py:104-133 | CorrectedBy with Resolve; equal to MatchAndCorrect, described row by row by CorrectedRow |
| Reconcile.CorrectedAt | correct_dts_streamlit.py:104-133 | every row yields exactly one value in each of the six columns, and position i of every column belongs to row i |
| Reconcile.CorrectedRow | correct_dts_streamlit.py:110-133 | position i of the columns holds row i's original name and title and its resolution against the roster |
| Reconcile.CorrectedConcat | correct_dts_streamlit.py:110 | the columns for two batches of rows are the first batch's columns followed by the second's: nothing reordered or merged |
| Reconcile.EveryRowAccounted | correct_dts_streamlit.py:66-68 | the result columns have one entry per kept row, and kept plus dropped rows are all uploaded rows |
| Reconcile.CorrectRow | correct_dts_streamlit.py:115-133 | one iteration's appended values are the row's resolution |
| Reconcile.MatchAndCorrect | correct_dts_streamlit.py:104-133 | the loop's six columns are the per-row resolutions of all rows, in order |

## Left out

- The Streamlit page, file uploads, the spinner and warnings, and the Excel
  output with its table styling and in-memory download are not modelled.
  These are I/O.
- Reading the CSV and the Excel files with pandas/openpyxl is not modelled.
  The model takes the roster and the rows as sequences of cells, and column A
  of a sheet as a sequence of cells.
- The per-file loop (`correct_dts_streamlit.py:41-49`) is not modelled, nor
  is the warning for a file that cannot be loaded. The model starts from the
  concatenated rows.
- The check that the roster has the three required columns
  (`correct_dts_streamlit.py:22`) is not modelled. It is a schema assertion
  on the file.
- The second computation of the keep/drop mask
  (`correct_dts_streamlit.py:71-73`) is not modelled separately. It repeats
  the first on the same rows and gives the same result.
- A missing `Dolgozott` or `Kezdés` column is not modelled separately. It
  behaves like a missing cell (`row.get(..., None)`), which is modelled.
- Non-text cells (numbers, dates, times) are represented by the text of
  their `str()`. This loses the type at two places. At
  `correct_dts_streamlit.py:121`, Python's `!=` tells a number 1 from the
  text "1", but `Reconcile.Differs(Some("1"), Some("1"))` is false. At
  `correct_dts_streamlit.py:124`, `if bd_title:` is false for a numeric 0, but
  `Reconcile.Truthy(Some("0"))` is true.
- The rapidfuzz `token_set_ratio` and `token_sort_ratio` are parameters; their
  code is not part of this model.
- IEEE floating-point rounding of `0.7 * a + 0.3 * b` is not modelled.
  Scores are exact reals.
- Classifier.ParseDecimal: models `float()` only for an optional sign
  followed by digits with at most one point. Python also accepts exponents,
  `inf`, `nan`, underscores between digits and non-ASCII digits; those texts
  are treated as not numbers.
- Classifier.ParsesPositive: does not model `float()` rounding. A decimal
  smaller than the smallest double, such as "0." followed by 400 zeros and a
  "1", becomes 0.0 in Python, so the row is not worked; the model calls it
  positive.
- Text.LowerChar: lower-cases only ASCII, the Latin-1 capitals and the
  Hungarian `Ő`/`Ű`, not Python's full Unicode case mapping. Python's
  `lower()` can also lengthen a text (`"İ"`, U+0130, becomes two
  characters); the model's `Lower` always keeps the length.
