# Survey rank-order: a verified model of the ranking core

The program reads an exported survey table, turns every answer column it
can read as a rating into numbers, and ranks those columns by their mean
score. This project models that core from `src/rank_order.py` in Dafny and
proves properties of it:

- **relevance filter** (`relevance.dfy`, `should_ignore_column`): a column
  is skipped when its lower-cased, stripped name contains one of thirteen
  metadata keywords (`timestamp`, `email`, `id`, …);
- **text normaliser** (`coercion.dfy`, `normalize_text_series`): strip,
  lower-case, and read `nan`, `none` and the empty string as missing;
- **numeric coercion engine** (`coercion.dfy`, `convert_series_to_numeric`):
  a cascade of three strategies. A direct numeric parse is used when at
  least half the rows parse. Otherwise the Likert vocabulary is tried. When
  the vocabulary reads under 30% of the rows, a leading-number extraction
  replaces it if it reads strictly more rows. `decimals.dfy` holds the
  parse and the extraction on cell text;
- **plausibility filter** (`plausibility.dfy`, `is_reasonable_rating`): a
  column needs a value, two different values, and every value in [0, 10];
- **ranking builder** (`ranking.dfy`, `build_ranking`): a loop over the
  columns collects one row (item, mean score, n) per column that passes
  every filter and has at least `MIN_N = 5` values. The rows are sorted by
  mean descending, then n descending, then item name ascending, and ranked
  1, 2, …. When no column survives, the builder fails.

`strings.dfy` models the Python string operations the core uses: `lower`,
`strip`, substring `in` and `<`. `series.dfy` models the pandas reductions
the core applies to a column: `dropna`, `notna().sum()`, `mean`, `min`,
`max` and `nunique`.

Three details of the code that the model keeps:

- The 50% threshold of the direct parse counts parsed rows against all
  rows, missing ones included (`notna().mean()`), not against non-empty
  rows only.
- Ranks are the row positions plus one (`index + 1`): every row gets a
  different rank, so ranks are ordinal, not dense.
- An empty column gives a ratio of NaN, and every comparison with NaN is
  false. So an empty column takes the vocabulary result.

## Model

| member | source | states |
|---|---|---|
| Ranking.BuildRanking | src/rank_order.py:160-194 | Fails exactly when no column survives. Otherwise the ranking holds exactly the surviving columns' rows, as a permutation, sorted by mean desc, n desc, item asc, with rank j+1 at position j. The loop invariant is that the collected rows are the survivors of the columns seen so far. |
| Ranking.RowFor | src/rank_order.py:163-181 | A column yields a row exactly when its name is not ignored, its coerced values are a plausible rating and at least MinN are present. The row carries the column name, that count, and a mean within [0, 10]. |
| Ranking.Collect | src/rank_order.py:161-181 | The rows the append loop collects, in column order, never more than the columns. |
| Ranking.Survivors | src/rank_order.py:163-181 | The rows of the surviving columns, never more than the columns. |
| Ranking.SurvivorsMembers | src/rank_order.py:162-181 | A row is collected exactly when some column of the table yields it. |
| Ranking.SurvivorsConcat | src/rank_order.py:162-181 | Columns are handled independently: the rows of a table split in two are the rows of each part, in order. |
| Ranking.CollectConcat | src/rank_order.py:162-181 | The append loop over a concatenation is the concatenation of the two loops. |
| Ranking.CollectMembers | src/rank_order.py:162-181 | A value is appended exactly when some column yields it. |
| Ranking.CollectSkips | src/rank_order.py:162-181 | A column that yields nothing can be removed without changing the collected rows. |
| Ranking.FewValuesSkipped | src/rank_order.py:171-173 | A column with fewer than MIN_N = 5 readable values yields no row. |
| Ranking.FlagColumnRanked | src/rank_order.py:160-181 | A True/False column holding both values, with at least MIN_N rows and a name no keyword matches, is ranked: n is its row count and its mean score is its share of True. |
| Ranking.MinN | src/rank_order.py:15 | MIN_N = 5. |
| Ranking.IgnoredColumnSkipped | src/rank_order.py:164-165 | A column with an ignored name is skipped whatever its cells hold. |
| Ranking.RankedRowAdmissible | src/rank_order.py:163-181 | Every row of a ranking the builder returns is admitted by some column of the table: the column has the row's item as its name, the name is not ignored, and the coerced values are a plausible rating with n >= 5 present. The row's n is that count, and its mean is the column's mean, inside [0, 10]. |
| Ranking.SurvivorAdmitted | src/rank_order.py:163-181 | Every surviving row is admitted by some column of the table. |
| Ranking.CollectStep | src/rank_order.py:162-181 | One more column appends its row when it yields one, and leaves the rows as they were otherwise. |
| Ranking.Insert | src/rank_order.py:187-191 | Inserting into a sorted run keeps it sorted and adds exactly the one row. |
| Ranking.InsertInFront | src/rank_order.py:187-191 | A row that precedes the head of a sorted run can go in front of the whole run. |
| Ranking.InsertBehind | src/rank_order.py:187-191 | A row that does not precede the head goes behind it, and the run stays sorted. |
| Ranking.SortRows | src/rank_order.py:187-191 | The result is sorted by mean desc, n desc, item asc, and is a permutation of the input. |
| Ranking.SortedUnique | src/rank_order.py:187-191 | Two sorted permutations of the same rows are equal, so the ranking is deterministic. |
| Ranking.SortedHeadsAgree | src/rank_order.py:187-191 | Two sorted permutations of the same rows begin with the same row. |
| Ranking.AssignRanks | src/rank_order.py:192 | The rows keep their values and their order, and the row at position j gets rank j+1. |
| Ranking.TieBrokenByName | src/rank_order.py:187-192 | When two rows tie on mean and n, the one whose item name sorts first gets the lower rank number. |
| Ranking.Precedes | src/rank_order.py:187-191 | The sort key: mean descending, then n descending, then item ascending; the lemmas below show it is a strict total order. |
| Ranking.PrecedesTotal | src/rank_order.py:187-191 | Any two different rows are ordered one way or the other. |
| Ranking.PrecedesTransitive | src/rank_order.py:187-191 | The ranking order is transitive. |
| Ranking.PrecedesAsymmetric | src/rank_order.py:187-191 | The ranking order is asymmetric. |
| Ranking.PrecedesIrreflexive | src/rank_order.py:187-191 | No row precedes itself. |
| Ranking.InOrderTransitive | src/rank_order.py:187-191 | The non-strict ranking order is transitive. |
| Ranking.InOrderAntisymmetric | src/rank_order.py:187-191 | Rows ordered both ways are equal. |
| Ranking.SortedCons | src/rank_order.py:187-191 | A row that precedes or equals every row of a sorted run can go in front of it. |
| Ranking.TailMultiset | src/rank_order.py:187-191 | Dropping the first row removes exactly that row from the multiset. |
| Relevance.ShouldIgnoreColumn | src/rank_order.py:109-111 | Whether a column name is ignored; its meaning (some keyword occurs in the lower-cased name) is proved in ShouldIgnoreIff. |
| Relevance.ShouldIgnoreIff | src/rank_order.py:109-111 | A name is ignored exactly when some keyword occurs somewhere in the lower-cased name: stripping never changes the outcome. |
| Relevance.IgnoreIsCaseAndPaddingInsensitive | src/rank_order.py:109-111 | Names that lower-case alike, padded with any whitespace, are treated alike. |
| Relevance.IgnoreKeywords | src/rank_order.py:18-32 | The thirteen keywords of IGNORE_COL_KEYWORDS. |
| Relevance.KeywordsAreWords | src/rank_order.py:18-32 | Every keyword is non-empty and starts and ends with a non-space character. |
| Relevance.RespondentEmailIgnored | src/rank_order.py:18-32 | "Respondent Email" is ignored. |
| Relevance.StudentIdIgnored | src/rank_order.py:18-32 | "Student ID" is ignored, through the keyword "id". |
| Coercion.CellText | src/rank_order.py:116 | `astype(str)` of a cell: a missing cell renders as "nan", a boolean as "True" or "False", a text as itself. |
| Coercion.NormalizeCell | src/rank_order.py:114-120 | A normalised cell is missing, or a non-empty, stripped, lower-case text other than "nan" and "none". |
| Coercion.NormalizePadded | src/rank_order.py:114-120 | The normaliser's value on every text: a stripped text with any whitespace around it becomes that text lower-cased, or missing when that is empty, "nan" or "none". |
| Coercion.NormalizeText | src/rank_order.py:114-120 | Normalising keeps the column's length. |
| Coercion.NormalizeIdempotent | src/rank_order.py:114-120 | Normalising a normalised text gives that text back. |
| Coercion.MissingNormalized | src/rank_order.py:114-120 | A missing cell (rendered "nan") normalises to missing. |
| Coercion.BlankNormalized | src/rank_order.py:114-120 | An empty or all-whitespace cell normalises to missing. |
| Coercion.MarkerNormalized | src/rank_order.py:114-120 | "nan" and "none", in any case and with any padding, normalise to missing. |
| Coercion.Coerce | src/rank_order.py:123-141 | The result is one whole strategy's column and keeps the column's length. A column where at least half the rows parse is returned as parsed. Otherwise the extraction is returned exactly when the vocabulary reads under 30% of the rows and the extraction reads strictly more rows than the vocabulary, and the vocabulary column in every other case; the result then reads at least as many rows as the vocabulary, and every value in it is >= 0. |
| Coercion.LikertColumnNonNegative | src/rank_order.py:130-131 | The vocabulary strategy never yields a negative value. |
| Coercion.ExtractColumnNonNegative | src/rank_order.py:134-137 | The extraction strategy never yields a negative value. |
| Coercion.LikertLookup | src/rank_order.py:130-131 | Every vocabulary hit is a scale point from 1 to 5. |
| Coercion.LikertScale | src/rank_order.py:34-55 | The twenty phrases of LIKERT_MAP and their points. |
| Coercion.LikertScaleRange | src/rank_order.py:34-55 | Every vocabulary value lies between 1 and 5. |
| Coercion.LikertKeysAreWords | src/rank_order.py:34-55 | Every phrase is non-empty, stripped and starts with a non-digit, and neither "nan" nor "none" is a phrase. |
| Coercion.PhraseGroups | src/rank_order.py:34-55 | Each of the four groups of the table holds phrases scored 1 to 5. |
| Coercion.AgreementPhrases | src/rank_order.py:35-42 | The agreement phrases are phrases scored 1 to 5. |
| Coercion.SatisfactionPhrases | src/rank_order.py:43-47 | The satisfaction phrases are phrases scored 1 to 5. |
| Coercion.QualityPhrases | src/rank_order.py:48-52 | The quality phrases are phrases scored 1 to 5. |
| Coercion.LikertKeyIsPhrase | src/rank_order.py:34-55 | Every key of the table is a phrase. |
| Coercion.LikertIgnoresCaseAndPadding | src/rank_order.py:114-120 | Any spelling of a phrase that lower-cases to it, with any whitespace around it, maps to the phrase's point. |
| Coercion.PhraseSpelling | src/rank_order.py:114-120 | Any spelling of a phrase that lower-cases to it, with any whitespace around it, normalises to the phrase. |
| Coercion.LikertColumnOnScale | src/rank_order.py:130-131 | Every row the vocabulary reads is a point from 1 to 5. |
| Coercion.ParseCell | src/rank_order.py:125 | The direct parse of one cell: a missing cell stays missing and a boolean reads as 1 or 0. |
| Coercion.ExtractCell | src/rank_order.py:136 | The extraction of one normalised cell: a missing cell stays missing. |
| Coercion.MostlyNumeric | src/rank_order.py:126-127 | At least half of all rows, missing ones included, parse; false on an empty column. |
| Coercion.VocabularyFails | src/rank_order.py:132-135 | The vocabulary reads under 30% of all rows; false on an empty column. |
| Coercion.DirectParse | src/rank_order.py:125 | The direct parse keeps the column's length. |
| Coercion.LikertColumn | src/rank_order.py:130-131 | The vocabulary strategy keeps the column's length. |
| Coercion.ExtractColumn | src/rank_order.py:134-137 | The extraction strategy keeps the column's length. |
| Coercion.FlagsParseDirectly | src/rank_order.py:125-128 | A non-empty column of booleans is coerced by the direct parse, True to 1 and False to 0. |
| Coercion.FlagSum | src/rank_order.py:125 | The parsed values of a boolean column add up to its number of True cells (TrueCount). |
| Coercion.WholeNumbersParseDirectly | src/rank_order.py:125-128 | A column of whole numbers written as text is coerced to those numbers by the direct parse. |
| Coercion.NormalizeComposite | src/rank_order.py:114-120 | A label such as "5 - Strongly Agree" normalises to its digits followed by the lower-cased tail. |
| Coercion.CompositeCell | src/rank_order.py:123-141 | Such a label has no direct parse and is no vocabulary phrase, and its leading number is extracted. |
| Coercion.CompositeNoParse | src/rank_order.py:125 | A composite label does not parse directly. |
| Coercion.CompositeNotPhrase | src/rank_order.py:130 | A text that starts with a digit is never a vocabulary phrase. |
| Coercion.CompositeExtracted | src/rank_order.py:136 | The leading number of a normalised composite label is extracted. |
| Coercion.CompositeRows | src/rank_order.py:123-141 | Row by row over a column of such labels: no direct parse, no vocabulary hit, and the leading number extracted. |
| Coercion.CompositeLabelsExtracted | src/rank_order.py:123-141 | A column of such labels falls through to extraction and yields their leading numbers. |
| Coercion.ExtractionChosen | src/rank_order.py:133-139 | When neither the parse nor the vocabulary reads any row and extraction reads one, extraction is the result. |
| Decimals.ParseNumber | src/rank_order.py:125 | The direct parse of one text; ParseDecimalString and ExtractAgreesWithParse state what it reads. |
| Decimals.ParseDecimalString | src/rank_order.py:125 | The text of a whole number parses directly to that number. |
| Decimals.NatValueOfDecimalString | src/rank_order.py:125 | Reading back the decimal digits of n gives n. |
| Decimals.ExtractLeadingNumber | src/rank_order.py:136 | An extracted number is never negative: the pattern has no sign. Its value on every shape of text (whole number, decimal, number ending in a point, no number), after any leading whitespace, is stated by ExtractAfterWhole, ExtractAfterDecimal, ExtractAfterPoint and ExtractWithoutNumber. |
| Decimals.LeadingNumber | src/rank_order.py:136 | The number read after the leading whitespace is never negative. |
| Decimals.ExtractAfterWhole | src/rank_order.py:136 | Whitespace and a digit run followed by neither a digit nor a point are read as that whole number, leading zeros included ("  05 - agree" reads as 5). |
| Decimals.ExtractAfterNumber | src/rank_order.py:136 | The leading whole number of a text is extracted whatever non-digit, non-point text follows it. |
| Decimals.ExtractAfterDecimal | src/rank_order.py:136 | Whitespace, a digit run, a point and a second digit run are read as that integer plus that fraction, whatever non-digit text follows. |
| Decimals.ExtractAfterPoint | src/rank_order.py:136 | A point not followed by a digit ends the number: the integer before it is read alone. |
| Decimals.ExtractWithoutNumber | src/rank_order.py:136 | A text whose first non-blank character is not a digit holds no leading number. |
| Decimals.FractionalLabelExtracted | src/rank_order.py:134-136 | "4.5 - good" reads as 4.5. |
| Decimals.ExtractAgreesWithParse | src/rank_order.py:125-136 | On a stripped text that begins with a digit and parses, extraction gives the parsed number. |
| Decimals.NatValue | src/rank_order.py:136 | The value of a digit string, most significant digit first; NatValueOfDecimalString shows it reads back `str(n)`. |
| Decimals.DigitRun | src/rank_order.py:136 | The greedy digit run is all digits and stops at a non-digit or at the end. |
| Decimals.DigitRunConcat | src/rank_order.py:136 | The digit run of digits followed by a non-digit ends at the digits' end. |
| Decimals.AllDigitsRun | src/rank_order.py:136 | The digit run of an all-digit text is the whole text. |
| Decimals.FracValue | src/rank_order.py:136 | A fractional part lies in [0, 1). |
| Decimals.DecimalString | src/rank_order.py:125 | The decimal text of a number is non-empty and all digits. |
| Plausibility.IsReasonableRating | src/rank_order.py:144-157 | The three checks in the source's order; what they amount to is proved in ReasonableRatingIff. |
| Plausibility.RatingFloor | src/rank_order.py:154 | The lower bound 0 of a rating. |
| Plausibility.RatingCeiling | src/rank_order.py:154 | The upper bound 10 of a rating. |
| Plausibility.ReasonableRatingIff | src/rank_order.py:144-157 | A column passes exactly when it has a value, two different values, and no value outside [0, 10]. |
| Plausibility.HasValueIff | src/rank_order.py:145-147 | dropna() is non-empty exactly when some row holds a value. |
| Plausibility.VariesIff | src/rank_order.py:149-151 | nunique() >= 2 exactly when two rows hold different values. |
| Plausibility.BoundedIff | src/rank_order.py:153-155 | min() >= 0 and max() <= 10 exactly when every value lies in [0, 10]. |
| Plausibility.ReasonableMeanBounded | src/rank_order.py:144-157 | A plausible column has a value, and its mean lies in [0, 10]. |
| Plausibility.ConstantColumnRejected | src/rank_order.py:149-151 | A column whose values are all equal is rejected. |
| Plausibility.OutOfRangeRejected | src/rank_order.py:153-155 | One value below 0 or above 10 rejects the column. |
| Series.Present | src/rank_order.py:145 | dropna() keeps at most as many values as there are rows; PresentMembers states which. |
| Series.Count | src/rank_order.py:171 | notna().sum() is at most the number of rows. |
| Series.Mean | src/rank_order.py:178 | mean() of the present values; MeanWithin bounds it. |
| Series.PresentMembers | src/rank_order.py:145 | The values kept by dropna are exactly the values held by some row. |
| Series.MeanWithin | src/rank_order.py:178 | The mean of a column lies between bounds of its values. |
| Series.SumBounds | src/rank_order.py:178 | Values inside [lo, hi] add up to between lo and hi times their number. |
| Series.TwoDistinct | src/rank_order.py:149-151 | nunique() >= 2 exactly when two positions hold different values. |
| Series.CountAllPresent | src/rank_order.py:126 | A column with a value in every row counts all its rows. |
| Series.CountNonePresent | src/rank_order.py:126 | A column with no value counts nothing. |
| Series.Sum | src/rank_order.py:178 | The sum inside `mean()`; SumBounds bounds it. |
| Series.Distinct | src/rank_order.py:149 | `nunique()` as the set of values; TwoDistinct states when it has two elements. |
| Series.MinOf | src/rank_order.py:153 | min() is a value of the column and no larger than any of them. |
| Series.MaxOf | src/rank_order.py:153 | max() is a value of the column and no smaller than any of them. |
| Strings.IsSpace | src/rank_order.py:117 | The whitespace set `strip()` and `\s` remove: space, \t to \r, and \x1c to \x1f. |
| Strings.Lower | src/rank_order.py:110 | lower() keeps the length and leaves no upper-case letter. |
| Strings.Contains | src/rank_order.py:111 | `keyword in lowered` holds only when the keyword is no longer than the name; ContainsIff states it exactly. |
| Strings.StrLess | src/rank_order.py:187-191 | Python's `<` on item names; the lemmas below show it is a strict total order. |
| Strings.Strip | src/rank_order.py:110 | strip() leaves no whitespace at either end. |
| Strings.StripSplits | src/rank_order.py:117 | Every text is its stripped core with whitespace on either side. |
| Strings.LeadingSpaceDropped | src/rank_order.py:117 | What strip() drops at the front is whitespace. |
| Strings.TrailingSpaceDropped | src/rank_order.py:117 | What strip() drops at the back is whitespace. |
| Strings.StripIsSlice | src/rank_order.py:117 | What strip() keeps is the slice between the two cuts. |
| Strings.TrimStart | src/rank_order.py:136 | The leading `\s*` drops exactly the longest all-whitespace prefix. |
| Strings.TrimEnd | src/rank_order.py:110 | rstrip drops exactly the longest all-whitespace suffix. |
| Strings.ContainsIff | src/rank_order.py:111 | `keyword in lowered` holds exactly when the keyword occurs at some position. |
| Strings.ShiftOccurrence | src/rank_order.py:111 | An occurrence at position i >= 1 is one at i - 1 after the first character. |
| Strings.StripKeepsOccurrence | src/rank_order.py:110-111 | Stripping keeps every occurrence of a word with non-space ends. |
| Strings.TrimStartKeepsOccurrence | src/rank_order.py:110 | Dropping leading whitespace keeps an occurrence of a word that starts with a non-space. |
| Strings.TrimEndKeepsOccurrence | src/rank_order.py:110 | Dropping trailing whitespace keeps an occurrence of a word that ends with a non-space. |
| Strings.OccursInStripped | src/rank_order.py:110-111 | An occurrence in the stripped name is an occurrence in the name. |
| Strings.OccursInPrefix | src/rank_order.py:110-111 | An occurrence in a prefix is an occurrence in the whole. |
| Strings.OccursInSuffix | src/rank_order.py:110-111 | An occurrence in a suffix is an occurrence in the whole, shifted by the suffix's start. |
| Strings.StripPadded | src/rank_order.py:110 | strip() removes exactly the whitespace padded around a stripped text. |
| Strings.StripOfStripped | src/rank_order.py:110 | strip() leaves a stripped text unchanged. |
| Strings.LowerIdempotent | src/rank_order.py:118 | Lower-casing twice is lower-casing once. |
| Strings.LowerKeepsStripped | src/rank_order.py:117-118 | Lower-casing keeps a stripped text stripped. |
| Strings.StrLessTotal | src/rank_order.py:187-191 | Two different item names are ordered one way or the other. |
| Strings.StrLessTransitive | src/rank_order.py:187-191 | The order on item names is transitive. |
| Strings.StrLessAsymmetric | src/rank_order.py:187-191 | The order on item names is asymmetric. |
| Strings.StrLessIrreflexive | src/rank_order.py:187-191 | No name sorts before itself. |

## Left out

- Finding, loading and choosing the input (`find_dataset`, `load_dataset`, `choose_sheet`), writing the CSV, plotting (`plot_ranking`), `main` and `src/preview.py`: file and console I/O around the core. The table reaches `Ranking.BuildRanking` as a parameter.
- Floating point: scores and means are exact `real`s, so rounding in `mean()` and in parsing is not modelled.
- Decimals.ParseNumber: `pd.to_numeric` is modelled on a plain decimal grammar (whitespace, an optional sign, digits with an optional fraction). Exponents, `inf`, `nan`, thousands separators and non-ASCII digits are not read.
- Strings.Lower, Strings.Strip: lower-casing covers ASCII letters only, and whitespace is the ASCII set Python's `isspace` accepts. Unicode case mapping and Unicode spaces are not modelled.
- Coercion.Cell: a cell is modelled by the text `astype(str)` gives it, except that a missing cell (NaN or None) is `Missing` and renders as "nan", and a boolean is `Flag`, renders as "True" or "False" and parses as 1 or 0. Which columns pandas reads as booleans (a column of only True/False, possibly with blanks) is a matter of the file reader, not modelled: the model takes whatever cells it is given. Numeric cells are assumed to arrive as their text, so their formatting by pandas (`5.0`, `<NA>`, `None` spelled with a capital) is not modelled. The direct parse of a missing cell is missing.
- Ranking.Column: column names are strings, so `str(col)` on a non-string column label is not modelled. Duplicate column labels, for which pandas returns a frame rather than a column, are left out.
- Ranking.SortRows: the stable multi-key `mergesort` is modelled as a stable insertion sort. Because the sort key covers the whole row, every sorted permutation is the same one (`Ranking.SortedUnique`), so the choice of stable algorithm does not change the result. The ranking is built on values, not on a data frame updated in place.
- Ranking.BuildRanking: the error is the value `NoRatingColumnsDetected` rather than a raised `ValueError` carrying a message.
