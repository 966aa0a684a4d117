/** The text normaliser and the numeric coercion engine: one column of raw
    cells becomes one column of optional reals by exactly one of three
    strategies, tried in order (direct numeric parse, Likert vocabulary,
    leading-number extraction). */
module Coercion {
  import opened Results
  import opened Strings
  import opened Decimals
  import opened Series

  /** A raw cell: missing (NaN or None), a boolean (a column of
      True/False is read into bools), or any other value by its textual
      form (what `astype(str)` renders). */
  datatype Cell = Missing | Text(s: string) | Flag(b: bool)

  /** LIKERT_MAP: survey phrases and their points on a 1-5 scale. The
      program keeps them in one table; the model assembles that table from
      the four groups it lists them in (agreement, satisfaction, quality,
      preference) only so that facts about the phrases can be checked one
      group at a time. */
  const LikertScale: map<string, nat> :=
    AgreementScale + SatisfactionScale + QualityScale + PreferenceScale

  const AgreementScale: map<string, nat> := map[
    "strongly disagree" := 1,
    "disagree" := 2,
    "somewhat disagree" := 2,
    "neutral" := 3,
    "neither agree nor disagree" := 3,
    "somewhat agree" := 4,
    "agree" := 4,
    "strongly agree" := 5
  ]

  const SatisfactionScale: map<string, nat> := map[
    "very dissatisfied" := 1,
    "dissatisfied" := 2,
    "neither satisfied nor dissatisfied" := 3,
    "satisfied" := 4,
    "very satisfied" := 5
  ]

  const QualityScale: map<string, nat> := map[
    "poor" := 1,
    "fair" := 2,
    "good" := 3,
    "very good" := 4,
    "excellent" := 5
  ]

  const PreferenceScale: map<string, nat> := map[
    "least preferred" := 1,
    "most preferred" := 5
  ]

  /** `astype(str)` of a cell: a missing cell renders as "nan", a boolean
      as "True" or "False". */
  function CellText(c: Cell): string {
    match c
    case Missing => "nan"
    case Text(s) => s
    case Flag(b) => if b then "True" else "False"
  }

  /** normalize_text_series on one cell: strip, lower-case, and treat
      "nan", "none" and the empty string as missing. What is left is a
      non-empty, stripped, lower-case text other than those three. */
  function NormalizeCell(c: Cell): (r: Option<string>)
    ensures r.Some? ==> r.value != [] && Stripped(r.value) && Lower(r.value) == r.value
    ensures r.Some? ==> r.value != "nan" && r.value != "none"
  {
    var t := Lower(Strip(CellText(c)));
    LowerKeepsStripped(Strip(CellText(c)));
    LowerIdempotent(Strip(CellText(c)));
    if t == "nan" || t == "none" || t == "" then None else Some(t)
  }

  /** normalize_text_series: the same rows, each normalised in place. */
  function NormalizeText(col: seq<Cell>): (r: seq<Option<string>>)
    ensures |r| == |col|
  {
    seq(|col|, i requires 0 <= i < |col| => NormalizeCell(col[i]))
  }

  /** Normalising is idempotent: a normalised text normalises to itself. */
  lemma NormalizeIdempotent(c: Cell)
    ensures NormalizeCell(c).Some? ==>
      NormalizeCell(Text(NormalizeCell(c).value)) == NormalizeCell(c)
  {
    if NormalizeCell(c).Some? {
      StripOfStripped(NormalizeCell(c).value);
    }
  }

  /** The value of the normaliser on any text: a stripped text `s` padded
      with whitespace normalises to `s` lower-cased, or to missing when that
      is empty, "nan" or "none". Every text splits this way
      (`StripSplits`). */
  lemma NormalizePadded(s: string, p: string, q: string)
    requires Stripped(s) && AllSpace(p) && AllSpace(q)
    ensures NormalizeCell(Text(p + s + q)) ==
      if Lower(s) in {"", "nan", "none"} then None else Some(Lower(s))
  {
    StripPadded(p, s, q);
    assert Strip(CellText(Text(p + s + q))) == s;
  }

  /** A missing cell normalises to missing. */
  lemma MissingNormalized()
    ensures NormalizeCell(Missing).None?
  {
    var text := CellText(Missing);
    assert text == "nan" && Stripped(text);
    StripOfStripped(text);
    assert Lower(text) == text by {
      forall i | 0 <= i < |text| ensures LowerChar(text[i]) == text[i] {
      }
    }
  }

  /** A blank cell normalises to missing. */
  lemma BlankNormalized(p: string)
    requires AllSpace(p)
    ensures NormalizeCell(Text(p)).None?
  {
    TrimStartPadded(p, []);
    assert p + [] == p;
    assert Strip(p) == [];
    assert Lower([]) == [];
  }

  /** A cell spelling "nan" or "none", in any case and with any padding,
      normalises to missing. */
  lemma MarkerNormalized(s: string, p: string, q: string)
    requires Lower(s) == "nan" || Lower(s) == "none"
    requires AllSpace(p) && AllSpace(q)
    ensures NormalizeCell(Text(p + s + q)).None?
  {
    var k := Lower(s);
    assert |s| == |k| && k[0] == 'n' && k[|k| - 1] != ' ';
    assert Stripped(s) by {
      assert k[0] == LowerChar(s[0]) && k[|k| - 1] == LowerChar(s[|s| - 1]);
      LowerCharKeepsSpace(s[0]);
      LowerCharKeepsSpace(s[|s| - 1]);
    }
    StripPadded(p, s, q);
  }

  /** `pd.to_numeric(errors="coerce")` on one cell; a boolean counts as
      the number 1 or 0. */
  function ParseCell(c: Cell): Option<real> {
    match c
    case Missing => None
    case Text(s) => ParseNumber(s)
    case Flag(b) => Some(FlagValue(b))
  }

  /** The number a boolean stands for. */
  function FlagValue(b: bool): real {
    if b then 1.0 else 0.0
  }

  /** `LIKERT_MAP` lookup of a normalised text; every hit is a scale
      point from 1 to 5. */
  function LikertLookup(t: Option<string>): (r: Option<real>)
    ensures r.Some? ==> r.value in {1.0, 2.0, 3.0, 4.0, 5.0}
  {
    match t
    case None => None
    case Some(k) =>
      if k in LikertScale then
        LikertScaleRange(k);
        Some(LikertScale[k] as real)
      else None
  }

  /** The leading-number extraction of one normalised text. */
  function ExtractCell(t: Option<string>): Option<real> {
    match t
    case None => None
    case Some(s) => ExtractLeadingNumber(s)
  }

  /** Strategy 1: the direct numeric parse of every row. */
  function DirectParse(col: seq<Cell>): (r: seq<Option<real>>)
    ensures |r| == |col|
  {
    seq(|col|, i requires 0 <= i < |col| => ParseCell(col[i]))
  }

  /** Strategy 2: the vocabulary lookup of every normalised row. */
  function LikertColumn(col: seq<Cell>): (r: seq<Option<real>>)
    ensures |r| == |col|
  {
    var text := NormalizeText(col);
    seq(|col|, i requires 0 <= i < |col| => LikertLookup(text[i]))
  }

  /** Strategy 3: the leading number of every normalised row. */
  function ExtractColumn(col: seq<Cell>): (r: seq<Option<real>>)
    ensures |r| == |col|
  {
    var text := NormalizeText(col);
    seq(|col|, i requires 0 <= i < |col| => ExtractCell(text[i]))
  }

  /** `valid_ratio >= 0.5`. For an empty column pandas' ratio is NaN and
      the comparison is false. */
  predicate MostlyNumeric(col: seq<Cell>) {
    |col| > 0 && 2 * Count(DirectParse(col)) >= |col|
  }

  /** `mapped_ratio < 0.3`, false on an empty column for the same reason. */
  predicate VocabularyFails(col: seq<Cell>) {
    |col| > 0 && 10 * Count(LikertColumn(col)) < 3 * |col|
  }

  /** convert_series_to_numeric. The result is one whole strategy's
      column, never a blend; a mostly numeric column is taken as parsed;
      otherwise extraction replaces the vocabulary exactly when the
      vocabulary reads under 30% of the rows and extraction reads strictly
      more of them; the result then never reads fewer rows than the
      vocabulary and holds no negative value. */
  function Coerce(col: seq<Cell>): (r: seq<Option<real>>)
    ensures |r| == |col|
    ensures r == DirectParse(col) || r == LikertColumn(col) || r == ExtractColumn(col)
    ensures MostlyNumeric(col) ==> r == DirectParse(col)
    ensures !MostlyNumeric(col) ==>
      (if VocabularyFails(col) && Count(ExtractColumn(col)) > Count(LikertColumn(col))
       then r == ExtractColumn(col)
       else r == LikertColumn(col))
    ensures !MostlyNumeric(col) ==> Count(r) >= Count(LikertColumn(col))
    ensures !MostlyNumeric(col) ==> NonNegative(r)
  {
    var numeric := DirectParse(col);
    if MostlyNumeric(col) then
      numeric
    else
      var mapped := LikertColumn(col);
      LikertColumnNonNegative(col);
      if VocabularyFails(col) then
        var extracted := ExtractColumn(col);
        ExtractColumnNonNegative(col);
        if Count(extracted) > Count(mapped) then extracted else mapped
      else
        mapped
  }

  /** No row holds a negative value. */
  predicate NonNegative(col: seq<Option<real>>) {
    forall i | 0 <= i < |col| && col[i].Some? :: col[i].value >= 0.0
  }

  lemma LikertColumnNonNegative(col: seq<Cell>)
    ensures NonNegative(LikertColumn(col))
  {
    var mapped := LikertColumn(col);
    forall i | 0 <= i < |mapped| && mapped[i].Some? ensures mapped[i].value >= 0.0 {
      LikertColumnOnScale(col, i);
    }
  }

  lemma ExtractColumnNonNegative(col: seq<Cell>)
    ensures NonNegative(ExtractColumn(col))
  {
    var extracted := ExtractColumn(col);
    var text := NormalizeText(col);
    forall i | 0 <= i < |extracted| && extracted[i].Some? ensures extracted[i].value >= 0.0 {
      assert extracted[i] == ExtractCell(text[i]);
    }
  }

  // ---------------------------------------------------------------------
  // The vocabulary

  lemma LikertScaleRange(k: string)
    requires k in LikertScale
    ensures 1 <= LikertScale[k] <= 5
  {
    PhraseGroups();
  }

  /** A vocabulary key: non-empty, stripped, starting with a non-digit,
      and neither missing marker. */
  predicate Phrase(k: string) {
    k != [] && Stripped(k) && !IsDigit(k[0]) && k != "nan" && k != "none"
  }

  /** Every group holds phrases scored 1 to 5. */
  lemma PhraseGroups()
    ensures forall k | k in AgreementScale :: Phrase(k) && 1 <= AgreementScale[k] <= 5
    ensures forall k | k in SatisfactionScale :: Phrase(k) && 1 <= SatisfactionScale[k] <= 5
    ensures forall k | k in QualityScale :: Phrase(k) && 1 <= QualityScale[k] <= 5
    ensures forall k | k in PreferenceScale :: Phrase(k) && 1 <= PreferenceScale[k] <= 5
  {
    AgreementPhrases();
    SatisfactionPhrases();
    QualityPhrases();
    forall k | k in PreferenceScale ensures Phrase(k) && 1 <= PreferenceScale[k] <= 5 {
    }
  }

  lemma AgreementPhrases()
    ensures forall k | k in AgreementScale :: Phrase(k) && 1 <= AgreementScale[k] <= 5
  {
    forall k | k in AgreementScale ensures Phrase(k) && 1 <= AgreementScale[k] <= 5 {
    }
  }

  lemma SatisfactionPhrases()
    ensures forall k | k in SatisfactionScale :: Phrase(k) && 1 <= SatisfactionScale[k] <= 5
  {
    forall k | k in SatisfactionScale ensures Phrase(k) && 1 <= SatisfactionScale[k] <= 5 {
    }
  }

  lemma QualityPhrases()
    ensures forall k | k in QualityScale :: Phrase(k) && 1 <= QualityScale[k] <= 5
  {
    forall k | k in QualityScale ensures Phrase(k) && 1 <= QualityScale[k] <= 5 {
    }
  }

  /** Every phrase is non-empty, stripped and starts with a letter, and
      neither missing marker is a phrase. */
  lemma LikertKeysAreWords()
    ensures forall k | k in LikertScale :: k != [] && Stripped(k) && !IsDigit(k[0])
    ensures "nan" !in LikertScale && "none" !in LikertScale
  {
    PhraseGroups();
    forall k | k in LikertScale ensures Phrase(k) {
    }
  }

  /** The lookup does not see the case of the letters or the whitespace
      around the phrase: any spelling of a phrase that lower-cases to it,
      padded with any whitespace, maps to the phrase's point. */
  lemma LikertIgnoresCaseAndPadding(k: string, s: string, p: string, q: string)
    requires k in LikertScale && Lower(s) == k && AllSpace(p) && AllSpace(q)
    ensures LikertLookup(NormalizeCell(Text(p + s + q))) == Some(LikertScale[k] as real)
  {
    LikertKeyIsPhrase(k);
    PhraseSpelling(k, s, p, q);
  }

  lemma LikertKeyIsPhrase(k: string)
    requires k in LikertScale
    ensures Phrase(k)
  {
    PhraseGroups();
  }

  /** Any padded spelling of a phrase normalises to the phrase. */
  lemma PhraseSpelling(k: string, s: string, p: string, q: string)
    requires Phrase(k) && Lower(s) == k && AllSpace(p) && AllSpace(q)
    ensures NormalizeCell(Text(p + s + q)) == Some(k)
  {
    assert |s| == |k|;
    assert Stripped(s) by {
      assert k[0] == LowerChar(s[0]) && k[|k| - 1] == LowerChar(s[|s| - 1]);
      LowerCharKeepsSpace(s[0]);
      LowerCharKeepsSpace(s[|s| - 1]);
    }
    StripPadded(p, s, q);
    assert Lower(Strip(CellText(Text(p + s + q)))) == k;
  }

  /** Every row the vocabulary reads is a scale point from 1 to 5. */
  lemma LikertColumnOnScale(col: seq<Cell>, i: int)
    requires 0 <= i < |col| && LikertColumn(col)[i].Some?
    ensures LikertColumn(col)[i].value in {1.0, 2.0, 3.0, 4.0, 5.0}
  {
  }

  // ---------------------------------------------------------------------
  // The cascade

  /** A cell that is a written-out whole number parses to it, so a column
      of them is taken as parsed. */
  lemma WholeNumbersParseDirectly(col: seq<Cell>, ns: seq<nat>)
    requires |col| == |ns| > 0
    requires forall i | 0 <= i < |col| :: col[i] == Text(DecimalString(ns[i]))
    ensures Coerce(col) == seq(|ns|, i requires 0 <= i < |ns| => Some(ns[i] as real))
  {
    var parsed := DirectParse(col);
    forall i | 0 <= i < |col| ensures parsed[i] == Some(ns[i] as real) {
      ParseDecimalString(ns[i]);
    }
    CountAllPresent(parsed);
    assert MostlyNumeric(col);
  }

  /** A column of booleans is taken as parsed: True reads as 1, False
      as 0. */
  lemma FlagsParseDirectly(col: seq<Cell>)
    requires |col| > 0 && forall i | 0 <= i < |col| :: col[i].Flag?
    ensures Coerce(col) == seq(|col|, i requires 0 <= i < |col| => Some(FlagValue(col[i].b)))
  {
    CountAllPresent(DirectParse(col));
    assert MostlyNumeric(col);
  }

  /** How many cells are True. */
  function TrueCount(col: seq<Cell>): (k: nat)
    ensures k <= |col|
  {
    if col == [] then 0 else (if col[0] == Flag(true) then 1 else 0) + TrueCount(col[1..])
  }

  /** The parsed values of a column of booleans add up to its number of
      True cells. */
  lemma {:induction false} FlagSum(col: seq<Cell>)
    requires forall i | 0 <= i < |col| :: col[i].Flag?
    ensures Sum(Present(DirectParse(col))) == TrueCount(col) as real
  {
    if col != [] {
      assert DirectParse(col)[1..] == DirectParse(col[1..]);
      FlagSum(col[1..]);
    }
  }

  /** What follows the number in a composite label such as
      "5 - Strongly Agree": a space first and a non-space last. */
  predicate LabelTail(rest: string) {
    rest != [] && IsSpace(rest[0]) && !IsSpace(rest[|rest| - 1])
  }

  /** The normalised text of a composite label. */
  lemma NormalizeComposite(n: nat, rest: string)
    requires LabelTail(rest)
    ensures NormalizeCell(Text(DecimalString(n) + rest)) == Some(DecimalString(n) + Lower(rest))
  {
    var d := DecimalString(n);
    assert Stripped(d + rest);
    StripOfStripped(d + rest);
    LowerConcat(d, rest);
    assert Lower(d) == d;
    var t := d + Lower(rest);
    assert t != "nan" && t != "none" && t != "" by {
      assert IsDigit(t[0]);
    }
  }

  /** A composite label such as "5 - Strongly Agree" has no direct parse,
      is not a vocabulary phrase, and yields its leading number. */
  lemma CompositeCell(n: nat, rest: string)
    requires LabelTail(rest)
    ensures ParseCell(Text(DecimalString(n) + rest)).None?
    ensures LikertLookup(NormalizeCell(Text(DecimalString(n) + rest))).None?
    ensures ExtractCell(NormalizeCell(Text(DecimalString(n) + rest))) == Some(n as real)
  {
    CompositeNoParse(n, rest);
    NormalizeComposite(n, rest);
    CompositeNotPhrase(n, rest);
    CompositeExtracted(n, rest);
  }

  lemma CompositeNoParse(n: nat, rest: string)
    requires LabelTail(rest)
    ensures ParseNumber(DecimalString(n) + rest).None?
  {
    var d := DecimalString(n);
    var t := d + rest;
    assert t[0] == d[0] && IsDigit(t[0]);
    assert t[|t| - 1] == rest[|rest| - 1];
    StripOfStripped(t);
    assert Strip(t) == t;
    DigitRunConcat(d, rest);
    assert DigitRun(t) == |d| < |t|;
    assert t[|d|] == rest[0] && t[|d|] != '.';
  }

  lemma CompositeNotPhrase(n: nat, rest: string)
    ensures DecimalString(n) + Lower(rest) !in LikertScale
  {
    var low := DecimalString(n) + Lower(rest);
    LikertKeysAreWords();
    assert IsDigit(low[0]);
  }

  lemma CompositeExtracted(n: nat, rest: string)
    requires LabelTail(rest)
    ensures ExtractLeadingNumber(DecimalString(n) + Lower(rest)) == Some(n as real)
  {
    LowerCharKeepsSpace(rest[0]);
    assert Lower(rest)[0] == LowerChar(rest[0]);
    ExtractAfterNumber(n, Lower(rest));
  }

  /** A column of composite labels falls through to the extraction
      strategy and reads the leading numbers. */
  lemma CompositeLabelsExtracted(col: seq<Cell>, ns: seq<nat>, rests: seq<string>)
    requires |col| == |ns| == |rests| > 0
    requires forall i | 0 <= i < |col| ::
      LabelTail(rests[i]) && col[i] == Text(DecimalString(ns[i]) + rests[i])
    ensures Coerce(col) == seq(|ns|, i requires 0 <= i < |ns| => Some(ns[i] as real))
  {
    CompositeRows(col, ns, rests);
    var parsed, mapped, extracted := DirectParse(col), LikertColumn(col), ExtractColumn(col);
    assert forall i | 0 <= i < |parsed| :: parsed[i].None?;
    assert forall i | 0 <= i < |mapped| :: mapped[i].None?;
    assert forall i | 0 <= i < |extracted| :: extracted[i].Some?;
    CountNonePresent(parsed);
    CountNonePresent(mapped);
    CountAllPresent(extracted);
    ExtractionChosen(col);
  }

  lemma CompositeRows(col: seq<Cell>, ns: seq<nat>, rests: seq<string>)
    requires |col| == |ns| == |rests|
    requires forall i | 0 <= i < |col| ::
      LabelTail(rests[i]) && col[i] == Text(DecimalString(ns[i]) + rests[i])
    ensures forall i | 0 <= i < |col| :: DirectParse(col)[i].None? && LikertColumn(col)[i].None?
    ensures ExtractColumn(col) == seq(|ns|, i requires 0 <= i < |ns| => Some(ns[i] as real))
  {
    var parsed := DirectParse(col);
    var mapped := LikertColumn(col);
    var extracted := ExtractColumn(col);
    forall i | 0 <= i < |col|
      ensures parsed[i].None? && mapped[i].None? && extracted[i] == Some(ns[i] as real)
    {
      CompositeCell(ns[i], rests[i]);
      assert parsed[i] == ParseCell(col[i]);
      assert mapped[i] == LikertLookup(NormalizeCell(col[i]));
      assert extracted[i] == ExtractCell(NormalizeCell(col[i]));
    }
  }

  /** With no direct parse and no vocabulary hit, any leading number at
      all wins. */
  lemma ExtractionChosen(col: seq<Cell>)
    requires |col| > 0 && Count(DirectParse(col)) == 0 && Count(LikertColumn(col)) == 0
    requires Count(ExtractColumn(col)) > 0
    ensures Coerce(col) == ExtractColumn(col)
  {
    assert !MostlyNumeric(col);
    assert VocabularyFails(col);
  }
}
