/** The column relevance filter: a column whose name mentions metadata
    (identifiers, timestamps, contact details, free text) is never ranked. */
module Relevance {
  import opened Strings

  /** IGNORE_COL_KEYWORDS. */
  const IgnoreKeywords: set<string> := {
    "timestamp", "time stamp", "email", "e-mail", "name", "id", "netid", "uid",
    "comment", "feedback", "suggestion", "free text", "response id"
  }

  /** should_ignore_column: the lower-cased, stripped name contains some
      keyword as a substring. */
  function ShouldIgnoreColumn(name: string): bool {
    var lowered := Strip(Lower(name));
    exists keyword | keyword in IgnoreKeywords :: Contains(lowered, keyword)
  }

  // ---------------------------------------------------------------------

  /** Every keyword starts and ends with a non-space character. */
  lemma KeywordsAreWords()
    ensures forall k | k in IgnoreKeywords :: k != [] && Stripped(k)
  {
    forall k | k in IgnoreKeywords ensures k != [] && Stripped(k) {
    }
  }

  /** A column is ignored exactly when some keyword occurs anywhere in its
      lower-cased name: stripping never matters, and neither does case. */
  lemma ShouldIgnoreIff(name: string)
    ensures ShouldIgnoreColumn(name) <==>
            exists k, i :: k in IgnoreKeywords && OccursAt(Lower(name), k, i)
  {
    var low := Lower(name);
    var lowered := Strip(low);
    KeywordsAreWords();
    if ShouldIgnoreColumn(name) {
      var k :| k in IgnoreKeywords && Contains(lowered, k);
      ContainsIff(lowered, k);
      var j :| OccursAt(lowered, k, j);
      OccursInStripped(low, k, j);
    }
    if k, i :| k in IgnoreKeywords && OccursAt(low, k, i) {
      StripKeepsOccurrence(low, k, i);
    }
  }

  /** Names that differ only in the case of their letters and in the
      whitespace around them are treated alike. */
  lemma IgnoreIsCaseAndPaddingInsensitive(a: string, b: string, p: string, q: string)
    requires Lower(a) == Lower(b) && AllSpace(p) && AllSpace(q)
    ensures ShouldIgnoreColumn(p + a + q) == ShouldIgnoreColumn(b)
  {
    var low := Lower(b);
    var padded := Lower(p + a + q);
    LowerConcat(p + a, q);
    LowerConcat(p, a);
    assert padded == Lower(p) + low + Lower(q);
    LowerAllSpace(p);
    LowerAllSpace(q);
    ShouldIgnoreIff(p + a + q);
    ShouldIgnoreIff(b);
    KeywordsAreWords();
    if k, i :| k in IgnoreKeywords && OccursAt(padded, k, i) {
      PaddedOccurrence(Lower(p), low, Lower(q), k, i);
    }
    if k, i :| k in IgnoreKeywords && OccursAt(low, k, i) {
      OccurrenceInPadded(Lower(p), low, Lower(q), k, i);
    }
  }

  /** "Respondent Email" is ignored. */
  lemma RespondentEmailIgnored()
    ensures ShouldIgnoreColumn("Respondent Email")
  {
    assert OccursAt(Lower("Respondent Email"), "email", 11);
    ShouldIgnoreIff("Respondent Email");
  }

  /** "Student ID" is ignored, through its "id". */
  lemma StudentIdIgnored()
    ensures ShouldIgnoreColumn("Student ID")
  {
    assert OccursAt(Lower("Student ID"), "id", 8);
    ShouldIgnoreIff("Student ID");
  }
}
