/** The rating plausibility filter: a coerced column is a rating only if it
    has values, they vary, and they stay on a small bounded scale. */
module Plausibility {
  import opened Results
  import opened Series

  /** The closed range a rating must stay in. */
  const RatingFloor: real := 0.0
  const RatingCeiling: real := 10.0

  /** is_reasonable_rating, check by check as the source makes them. */
  function IsReasonableRating(col: seq<Option<real>>): bool {
    var nonNull := Present(col);
    if nonNull == [] then false
    else if |Distinct(nonNull)| < 2 then false
    else if MinOf(nonNull) < RatingFloor || MaxOf(nonNull) > RatingCeiling then false
    else true
  }

  /** Some row holds a value. */
  ghost predicate HasValue(col: seq<Option<real>>) {
    exists i | 0 <= i < |col| :: col[i].Some?
  }

  /** Two rows hold different values. */
  ghost predicate Varies(col: seq<Option<real>>) {
    exists i, j | 0 <= i < |col| && 0 <= j < |col| ::
      col[i].Some? && col[j].Some? && col[i].value != col[j].value
  }

  /** Every value lies in [0, 10]. */
  ghost predicate Bounded(col: seq<Option<real>>) {
    forall i | 0 <= i < |col| && col[i].Some? :: RatingFloor <= col[i].value <= RatingCeiling
  }

  // ---------------------------------------------------------------------

  /** A column passes exactly when it has a value, two different values,
      and no value outside [0, 10]. */
  lemma ReasonableRatingIff(col: seq<Option<real>>)
    ensures IsReasonableRating(col) <==> HasValue(col) && Varies(col) && Bounded(col)
  {
    HasValueIff(col);
    VariesIff(col);
    if Present(col) != [] {
      BoundedIff(col);
    }
  }

  lemma HasValueIff(col: seq<Option<real>>)
    ensures Present(col) != [] <==> HasValue(col)
  {
    var vs := Present(col);
    if HasValue(col) {
      var i :| 0 <= i < |col| && col[i].Some?;
      PresentMembers(col, col[i].value);
    }
    if vs != [] {
      PresentMembers(col, vs[0]);
    }
  }

  lemma VariesIff(col: seq<Option<real>>)
    ensures |Distinct(Present(col))| >= 2 <==> Varies(col)
  {
    var vs := Present(col);
    TwoDistinct(vs);
    if Varies(col) {
      var i, j :| 0 <= i < |col| && 0 <= j < |col| &&
        col[i].Some? && col[j].Some? && col[i].value != col[j].value;
      PresentMembers(col, col[i].value);
      PresentMembers(col, col[j].value);
      var a :| 0 <= a < |vs| && vs[a] == col[i].value;
      var b :| 0 <= b < |vs| && vs[b] == col[j].value;
      assert vs[a] != vs[b];
    }
    if |Distinct(vs)| >= 2 {
      var a, b :| 0 <= a < |vs| && 0 <= b < |vs| && vs[a] != vs[b];
      PresentMembers(col, vs[a]);
      PresentMembers(col, vs[b]);
      var i :| 0 <= i < |col| && col[i] == Some(vs[a]);
      var j :| 0 <= j < |col| && col[j] == Some(vs[b]);
      assert col[i].value != col[j].value;
    }
  }

  lemma BoundedIff(col: seq<Option<real>>)
    requires Present(col) != []
    ensures RatingFloor <= MinOf(Present(col)) && MaxOf(Present(col)) <= RatingCeiling
            <==> Bounded(col)
  {
    var vs := Present(col);
    var lo, hi := MinOf(vs), MaxOf(vs);
    if Bounded(col) {
      PresentMembers(col, lo);
      PresentMembers(col, hi);
      var i :| 0 <= i < |col| && col[i] == Some(lo);
      var j :| 0 <= j < |col| && col[j] == Some(hi);
    }
    if RatingFloor <= lo && hi <= RatingCeiling {
      forall i | 0 <= i < |col| && col[i].Some?
        ensures RatingFloor <= col[i].value <= RatingCeiling
      {
        PresentMembers(col, col[i].value);
        var k :| 0 <= k < |vs| && vs[k] == col[i].value;
      }
    }
  }

  /** The mean of a plausible column lies in [0, 10]. */
  lemma ReasonableMeanBounded(col: seq<Option<real>>)
    requires IsReasonableRating(col)
    ensures Count(col) > 0 && RatingFloor <= Mean(col) <= RatingCeiling
  {
    ReasonableRatingIff(col);
    assert Present(col) != [];
    MeanWithin(col, RatingFloor, RatingCeiling);
  }

  /** A column whose values are all the same is rejected, however many
      rows it has. */
  lemma ConstantColumnRejected(col: seq<Option<real>>, v: real)
    requires forall i | 0 <= i < |col| && col[i].Some? :: col[i].value == v
    ensures !IsReasonableRating(col)
  {
    ReasonableRatingIff(col);
  }

  /** A value below 0 or above 10 anywhere rejects the column. */
  lemma OutOfRangeRejected(col: seq<Option<real>>, i: int)
    requires 0 <= i < |col| && col[i].Some?
    requires col[i].value < RatingFloor || col[i].value > RatingCeiling
    ensures !IsReasonableRating(col)
  {
    ReasonableRatingIff(col);
  }
}
