/** A coerced column is a sequence of optional reals, one per row; missing
    entries are rows no strategy could read. These are the pandas
    reductions the pipeline applies to one: `dropna`, `notna().sum()`,
    `mean`, `min`, `max` and `nunique`. */
module Series {
  import opened Results

  /** `dropna()`: the present values, in row order. */
  function Present(col: seq<Option<real>>): (vs: seq<real>)
    ensures |vs| <= |col|
  {
    if col == [] then []
    else (if col[0].Some? then [col[0].value] else []) + Present(col[1..])
  }

  /** `notna().sum()`: how many rows hold a value. */
  function Count(col: seq<Option<real>>): (k: nat)
    ensures k <= |col|
  {
    |Present(col)|
  }

  function Sum(vs: seq<real>): real {
    if vs == [] then 0.0 else vs[0] + Sum(vs[1..])
  }

  /** `mean()`, which skips missing rows. */
  function Mean(col: seq<Option<real>>): real
    requires Count(col) > 0
  {
    Sum(Present(col)) / (Count(col) as real)
  }

  /** `min()` of a non-empty run of values. */
  function MinOf(vs: seq<real>): (m: real)
    requires vs != []
    ensures m in vs
    ensures forall i | 0 <= i < |vs| :: m <= vs[i]
  {
    if |vs| == 1 then vs[0]
    else
      var rest := MinOf(vs[1..]);
      if vs[0] <= rest then vs[0] else rest
  }

  /** `max()` of a non-empty run of values. */
  function MaxOf(vs: seq<real>): (m: real)
    requires vs != []
    ensures m in vs
    ensures forall i | 0 <= i < |vs| :: vs[i] <= m
  {
    if |vs| == 1 then vs[0]
    else
      var rest := MaxOf(vs[1..]);
      if rest <= vs[0] then vs[0] else rest
  }

  /** The distinct values, whose number is `nunique()`. */
  function Distinct(vs: seq<real>): set<real> {
    set x | x in vs
  }

  // ---------------------------------------------------------------------

  /** The present values are exactly the values held by some row. */
  lemma {:induction false} PresentMembers(col: seq<Option<real>>, x: real)
    ensures x in Present(col) <==> exists i | 0 <= i < |col| :: col[i] == Some(x)
  {
    if col != [] {
      PresentMembers(col[1..], x);
      if i :| 0 <= i < |col[1..]| && col[1..][i] == Some(x) {
        assert col[i + 1] == Some(x);
      }
      if i :| 0 <= i < |col| && col[i] == Some(x) {
        if i > 0 {
          assert col[1..][i - 1] == Some(x);
        }
      }
    }
  }

  /** A column with a value in every row counts all its rows. */
  lemma {:induction false} CountAllPresent(col: seq<Option<real>>)
    requires forall i | 0 <= i < |col| :: col[i].Some?
    ensures Count(col) == |col|
  {
    if col != [] {
      CountAllPresent(col[1..]);
    }
  }

  /** A column with no value counts nothing. */
  lemma {:induction false} CountNonePresent(col: seq<Option<real>>)
    requires forall i | 0 <= i < |col| :: col[i].None?
    ensures Count(col) == 0
  {
    if col != [] {
      CountNonePresent(col[1..]);
    }
  }

  /** At least two distinct values (`nunique() >= 2`) means two positions
      holding different values, and back. */
  lemma TwoDistinct(vs: seq<real>)
    ensures |Distinct(vs)| >= 2 <==> exists i, j | 0 <= i < |vs| && 0 <= j < |vs| :: vs[i] != vs[j]
  {
    var d := Distinct(vs);
    if i, j :| 0 <= i < |vs| && 0 <= j < |vs| && vs[i] != vs[j] {
      assert {vs[i], vs[j]} <= d;
      assert |{vs[i], vs[j]}| == 2;
      SubsetCard({vs[i], vs[j]}, d);
    }
    if |d| >= 2 {
      assert d != {};
      var a :| a in d;
      if forall b | b in d :: b == a {
        SubsetCard(d, {a});
        assert false;
      }
      var b :| b in d && b != a;
      var i :| 0 <= i < |vs| && vs[i] == a;
      var j :| 0 <= j < |vs| && vs[j] == b;
      assert vs[i] != vs[j];
    }
  }

  lemma SubsetCard(a: set<real>, b: set<real>)
    requires a <= b
    ensures |a| <= |b|
  {
    assert b == a + (b - a);
  }

  /** Values inside `[lo, hi]` add up to between `lo` and `hi` times
      their number. */
  lemma {:induction false} SumBounds(vs: seq<real>, lo: real, hi: real)
    requires forall i | 0 <= i < |vs| :: lo <= vs[i] <= hi
    ensures lo * (|vs| as real) <= Sum(vs) <= hi * (|vs| as real)
  {
    if vs != [] {
      SumBounds(vs[1..], lo, hi);
      assert lo * (|vs| as real) == lo + lo * (|vs[1..]| as real);
      assert hi * (|vs| as real) == hi + hi * (|vs[1..]| as real);
    }
  }

  lemma DivisionBounds(s: real, n: real, lo: real, hi: real)
    requires n > 0.0 && lo * n <= s <= hi * n
    ensures lo <= s / n <= hi
  {
    var q := s / n;
    assert s == q * n;
  }

  /** The mean of a column lies between the bounds of its present values. */
  lemma MeanWithin(col: seq<Option<real>>, lo: real, hi: real)
    requires Count(col) > 0
    requires forall i | 0 <= i < |col| && col[i].Some? :: lo <= col[i].value <= hi
    ensures lo <= Mean(col) <= hi
  {
    var vs := Present(col);
    forall k | 0 <= k < |vs| ensures lo <= vs[k] <= hi {
      PresentMembers(col, vs[k]);
    }
    SumBounds(vs, lo, hi);
    DivisionBounds(Sum(vs), |vs| as real, lo, hi);
  }
}
