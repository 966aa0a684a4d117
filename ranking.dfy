/** The ranking builder: every column of the table goes through the
    relevance filter, the coercion engine, the plausibility filter and the
    sample-size floor; each survivor becomes a row (item, mean score, n);
    the rows are put in order and numbered. */
module Ranking {
  import opened Results
  import opened Strings
  import opened Series
  import opened Coercion
  import opened Plausibility
  import opened Relevance

  /** MIN_N: the fewest readable answers a column needs to be ranked. */
  const MinN: nat := 5

  /** One column of the input table, by name and raw cells. */
  datatype Column = Column(name: string, cells: seq<Cell>)

  /** The record build_ranking appends for a surviving column. */
  datatype Row = Row(item: string, meanScore: real, n: nat)

  /** A row of the returned ranking. */
  datatype RankedRow = RankedRow(item: string, meanScore: real, n: nat, rank: nat)

  /** The ValueError raised when no column survives. */
  datatype RankingError = NoRatingColumnsDetected

  /** The row a column contributes, if any: one survives exactly when its
      name is not ignored, its coerced values are a plausible rating and at
      least MinN of them are present; it then carries the column's name, the
      count and the mean of those values, a mean inside [0, 10]. */
  function RowFor(c: Column): (r: Option<Row>)
    ensures r.Some? <==>
      !ShouldIgnoreColumn(c.name) && IsReasonableRating(Coerce(c.cells)) &&
      Count(Coerce(c.cells)) >= MinN
    ensures r.Some? ==>
      && r.value.item == c.name && r.value.n == Count(Coerce(c.cells)) >= MinN
      && r.value.meanScore == Mean(Coerce(c.cells))
      && RatingFloor <= r.value.meanScore <= RatingCeiling
  {
    if ShouldIgnoreColumn(c.name) then None
    else
      var numeric := Coerce(c.cells);
      if !IsReasonableRating(numeric) then None
      else
        var n := Count(numeric);
        if n < MinN then None
        else
          ReasonableMeanBounded(numeric);
          Some(Row(c.name, Mean(numeric), n))
  }

  /** The rows `keep` yields over `cols`, in column order: the list the
      builder's loop appends to. */
  function Collect(keep: Column -> Option<Row>, cols: seq<Column>): (r: seq<Row>)
    ensures |r| <= |cols|
    decreases |cols|
  {
    if cols == [] then []
    else
      Collect(keep, cols[..|cols| - 1]) +
      match keep(cols[|cols| - 1])
      case Some(row) => [row]
      case None => []
  }

  /** The rows of the surviving columns, in column order. */
  function Survivors(cols: seq<Column>): (r: seq<Row>)
    ensures |r| <= |cols|
  {
    Collect(RowFor, cols)
  }

  /** A column with fewer than MIN_N readable values yields no row,
      whatever its name and values. */
  lemma FewValuesSkipped(c: Column)
    requires Count(Coerce(c.cells)) < MinN
    ensures RowFor(c).None?
  {
  }

  /** A column of booleans holding both values, with at least MIN_N rows
      and a name no keyword matches, is ranked: its n is its row count and
      its mean score is its share of True. */
  lemma FlagColumnRanked(c: Column, i: int, j: int)
    requires |c.cells| >= MinN && forall k | 0 <= k < |c.cells| :: c.cells[k].Flag?
    requires 0 <= i < |c.cells| && 0 <= j < |c.cells| && c.cells[i].b != c.cells[j].b
    requires !ShouldIgnoreColumn(c.name)
    ensures RowFor(c).Some?
    ensures RowFor(c).value.n == |c.cells|
    ensures RowFor(c).value.meanScore == TrueCount(c.cells) as real / |c.cells| as real
  {
    var numeric := Coerce(c.cells);
    FlagsParseDirectly(c.cells);
    assert numeric == DirectParse(c.cells);
    CountAllPresent(numeric);
    assert HasValue(numeric) by {
      assert numeric[i].Some?;
    }
    assert Varies(numeric) by {
      assert numeric[i].value != numeric[j].value;
    }
    assert Bounded(numeric);
    ReasonableRatingIff(numeric);
    FlagSum(c.cells);
  }

  /** One more column appends its row, if it yields one. */
  lemma CollectStep(keep: Column -> Option<Row>, cols: seq<Column>, i: int)
    requires 0 <= i < |cols|
    ensures keep(cols[i]).None? ==> Collect(keep, cols[..i + 1]) == Collect(keep, cols[..i])
    ensures keep(cols[i]).Some? ==>
      Collect(keep, cols[..i + 1]) == Collect(keep, cols[..i]) + [keep(cols[i]).value]
  {
    assert cols[..i + 1][..i] == cols[..i];
    assert cols[..i + 1][i] == cols[i];
  }

  // ---------------------------------------------------------------------
  // The order: mean descending, then n descending, then item ascending

  /** `x` sorts strictly before `y`. */
  predicate Precedes(x: Row, y: Row) {
    || x.meanScore > y.meanScore
    || (x.meanScore == y.meanScore && x.n > y.n)
    || (x.meanScore == y.meanScore && x.n == y.n && StrLess(x.item, y.item))
  }

  predicate InOrder(x: Row, y: Row) {
    Precedes(x, y) || x == y
  }

  ghost predicate SortedRows(s: seq<Row>) {
    forall i, j | 0 <= i < j < |s| :: InOrder(s[i], s[j])
  }

  lemma PrecedesIrreflexive(x: Row)
    ensures !Precedes(x, x)
  {
    StrLessIrreflexive(x.item);
  }

  lemma PrecedesTransitive(x: Row, y: Row, z: Row)
    requires Precedes(x, y) && Precedes(y, z)
    ensures Precedes(x, z)
  {
    if x.meanScore == y.meanScore == z.meanScore && x.n == y.n == z.n {
      StrLessTransitive(x.item, y.item, z.item);
    }
  }

  lemma PrecedesAsymmetric(x: Row, y: Row)
    requires Precedes(x, y)
    ensures !Precedes(y, x)
  {
    if x.meanScore == y.meanScore && x.n == y.n {
      StrLessAsymmetric(x.item, y.item);
    }
  }

  /** Two different rows are always ordered: the key covers the whole row. */
  lemma PrecedesTotal(x: Row, y: Row)
    requires x != y
    ensures Precedes(x, y) || Precedes(y, x)
  {
    if x.meanScore == y.meanScore && x.n == y.n {
      StrLessTotal(x.item, y.item);
    }
  }

  lemma InOrderTransitive(x: Row, y: Row, z: Row)
    requires InOrder(x, y) && InOrder(y, z)
    ensures InOrder(x, z)
  {
    if Precedes(x, y) && Precedes(y, z) {
      PrecedesTransitive(x, y, z);
    }
  }

  lemma InOrderAntisymmetric(x: Row, y: Row)
    requires InOrder(x, y) && InOrder(y, x)
    ensures x == y
  {
    if Precedes(x, y) {
      PrecedesAsymmetric(x, y);
    }
  }

  // ---------------------------------------------------------------------
  // Sorting

  lemma SortedCons(x: Row, s: seq<Row>)
    requires SortedRows(s)
    requires forall y | y in s :: InOrder(x, y)
    ensures SortedRows([x] + s)
  {
    var t := [x] + s;
    forall i, j | 0 <= i < j < |t| ensures InOrder(t[i], t[j]) {
      if i == 0 {
        assert t[j] == s[j - 1];
      } else {
        assert t[i] == s[i - 1] && t[j] == s[j - 1];
      }
    }
  }

  /** Inserting `x` into a sorted run, after every row it does not
      precede: the stable insertion step. */
  function Insert(x: Row, s: seq<Row>): (r: seq<Row>)
    requires SortedRows(s)
    ensures SortedRows(r)
    ensures multiset(r) == multiset(s) + multiset{x}
  {
    if s == [] then
      [x]
    else if Precedes(x, s[0]) then
      InsertInFront(x, s);
      [x] + s
    else
      assert s == [s[0]] + s[1..];
      var rest := Insert(x, s[1..]);
      InsertBehind(x, s, rest);
      [s[0]] + rest
  }

  lemma InsertInFront(x: Row, s: seq<Row>)
    requires SortedRows(s) && s != [] && Precedes(x, s[0])
    ensures SortedRows([x] + s)
  {
    forall y | y in s ensures InOrder(x, y) {
      var j :| 0 <= j < |s| && s[j] == y;
      assert InOrder(s[0], y);
      InOrderTransitive(x, s[0], y);
    }
    SortedCons(x, s);
  }

  lemma InsertBehind(x: Row, s: seq<Row>, rest: seq<Row>)
    requires SortedRows(s) && s != [] && !Precedes(x, s[0])
    requires SortedRows(rest) && multiset(rest) == multiset(s[1..]) + multiset{x}
    ensures SortedRows([s[0]] + rest)
  {
    forall y | y in rest ensures InOrder(s[0], y) {
      assert y in multiset(rest);
      if y == x {
        if x != s[0] {
          PrecedesTotal(x, s[0]);
        }
      } else {
        assert y in multiset(s[1..]);
        var j :| 0 <= j < |s[1..]| && s[1..][j] == y;
        assert s[j + 1] == y;
        assert InOrder(s[0], s[j + 1]);
      }
    }
    SortedCons(s[0], rest);
  }

  /** The rows in ranking order: sorted, and a permutation of the input. */
  function SortRows(s: seq<Row>): (r: seq<Row>)
    ensures SortedRows(r)
    ensures multiset(r) == multiset(s)
  {
    if s == [] then []
    else
      assert s == s[..|s| - 1] + [s[|s| - 1]];
      Insert(s[|s| - 1], SortRows(s[..|s| - 1]))
  }

  /** The ranking order admits one arrangement only: two sorted
      permutations of the same rows are equal, so every stable sort, and
      every run of the builder on the same table, gives the same ranking. */
  lemma {:induction false} SortedUnique(a: seq<Row>, b: seq<Row>)
    requires SortedRows(a) && SortedRows(b) && multiset(a) == multiset(b)
    ensures a == b
    decreases |a|
  {
    assert |a| == |multiset(a)| == |multiset(b)| == |b|;
    if a != [] {
      SortedHeadsAgree(a, b);
      TailMultiset(a);
      TailMultiset(b);
      assert SortedRows(a[1..]) && SortedRows(b[1..]);
      SortedUnique(a[1..], b[1..]);
      assert a == [a[0]] + a[1..] && b == [b[0]] + b[1..];
    }
  }

  /** The first row of a sorted run precedes every other, so two sorted
      permutations start with the same row. */
  lemma SortedHeadsAgree(a: seq<Row>, b: seq<Row>)
    requires SortedRows(a) && SortedRows(b) && multiset(a) == multiset(b)
    requires a != [] && b != []
    ensures a[0] == b[0]
  {
    assert a[0] in multiset(b) && b[0] in multiset(a);
    var k :| 0 <= k < |b| && b[k] == a[0];
    var m :| 0 <= m < |a| && a[m] == b[0];
    assert InOrder(a[0], b[0]) by {
      if m > 0 { assert InOrder(a[0], a[m]); }
    }
    assert InOrder(b[0], a[0]) by {
      if k > 0 { assert InOrder(b[0], b[k]); }
    }
    InOrderAntisymmetric(a[0], b[0]);
  }

  lemma TailMultiset(a: seq<Row>)
    requires a != []
    ensures multiset(a[1..]) == multiset(a) - multiset{a[0]}
  {
    assert a == [a[0]] + a[1..];
  }

  // ---------------------------------------------------------------------
  // Ranks

  /** The ranking without its rank column. */
  function Unranked(ranking: seq<RankedRow>): seq<Row> {
    seq(|ranking|, j requires 0 <= j < |ranking| =>
      Row(ranking[j].item, ranking[j].meanScore, ranking[j].n))
  }

  /** `rank = index + 1` over the ordered rows: the rows are kept as they
      are, in their order, and numbered 1, 2, ... */
  function AssignRanks(s: seq<Row>): (r: seq<RankedRow>)
    ensures Unranked(r) == s
    ensures forall j | 0 <= j < |r| :: r[j].rank == j + 1
  {
    var r := seq(|s|, j requires 0 <= j < |s| => RankedRow(s[j].item, s[j].meanScore, s[j].n, j + 1));
    assert forall j | 0 <= j < |s| :: Unranked(r)[j] == s[j];
    r
  }

  /** build_ranking. On success the ranking holds exactly the surviving
      columns' rows, in ranking order, numbered 1, 2, ... in that order;
      it fails exactly when no column survives. */
  method BuildRanking(table: seq<Column>) returns (result: Result<seq<RankedRow>, RankingError>)
    ensures result.Failure? <==> Survivors(table) == []
    ensures result.Success? ==> SortedRows(Unranked(result.value))
    ensures result.Success? ==> multiset(Unranked(result.value)) == multiset(Survivors(table))
    ensures result.Success? ==> forall j | 0 <= j < |result.value| :: result.value[j].rank == j + 1
  {
    var rows: seq<Row> := [];
    for i := 0 to |table|
      invariant rows == Survivors(table[..i])
    {
      CollectStep(RowFor, table, i);
      var col := table[i];
      if ShouldIgnoreColumn(col.name) {
        assert RowFor(col).None?;
        continue;
      }
      var numeric := Coerce(col.cells);
      if !IsReasonableRating(numeric) {
        assert RowFor(col).None?;
        continue;
      }
      var n := Count(numeric);
      if n < MinN {
        assert RowFor(col).None?;
        continue;
      }
      assert RowFor(col) == Some(Row(col.name, Mean(numeric), n));
      rows := rows + [Row(col.name, Mean(numeric), n)];
    }
    assert table[..|table|] == table;
    if rows == [] {
      return Failure(NoRatingColumnsDetected);
    }
    var ordered := SortRows(rows);
    var ranking := AssignRanks(ordered);
    result := Success(ranking);
  }

  // ---------------------------------------------------------------------
  // Which columns make it into the ranking

  lemma {:induction false} CollectConcat(keep: Column -> Option<Row>, a: seq<Column>, b: seq<Column>)
    ensures Collect(keep, a + b) == Collect(keep, a) + Collect(keep, b)
    decreases |b|
  {
    if b == [] {
      assert a + b == a;
    } else {
      var b' := b[..|b| - 1];
      assert (a + b)[..|a + b| - 1] == a + b';
      assert (a + b)[|a + b| - 1] == b[|b| - 1];
      CollectConcat(keep, a, b');
    }
  }

  lemma {:induction false} CollectMembers(keep: Column -> Option<Row>, cols: seq<Column>, r: Row)
    ensures r in Collect(keep, cols) <==> exists i | 0 <= i < |cols| :: keep(cols[i]) == Some(r)
    decreases |cols|
  {
    if cols != [] {
      var n := |cols| - 1;
      var init := cols[..n];
      CollectMembers(keep, init, r);
      CollectStep(keep, cols, n);
      assert cols[..n + 1] == cols;
      if r in Collect(keep, cols) {
        if r in Collect(keep, init) {
          var i :| 0 <= i < |init| && keep(init[i]) == Some(r);
          assert cols[i] == init[i];
        } else {
          assert keep(cols[n]) == Some(r);
        }
      }
      if i :| 0 <= i < |cols| && keep(cols[i]) == Some(r) {
        if i < n {
          assert keep(init[i]) == Some(r);
        }
      }
    }
  }

  /** The survivors of a table split in two are those of each part, in
      order. */
  lemma SurvivorsConcat(a: seq<Column>, b: seq<Column>)
    ensures Survivors(a + b) == Survivors(a) + Survivors(b)
  {
    CollectConcat(RowFor, a, b);
  }

  /** A row survives exactly when some column of the table contributes it. */
  lemma SurvivorsMembers(cols: seq<Column>, r: Row)
    ensures r in Survivors(cols) <==> exists i | 0 <= i < |cols| :: RowFor(cols[i]) == Some(r)
  {
    CollectMembers(RowFor, cols, r);
  }

  lemma CollectSkips(keep: Column -> Option<Row>, pre: seq<Column>, c: Column, post: seq<Column>)
    requires keep(c).None?
    ensures Collect(keep, pre + [c] + post) == Collect(keep, pre + post)
  {
    CollectConcat(keep, pre + [c], post);
    CollectConcat(keep, pre, [c]);
    CollectConcat(keep, pre, post);
    assert [c][..0] == [];
  }

  /** A column whose name is ignored is skipped whatever its cells hold:
      removing it changes nothing. */
  lemma IgnoredColumnSkipped(pre: seq<Column>, c: Column, post: seq<Column>)
    requires ShouldIgnoreColumn(c.name)
    ensures Survivors(pre + [c] + post) == Survivors(pre + post)
  {
    assert RowFor(c).None?;
    CollectSkips(RowFor, pre, c, post);
  }

  /** Column `c` passes every filter and `r` is its row: the column's
      name is not ignored, its coerced values are a plausible rating with
      at least MinN of them present, `r.n` is their count and
      `r.meanScore` their mean, which lies in [0, 10]. */
  predicate Admits(c: Column, r: Row) {
    && c.name == r.item
    && !ShouldIgnoreColumn(c.name)
    && IsReasonableRating(Coerce(c.cells))
    && r.n == Count(Coerce(c.cells)) >= MinN
    && r.meanScore == Mean(Coerce(c.cells))
    && RatingFloor <= r.meanScore <= RatingCeiling
  }

  /** Every surviving row is admitted by some column of the table. */
  lemma SurvivorAdmitted(table: seq<Column>, r: Row)
    requires r in Survivors(table)
    ensures exists i | 0 <= i < |table| :: Admits(table[i], r)
  {
    SurvivorsMembers(table, r);
    var i :| 0 <= i < |table| && RowFor(table[i]) == Some(r);
    assert Admits(table[i], r);
  }

  /** Every row of a ranking the builder returns is admitted by some
      column of the table. */
  lemma RankedRowAdmissible(table: seq<Column>, ranking: seq<RankedRow>, j: int)
    requires multiset(Unranked(ranking)) == multiset(Survivors(table))
    requires 0 <= j < |ranking|
    ensures exists i | 0 <= i < |table| ::
      Admits(table[i], Row(ranking[j].item, ranking[j].meanScore, ranking[j].n))
  {
    var r := Unranked(ranking)[j];
    assert r == Row(ranking[j].item, ranking[j].meanScore, ranking[j].n);
    assert r in multiset(Survivors(table)) by {
      assert r in multiset(Unranked(ranking));
    }
    SurvivorAdmitted(table, r);
  }

  /** Rows that tie on mean and n are ranked by item name, the name that
      sorts first getting the better rank. */
  lemma TieBrokenByName(ranking: seq<RankedRow>, i: int, j: int)
    requires SortedRows(Unranked(ranking))
    requires 0 <= i < |ranking| && 0 <= j < |ranking|
    requires ranking[i].meanScore == ranking[j].meanScore && ranking[i].n == ranking[j].n
    requires StrLess(ranking[i].item, ranking[j].item)
    ensures i < j
  {
    var s := Unranked(ranking);
    if j < i {
      assert InOrder(s[j], s[i]);
      StrLessAsymmetric(ranking[i].item, ranking[j].item);
    }
    if i == j {
      StrLessIrreflexive(ranking[i].item);
    }
  }
}
