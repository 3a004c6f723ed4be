/**
 * The outlier filter `clean_transactions_absurd`: per (year, departement) group,
 * the median and sample standard deviation of price per square metre, joined back
 * to every row by an inner merge, a strict bound on each row's ratio, and the drop
 * of the helper columns. Two bounds exist: one-sided `< median + 3 std` and
 * two-sided `median - 2 std < ratio < median + 2 std`.
 */
module Outliers {
  import opened Wrappers
  import opened Seqs
  import opened Stats

  /** A habitable surface: strictly positive, so the ratio is always defined. */
  type Area = a: real | a > 0.0 witness 1.0

  /**
   * One transaction row. `year` is the calendar year of `date_transaction`; the
   * remaining columns of the frame travel with the row unchanged.
   */
  datatype Row = Row(year: int, departement: string, prix: real, surfaceHabitable: Area)

  /** The group key `[year of date_transaction, 'departement']`. */
  datatype Key = Key(year: int, departement: string)

  function KeyOf(r: Row): Key
  {
    Key(r.year, r.departement)
  }

  /** `prix / surface_habitable`. */
  function Ratio(r: Row): real
  {
    r.prix / r.surfaceHabitable
  }

  /** The ratios of the rows of group `k`, in row order. */
  function GroupRatios(rows: seq<Row>, k: Key): (g: seq<real>)
    ensures |g| <= |rows|
  {
    if rows == [] then []
    else (if KeyOf(rows[0]) == k then [Ratio(rows[0])] else []) + GroupRatios(rows[1..], k)
  }

  /** A row's own ratio belongs to its group's ratios. */
  lemma {:induction false} RatioInOwnGroup(rows: seq<Row>, i: int)
    requires 0 <= i < |rows|
    ensures Ratio(rows[i]) in GroupRatios(rows, KeyOf(rows[i]))
  {
    if i > 0 {
      RatioInOwnGroup(rows[1..], i - 1);
      assert rows[1..][i - 1] == rows[i];
    }
  }

  /** The distinct group keys, in order of first occurrence. */
  function DistinctKeys(rows: seq<Row>): (ks: seq<Key>)
    ensures forall i, j :: 0 <= i < j < |ks| ==> ks[i] != ks[j]
    ensures forall i :: 0 <= i < |rows| ==> KeyOf(rows[i]) in ks
    ensures forall k :: k in ks ==> exists i :: 0 <= i < |rows| && KeyOf(rows[i]) == k
  {
    if rows == [] then []
    else
      var init := rows[..|rows| - 1];
      var ks := DistinctKeys(init);
      var k := KeyOf(rows[|rows| - 1]);
      assert forall i :: 0 <= i < |rows| - 1 ==> rows[i] == init[i];
      if k in ks then ks else ks + [k]
  }

  /** One row of the statistics frame after `reset_index`: its year column is named `date_transaction`. */
  datatype StatRow = StatRow(dateTransaction: int, departement: string, median: Option<real>, std: Option<real>)

  function StatKey(s: StatRow): Key
  {
    Key(s.dateTransaction, s.departement)
  }

  /** The aggregate `['median', 'std']` of the ratios of group `k`. */
  function StatOf(rows: seq<Row>, k: Key, std: seq<real> -> Option<real>): StatRow
  {
    StatRow(k.year, k.departement, Median(GroupRatios(rows, k)), std(GroupRatios(rows, k)))
  }

  function StatFn(rows: seq<Row>, std: seq<real> -> Option<real>): Key -> StatRow
  {
    (k: Key) => StatOf(rows, k, std)
  }

  /** One statistics row per key, in key order. */
  function StatsFor(ks: seq<Key>, stat: Key -> StatRow): (t: seq<StatRow>)
    ensures |t| == |ks|
  {
    if ks == [] then [] else [stat(ks[0])] + StatsFor(ks[1..], stat)
  }

  /** `grouped_stats`: one row per group key. */
  function StatsTable(rows: seq<Row>, std: seq<real> -> Option<real>): seq<StatRow>
  {
    StatsFor(DistinctKeys(rows), StatFn(rows, std))
  }

  /** Every statistics row carries the key it was computed for. */
  ghost predicate KeyedBy(stat: Key -> StatRow)
  {
    forall k :: StatKey(stat(k)) == k
  }

  /**
   * One row of `to_clean_df`: the original row, the added `year` column, and the
   * statistics columns; the statistics' `date_transaction` collides with the row's
   * own column and comes out as `date_transaction_stats`.
   */
  datatype Merged = Merged(row: Row, year: int, dateTransactionStats: int, median: Option<real>, std: Option<real>)

  function MergeRow(r: Row, s: StatRow): Merged
  {
    Merged(r, r.year, s.dateTransaction, s.median, s.std)
  }

  /** The statistics rows whose key equals the row's `(year, departement)`, in order. */
  function Matches(r: Row, stats: seq<StatRow>): seq<Merged>
  {
    if stats == [] then []
    else (if StatKey(stats[0]) == KeyOf(r) then [MergeRow(r, stats[0])] else []) + Matches(r, stats[1..])
  }

  /** `pd.merge(left, stats, left_on=['year', 'departement'], right_on=['date_transaction', 'departement'])`: an inner join in left order. */
  function Merge(left: seq<Row>, stats: seq<StatRow>): seq<Merged>
  {
    if left == [] then [] else Matches(left[0], stats) + Merge(left[1..], stats)
  }

  /** Which bound a script applies. */
  datatype Variant =
    | OneSided3   // ratio < median + 3 std
    | TwoSided2   // ratio < median + 2 std && ratio > median - 2 std

  /** The mask of the filter; a missing median or std (NaN) makes every comparison false. */
  predicate Keep(v: Variant, ratio: real, median: Option<real>, std: Option<real>)
  {
    && median.Some? && std.Some?
    && match v
       case OneSided3 => ratio < median.value + 3.0 * std.value
       case TwoSided2 => ratio < median.value + 2.0 * std.value && ratio > median.value - 2.0 * std.value
  }

  /** A row of the result: the original columns plus the leftover `date_transaction_stats`. */
  datatype CleanRow = CleanRow(row: Row, dateTransactionStats: int)

  /** `filtered_df.drop(columns=['median', 'std', 'year'])` on one row. */
  function DropHelpers(m: Merged): CleanRow
  {
    CleanRow(m.row, m.dateTransactionStats)
  }

  /** The boolean mask followed by the column drop. */
  function FilterMerged(ms: seq<Merged>, v: Variant): (r: seq<CleanRow>)
    ensures |r| <= |ms|
  {
    if ms == [] then []
    else
      var m := ms[0];
      (if Keep(v, Ratio(m.row), m.median, m.std) then [DropHelpers(m)] else []) + FilterMerged(ms[1..], v)
  }

  /** `clean_transactions_absurd` on the rows of the frame: it never adds a row. */
  function CleanAbsurd(rows: seq<Row>, v: Variant, std: seq<real> -> Option<real>): (r: seq<CleanRow>)
    ensures |r| <= |rows|
  {
    MergeKeepsEveryRowOnce(rows, std);
    FilterMerged(Merge(rows, StatsTable(rows, std)), v)
  }

  // ---------------------------------------------------------------------------
  // Reference definition: every row judged against its own group, no join.
  // ---------------------------------------------------------------------------

  /** Row `r` passes the bound computed over its own group in `all`. */
  predicate Passes(all: seq<Row>, v: Variant, std: seq<real> -> Option<real>, r: Row)
  {
    var g := GroupRatios(all, KeyOf(r));
    Keep(v, Ratio(r), Median(g), std(g))
  }

  /** The mask of the reference definition on plain rows. */
  function PassesIn(all: seq<Row>, v: Variant, std: seq<real> -> Option<real>): Row -> bool
  {
    (r: Row) => Passes(all, v, std, r)
  }

  function KeptBy(all: seq<Row>, v: Variant, std: seq<real> -> Option<real>): CleanRow -> bool
  {
    (c: CleanRow) => Passes(all, v, std, c.row)
  }

  /** Every row with the stats year that the merge attaches to it. */
  function Tagged(rows: seq<Row>): (t: seq<CleanRow>)
    ensures |t| == |rows|
    ensures forall i :: 0 <= i < |rows| ==> t[i] == CleanRow(rows[i], rows[i].year)
  {
    if rows == [] then [] else [CleanRow(rows[0], rows[0].year)] + Tagged(rows[1..])
  }

  /** The original row of every result row. */
  function RowsOf(cs: seq<CleanRow>): (rs: seq<Row>)
    ensures |rs| == |cs|
    ensures forall i :: 0 <= i < |cs| ==> rs[i] == cs[i].row
  {
    if cs == [] then [] else [cs[0].row] + RowsOf(cs[1..])
  }


  /**
   * Against a statistics table with one row per key, a row matches exactly the
   * statistics of its own group when its key is present, and nothing otherwise.
   */
  lemma {:induction false} MatchesUniqueKeys(ks: seq<Key>, stat: Key -> StatRow, r: Row)
    requires KeyedBy(stat)
    requires forall i, j :: 0 <= i < j < |ks| ==> ks[i] != ks[j]
    ensures Matches(r, StatsFor(ks, stat)) == if KeyOf(r) in ks then [MergeRow(r, stat(KeyOf(r)))] else []
  {
    if ks != [] {
      var t := StatsFor(ks, stat);
      assert t[0] == stat(ks[0]) && t[1..] == StatsFor(ks[1..], stat);
      assert StatKey(stat(ks[0])) == ks[0];
      assert forall i, j :: 0 <= i < j < |ks[1..]| ==> ks[1..][i] != ks[1..][j] by {
        forall i, j | 0 <= i < j < |ks[1..]| ensures ks[1..][i] != ks[1..][j] {
          assert ks[1..][i] == ks[i + 1] && ks[1..][j] == ks[j + 1];
        }
      }
      MatchesUniqueKeys(ks[1..], stat, r);
      if ks[0] == KeyOf(r) {
        assert KeyOf(r) !in ks[1..] by {
          forall j | 0 <= j < |ks[1..]| ensures ks[1..][j] != KeyOf(r) {
            assert ks[1..][j] == ks[j + 1];
          }
        }
      } else {
        assert KeyOf(r) in ks <==> KeyOf(r) in ks[1..] by {
          assert ks == [ks[0]] + ks[1..];
        }
      }
    }
  }

  /** The merge attaches to every row of `left` the statistics row of its own key. */
  lemma {:induction false} MergeAgainstOwnStats(left: seq<Row>, ks: seq<Key>, stat: Key -> StatRow)
    requires KeyedBy(stat)
    requires forall i, j :: 0 <= i < j < |ks| ==> ks[i] != ks[j]
    requires forall i :: 0 <= i < |left| ==> KeyOf(left[i]) in ks
    ensures |Merge(left, StatsFor(ks, stat))| == |left|
    ensures forall i :: 0 <= i < |left| ==> Merge(left, StatsFor(ks, stat))[i] == MergeRow(left[i], stat(KeyOf(left[i])))
  {
    if left != [] {
      var s := StatsFor(ks, stat);
      var tail := left[1..];
      assert KeyOf(left[0]) in ks;
      MatchesUniqueKeys(ks, stat, left[0]);
      var first := MergeRow(left[0], stat(KeyOf(left[0])));
      assert Matches(left[0], s) == [first];
      assert forall i :: 0 <= i < |tail| ==> tail[i] == left[i + 1];
      MergeAgainstOwnStats(tail, ks, stat);
      var rest := Merge(tail, s);
      var m := Merge(left, s);
      assert m == [first] + rest;
      forall i | 0 <= i < |left|
        ensures m[i] == MergeRow(left[i], stat(KeyOf(left[i])))
      {
        if i > 0 {
          assert m[i] == rest[i - 1];
          assert tail[i - 1] == left[i];
        }
      }
    }
  }

  lemma StatFnKeyed(rows: seq<Row>, std: seq<real> -> Option<real>)
    ensures KeyedBy(StatFn(rows, std))
  {
    forall k
      ensures StatKey(StatFn(rows, std)(k)) == k
    {
    }
  }

  /** The statistics frame has one row per key, so the merge neither duplicates nor loses a row. */
  lemma MergeKeepsEveryRowOnce(rows: seq<Row>, std: seq<real> -> Option<real>)
    ensures |Merge(rows, StatsTable(rows, std))| == |rows|
    ensures forall i :: 0 <= i < |rows| ==>
              && Merge(rows, StatsTable(rows, std))[i].row == rows[i]
              && Merge(rows, StatsTable(rows, std))[i].dateTransactionStats == rows[i].year
              && Merge(rows, StatsTable(rows, std))[i].median == Median(GroupRatios(rows, KeyOf(rows[i])))
              && Merge(rows, StatsTable(rows, std))[i].std == std(GroupRatios(rows, KeyOf(rows[i])))
  {
    StatFnKeyed(rows, std);
    MergeAgainstOwnStats(rows, DistinctKeys(rows), StatFn(rows, std));
  }

  /** The mask applied with the statistics row of each row's own key. */
  function KeptByStat(stat: Key -> StatRow, v: Variant): CleanRow -> bool
  {
    (c: CleanRow) => Keep(v, Ratio(c.row), stat(KeyOf(c.row)).median, stat(KeyOf(c.row)).std)
  }

  lemma FilterMergedIsGroupFilter(left: seq<Row>, ks: seq<Key>, stat: Key -> StatRow, v: Variant)
    requires KeyedBy(stat)
    requires forall i, j :: 0 <= i < j < |ks| ==> ks[i] != ks[j]
    requires forall i :: 0 <= i < |left| ==> KeyOf(left[i]) in ks
    ensures FilterMerged(Merge(left, StatsFor(ks, stat)), v) == Filter(Tagged(left), KeptByStat(stat, v))
  {
    MergeAgainstOwnStats(left, ks, stat);
    FilterMergedOwn(Merge(left, StatsFor(ks, stat)), left, stat, v);
  }

  /** Masking rows that each carry their own group's statistics is masking the rows themselves. */
  lemma {:induction false} FilterMergedOwn(ms: seq<Merged>, left: seq<Row>, stat: Key -> StatRow, v: Variant)
    requires KeyedBy(stat)
    requires |ms| == |left|
    requires forall i :: 0 <= i < |left| ==> ms[i] == MergeRow(left[i], stat(KeyOf(left[i])))
    ensures FilterMerged(ms, v) == Filter(Tagged(left), KeptByStat(stat, v))
  {
    if left != [] {
      var r := left[0];
      var m := ms[0];
      assert m == MergeRow(r, stat(KeyOf(r)));
      assert StatKey(stat(KeyOf(r))) == KeyOf(r);
      assert DropHelpers(m) == CleanRow(r, r.year);
      forall i | 0 <= i < |left[1..]|
        ensures ms[1..][i] == MergeRow(left[1..][i], stat(KeyOf(left[1..][i])))
      {
        assert ms[1..][i] == ms[i + 1] && left[1..][i] == left[i + 1];
      }
      FilterMergedOwn(ms[1..], left[1..], stat, v);
      var t := Tagged(left);
      assert t[0] == CleanRow(r, r.year) && t[1..] == Tagged(left[1..]);
      assert KeptByStat(stat, v)(t[0]) == Keep(v, Ratio(m.row), m.median, m.std);
    }
  }


  /**
   * The merge-based filter is the same as judging every row against the median
   * and std of its own (year, departement) group and keeping it when it passes.
   */
  lemma CleanAbsurdIsGroupFilter(rows: seq<Row>, v: Variant, std: seq<real> -> Option<real>)
    ensures CleanAbsurd(rows, v, std) == Filter(Tagged(rows), KeptBy(rows, v, std))
  {
    var stat := StatFn(rows, std);
    StatFnKeyed(rows, std);
    FilterMergedIsGroupFilter(rows, DistinctKeys(rows), stat, v);
    var t := Tagged(rows);
    forall i | 0 <= i < |t|
      ensures KeptByStat(stat, v)(t[i]) == KeptBy(rows, v, std)(t[i])
    {
      assert stat(KeyOf(t[i].row)) == StatOf(rows, KeyOf(t[i].row), std);
    }
    FilterExtensional(t, KeptByStat(stat, v), KeptBy(rows, v, std));
  }

  lemma {:induction false} RowsOfTaggedFilter(rows: seq<Row>, all: seq<Row>, v: Variant, std: seq<real> -> Option<real>)
    ensures RowsOf(Filter(Tagged(rows), KeptBy(all, v, std))) == Filter(rows, PassesIn(all, v, std))
  {
    if rows != [] {
      var p, q := KeptBy(all, v, std), PassesIn(all, v, std);
      var t := Tagged(rows);
      assert t[0] == CleanRow(rows[0], rows[0].year) && t[1..] == Tagged(rows[1..]);
      RowsOfTaggedFilter(rows[1..], all, v, std);
      var kept := Filter(t[1..], p);
      assert Filter(rows, q) == (if q(rows[0]) then [rows[0]] else []) + Filter(rows[1..], q);
      assert Filter(t, p) == (if p(t[0]) then [t[0]] else []) + kept;
      if p(t[0]) {
        var f := [t[0]] + kept;
        assert f[0] == t[0] && f[1..] == kept;
        assert RowsOf(f) == [rows[0]] + RowsOf(kept);
      }
    }
  }

  /**
   * The result, stripped of `date_transaction_stats`, is exactly the input rows
   * that pass, in their order: a sub-multiset of the input.
   */
  lemma CleanAbsurdSubsetOfInput(rows: seq<Row>, v: Variant, std: seq<real> -> Option<real>)
    ensures RowsOf(CleanAbsurd(rows, v, std)) == Filter(rows, PassesIn(rows, v, std))
    ensures multiset(RowsOf(CleanAbsurd(rows, v, std))) <= multiset(rows)
    ensures |CleanAbsurd(rows, v, std)| <= |rows|
  {
    CleanAbsurdIsGroupFilter(rows, v, std);
    RowsOfTaggedFilter(rows, rows, v, std);
    FilterSubMultiset(rows, PassesIn(rows, v, std));
  }

  /** Membership in the result, both directions. */
  lemma CleanAbsurdMembership(rows: seq<Row>, v: Variant, std: seq<real> -> Option<real>, c: CleanRow)
    ensures c in CleanAbsurd(rows, v, std)
        <==> c.row in rows && c.dateTransactionStats == c.row.year && Passes(rows, v, std, c.row)
  {
    CleanAbsurdIsGroupFilter(rows, v, std);
    FilterMembership(Tagged(rows), KeptBy(rows, v, std), c);
    if c.row in rows && c.dateTransactionStats == c.row.year {
      var i :| 0 <= i < |rows| && rows[i] == c.row;
      assert Tagged(rows)[i] == c;
    }
  }

  /** A row of the input is in the result exactly when it passes its own group's bound. */
  lemma KeptIffPasses(rows: seq<Row>, v: Variant, std: seq<real> -> Option<real>, i: int)
    requires 0 <= i < |rows|
    ensures CleanRow(rows[i], rows[i].year) in CleanAbsurd(rows, v, std) <==> Passes(rows, v, std, rows[i])
  {
    CleanAbsurdMembership(rows, v, std, CleanRow(rows[i], rows[i].year));
  }

  /** A row's own group is never empty, so only a missing std can make it fail for lack of statistics. */
  lemma PassesOwnGroup(rows: seq<Row>, v: Variant, std: seq<real> -> Option<real>, i: int)
    requires SampleStdLaws(std)
    requires 0 <= i < |rows|
    ensures var g := GroupRatios(rows, KeyOf(rows[i]));
            && (Passes(rows, v, std, rows[i]) <==> |g| >= 2 && Keep(v, Ratio(rows[i]), Median(g), std(g)))
            && (|g| >= 2 ==> Median(g).Some? && std(g).Some?)
  {
    var g := GroupRatios(rows, KeyOf(rows[i]));
    RatioInOwnGroup(rows, i);
    assert std(g).Some? <==> |g| >= 2;
  }

  /** One-sided 3 std: a row is kept exactly when its group has a std and its ratio is strictly below median + 3 std. There is no lower bound. */
  lemma OneSidedKeepsExactly(rows: seq<Row>, std: seq<real> -> Option<real>, i: int)
    requires SampleStdLaws(std)
    requires 0 <= i < |rows|
    ensures var g := GroupRatios(rows, KeyOf(rows[i]));
            CleanRow(rows[i], rows[i].year) in CleanAbsurd(rows, OneSided3, std)
            <==> |g| >= 2 && Ratio(rows[i]) < Median(g).value + 3.0 * std(g).value
  {
    var g := GroupRatios(rows, KeyOf(rows[i]));
    KeptIffPasses(rows, OneSided3, std, i);
    PassesOwnGroup(rows, OneSided3, std, i);
    if |g| >= 2 {
      assert Keep(OneSided3, Ratio(rows[i]), Median(g), std(g))
             <==> Ratio(rows[i]) < Median(g).value + 3.0 * std(g).value;
    }
  }

  /** Two-sided 2 std: a row is kept exactly when its ratio lies strictly inside median -/+ 2 std. */
  lemma TwoSidedKeepsExactly(rows: seq<Row>, std: seq<real> -> Option<real>, i: int)
    requires SampleStdLaws(std)
    requires 0 <= i < |rows|
    ensures var g := GroupRatios(rows, KeyOf(rows[i]));
            CleanRow(rows[i], rows[i].year) in CleanAbsurd(rows, TwoSided2, std)
            <==> && |g| >= 2
                 && Median(g).value - 2.0 * std(g).value < Ratio(rows[i])
                 && Ratio(rows[i]) < Median(g).value + 2.0 * std(g).value
  {
    var g := GroupRatios(rows, KeyOf(rows[i]));
    KeptIffPasses(rows, TwoSided2, std, i);
    PassesOwnGroup(rows, TwoSided2, std, i);
    if |g| >= 2 {
      assert Keep(TwoSided2, Ratio(rows[i]), Median(g), std(g))
             <==> Median(g).value - 2.0 * std(g).value < Ratio(rows[i]) && Ratio(rows[i]) < Median(g).value + 2.0 * std(g).value;
    }
  }

  /** A transaction alone in its group has no std (NaN) and is dropped, under either bound. */
  lemma SingletonGroupDropped(rows: seq<Row>, v: Variant, std: seq<real> -> Option<real>, k: Key)
    requires SampleStdLaws(std)
    requires |GroupRatios(rows, k)| == 1
    ensures forall c :: c in CleanAbsurd(rows, v, std) ==> KeyOf(c.row) != k
  {
    forall c | c in CleanAbsurd(rows, v, std)
      ensures KeyOf(c.row) != k
    {
      CleanAbsurdMembership(rows, v, std, c);
    }
  }

  /** A group of at least two equal ratios has std 0; the strict bound then drops every row of it. */
  lemma UniformGroupDropped(rows: seq<Row>, v: Variant, std: seq<real> -> Option<real>, k: Key)
    requires SampleStdLaws(std)
    requires |GroupRatios(rows, k)| >= 2 && Uniform(GroupRatios(rows, k))
    ensures forall c :: c in CleanAbsurd(rows, v, std) ==> KeyOf(c.row) != k
  {
    forall c | c in CleanAbsurd(rows, v, std)
      ensures KeyOf(c.row) != k
    {
      CleanAbsurdMembership(rows, v, std, c);
      if KeyOf(c.row) == k {
        var i :| 0 <= i < |rows| && rows[i] == c.row;
        UniformGroupFails(rows, v, std, i);
        assert false;
      }
    }
  }

  /** In a uniform group of at least two, every ratio equals the median and the std is 0, so the strict bound fails. */
  lemma UniformGroupFails(rows: seq<Row>, v: Variant, std: seq<real> -> Option<real>, i: int)
    requires SampleStdLaws(std)
    requires 0 <= i < |rows|
    requires |GroupRatios(rows, KeyOf(rows[i]))| >= 2 && Uniform(GroupRatios(rows, KeyOf(rows[i])))
    ensures !Passes(rows, v, std, rows[i])
  {
    var g := GroupRatios(rows, KeyOf(rows[i]));
    RatioInOwnGroup(rows, i);
    MedianOfConstant(g, g[0]);
    assert std(g) == Some(0.0);
    var j :| 0 <= j < |g| && g[j] == Ratio(rows[i]);
    assert Ratio(rows[i]) == g[0];
  }

  /** One-sided: any row of a group with a std whose ratio is below the median is kept, however far below. */
  lemma OneSidedNoLowerBound(rows: seq<Row>, std: seq<real> -> Option<real>, i: int)
    requires SampleStdLaws(std)
    requires 0 <= i < |rows|
    requires |GroupRatios(rows, KeyOf(rows[i]))| >= 2
    requires Ratio(rows[i]) <= Median(GroupRatios(rows, KeyOf(rows[i]))).value
    requires std(GroupRatios(rows, KeyOf(rows[i]))).value > 0.0 || Ratio(rows[i]) < Median(GroupRatios(rows, KeyOf(rows[i]))).value
    ensures CleanRow(rows[i], rows[i].year) in CleanAbsurd(rows, OneSided3, std)
  {
    OneSidedKeepsExactly(rows, std, i);
  }

  /** Two-sided: a row whose ratio equals the median is kept whenever the group's std is positive. */
  lemma TwoSidedKeepsMedianRow(rows: seq<Row>, std: seq<real> -> Option<real>, i: int)
    requires SampleStdLaws(std)
    requires 0 <= i < |rows|
    requires |GroupRatios(rows, KeyOf(rows[i]))| >= 2
    requires std(GroupRatios(rows, KeyOf(rows[i]))).value > 0.0
    requires Ratio(rows[i]) == Median(GroupRatios(rows, KeyOf(rows[i]))).value
    ensures CleanRow(rows[i], rows[i].year) in CleanAbsurd(rows, TwoSided2, std)
  {
    TwoSidedKeepsExactly(rows, std, i);
  }

  /**
   * Because std >= 0, the two-sided 2 std filter keeps a subsequence of what the
   * one-sided 3 std filter keeps on the same input.
   */
  lemma TwoSidedWithinOneSided(rows: seq<Row>, std: seq<real> -> Option<real>)
    requires SampleStdLaws(std)
    ensures CleanAbsurd(rows, TwoSided2, std) == Filter(CleanAbsurd(rows, OneSided3, std), KeptBy(rows, TwoSided2, std))
    ensures multiset(CleanAbsurd(rows, TwoSided2, std)) <= multiset(CleanAbsurd(rows, OneSided3, std))
  {
    var t := Tagged(rows);
    CleanAbsurdIsGroupFilter(rows, TwoSided2, std);
    CleanAbsurdIsGroupFilter(rows, OneSided3, std);
    FilterRefines(t, KeptBy(rows, TwoSided2, std), KeptBy(rows, OneSided3, std));
    FilterSubMultiset(CleanAbsurd(rows, OneSided3, std), KeptBy(rows, TwoSided2, std));
  }
}
