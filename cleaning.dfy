/**
 * The data frame the cleaning scripts mutate: its column names and its rows.
 * `clean_transactions_range` drops rows in place, `clean_transactions_absurd`
 * adds a `year` column to the caller's frame before building a new one, and
 * `clean_transactions` reports how many rows were suppressed.
 */
module Cleaning {
  import opened Wrappers
  import opened Seqs
  import opened Outliers

  // ---------------------------------------------------------------------------
  // Column names through the filter.
  // ---------------------------------------------------------------------------

  /** `df[name] = ...`: a new column goes last; an existing one keeps its place. */
  function AssignColumn(cols: seq<string>, name: string): (r: seq<string>)
    ensures name in r
    ensures name in cols ==> r == cols
    ensures name !in cols ==> r == cols + [name]
  {
    if name in cols then cols else cols + [name]
  }

  function Excluding(names: seq<string>): string -> bool
  {
    (c: string) => c !in names
  }

  /** Right-hand columns that also name a left-hand column get `suffix`. */
  function Suffixed(right: seq<string>, left: seq<string>, suffix: string): (r: seq<string>)
    ensures |r| == |right|
    ensures forall i :: 0 <= i < |right| ==> r[i] == if right[i] in left then right[i] + suffix else right[i]
  {
    if right == [] then []
    else [if right[0] in left then right[0] + suffix else right[0]] + Suffixed(right[1..], left, suffix)
  }

  /**
   * The columns of `pd.merge(left, right, ..., suffixes=('', suffix))`: all left
   * columns unchanged, then the right columns without the join keys that have the
   * same name on both sides, suffixed where they collide with a left column.
   */
  function MergeColumns(left: seq<string>, right: seq<string>, sharedKeys: seq<string>, suffix: string): seq<string>
  {
    left + Suffixed(Filter(right, Excluding(sharedKeys)), left, suffix)
  }

  /** `drop(columns=names)`. */
  function DropColumns(cols: seq<string>, names: seq<string>): seq<string>
  {
    Filter(cols, Excluding(names))
  }

  /** The columns of `grouped_stats` after `reset_index`. */
  const StatsColumns: seq<string> := ["date_transaction", "departement", "median", "std"]

  /** The temporary columns the filter drops. */
  const HelperColumns: seq<string> := ["median", "std", "year"]

  /** The columns of the frame `clean_transactions_absurd` returns. */
  function ResultColumns(cols: seq<string>): seq<string>
  {
    DropColumns(MergeColumns(AssignColumn(cols, "year"), StatsColumns, ["departement"], "_stats"), HelperColumns)
  }

  /** The statistics columns `merge` appends to a frame holding `date_transaction` but no `median`/`std`. */
  lemma StatsColumnsAdded(left: seq<string>)
    requires "date_transaction" in left && "median" !in left && "std" !in left
    ensures MergeColumns(left, StatsColumns, ["departement"], "_stats")
            == left + ["date_transaction_stats", "median", "std"]
  {
    var right := Filter(StatsColumns, Excluding(["departement"]));
    assert right == ["date_transaction", "median", "std"];
    var added := Suffixed(right, left, "_stats");
    assert added[0] == "date_transaction" + "_stats" == "date_transaction_stats";
    assert added[1] == "median" && added[2] == "std";
    assert added == ["date_transaction_stats", "median", "std"];
  }

  /**
   * For a transactions frame without helper-named columns, the result has its
   * original columns plus the leftover `date_transaction_stats`: `median`, `std`
   * and `year` are gone, the suffixed copy of the statistics' year is not.
   */
  lemma ResultColumnsShape(cols: seq<string>)
    requires "date_transaction" in cols
    requires "year" !in cols && "median" !in cols && "std" !in cols && "date_transaction_stats" !in cols
    ensures ResultColumns(cols) == cols + ["date_transaction_stats"]
  {
    var withYear := cols + ["year"];
    var added: seq<string> := ["date_transaction_stats", "median", "std"];
    var keep := Excluding(HelperColumns);
    assert AssignColumn(cols, "year") == withYear;
    StatsColumnsAdded(withYear);
    forall i | 0 <= i < |cols|
      ensures keep(cols[i])
    {
      assert cols[i] in cols;
    }
    calc {
      ResultColumns(cols);
      Filter(withYear + added, keep);
      { FilterAppend(withYear, added, keep); }
      Filter(withYear, keep) + Filter(added, keep);
      { FilterAppend(cols, ["year"], keep); }
      Filter(cols, keep) + Filter(["year"], keep) + Filter(added, keep);
      { FilterKeepsAll(cols, keep); HelpersDropped(); }
      cols + [] + ["date_transaction_stats"];
    }
    assert cols + [] == cols;
  }

  lemma HelpersDropped()
    ensures Filter(["year"], Excluding(HelperColumns)) == []
    ensures Filter(["date_transaction_stats", "median", "std"], Excluding(HelperColumns)) == ["date_transaction_stats"]
  {
    var keep := Excluding(HelperColumns);
    var added: seq<string> := ["date_transaction_stats", "median", "std"];
    assert !keep("year") && !keep("median") && !keep("std") && keep("date_transaction_stats");
    assert Filter(["year"], keep) == [] + Filter([], keep);
    assert added[1..] == ["median", "std"] && added[2..] == ["std"];
    assert Filter(["std"], keep) == [];
    assert Filter(["median", "std"], keep) == [];
  }

  // ---------------------------------------------------------------------------
  // The minimum-price filter.
  // ---------------------------------------------------------------------------

  function PriceAtLeast(minPrice: int): Row -> bool
  {
    (r: Row) => r.prix >= minPrice as real
  }

  /** The rows left after dropping those with `prix < min_price`. */
  function AtLeastPrice(rows: seq<Row>, minPrice: int): seq<Row>
  {
    Filter(rows, PriceAtLeast(minPrice))
  }

  /**
   * The range filter removes exactly the rows priced below the minimum: a row
   * survives iff it was there with `prix >= min_price`, nothing else is lost, rows
   * at or above the minimum stay in their order, and a frame with no cheap row is
   * unchanged.
   */
  lemma RangeFilterExact(rows: seq<Row>, minPrice: int)
    ensures forall r :: r in AtLeastPrice(rows, minPrice) <==> r in rows && r.prix >= minPrice as real
    ensures multiset(AtLeastPrice(rows, minPrice)) + multiset(Filter(rows, Not(PriceAtLeast(minPrice)))) == multiset(rows)
    ensures (forall i :: 0 <= i < |rows| ==> rows[i].prix >= minPrice as real) ==> AtLeastPrice(rows, minPrice) == rows
  {
    forall r
      ensures r in AtLeastPrice(rows, minPrice) <==> r in rows && r.prix >= minPrice as real
    {
      FilterMembership(rows, PriceAtLeast(minPrice), r);
    }
    FilterPartition(rows, PriceAtLeast(minPrice));
    if forall i :: 0 <= i < |rows| ==> rows[i].prix >= minPrice as real {
      FilterKeepsAll(rows, PriceAtLeast(minPrice));
    }
  }

  /** `int(config['constants']['min_price'])`: a missing key raises KeyError. */
  function MinPriceFromConfig(setting: Option<int>): (r: Result<int>)
    ensures setting.None? <==> r == Err(KeyError)
    ensures setting.Some? ==> r == Ok(setting.value)
  {
    match setting
    case None => Err(KeyError)
    case Some(p) => Ok(p)
  }

  /** `int(os.getenv('MIN_PRICE'))`: an unset variable gives `int(None)`, a TypeError. */
  function MinPriceFromEnv(setting: Option<int>): (r: Result<int>)
    ensures setting.None? <==> r == Err(TypeError)
    ensures setting.Some? ==> r == Ok(setting.value)
  {
    match setting
    case None => Err(TypeError)
    case Some(p) => Ok(p)
  }

  /** The frame `clean_transactions_absurd` returns. */
  datatype CleanFrame = CleanFrame(columns: seq<string>, rows: seq<CleanRow>)

  /** A pandas data frame of transactions that the scripts change in place. */
  class Frame {
    var columns: seq<string>
    var rows: seq<Row>

    constructor (columns: seq<string>, rows: seq<Row>)
      ensures this.columns == columns && this.rows == rows
    {
      this.columns := columns;
      this.rows := rows;
    }

    /**
     * `clean_transactions_range`: `drop(..., inplace=True)` of the rows priced
     * below the minimum; the frame itself is what the function returns. The
     * minimum is evaluated first, so a missing setting raises before any change.
     */
    method DropBelowMinPrice(minPrice: Result<int>) returns (res: Outcome)
      modifies this
      ensures columns == old(columns)
      ensures minPrice.Err? ==> res == Fail(minPrice.error) && rows == old(rows)
      ensures minPrice.Ok? ==> res == Pass && rows == AtLeastPrice(old(rows), minPrice.value)
    {
      if minPrice.Err? {
        return Fail(minPrice.error);
      }
      rows := AtLeastPrice(rows, minPrice.value);
      res := Pass;
    }
  }

  /**
   * `clean_transactions_absurd`: adds `year` to the caller's frame, then returns
   * a new frame with the rows that pass the bound. On a frame with no rows the
   * group-by applies its aggregate to no group, so the statistics frame has no
   * `median` or `std` column and selecting them raises KeyError, after `year`
   * was added.
   */
  method CleanTransactionsAbsurd(df: Frame, v: Variant, std: seq<real> -> Option<real>) returns (out: Result<CleanFrame>)
    modifies df
    ensures df.rows == old(df.rows)
    ensures df.columns == AssignColumn(old(df.columns), "year")
    ensures old(df.rows) == [] ==> out == Err(KeyError)
    ensures old(df.rows) != [] ==> out.Ok? && out.value.columns == ResultColumns(old(df.columns))
                                   && out.value.rows == CleanAbsurd(old(df.rows), v, std)
  {
    var stats := StatsTable(df.rows, std);
    df.columns := AssignColumn(df.columns, "year");
    if df.rows == [] {
      return Err(KeyError);
    }
    var merged := Merge(df.rows, stats);
    var mergedColumns := MergeColumns(df.columns, StatsColumns, ["departement"], "_stats");
    out := Ok(CleanFrame(DropColumns(mergedColumns, HelperColumns), FilterMerged(merged, v)));
  }

  /** The two numbers `clean_transactions` prints. */
  datatype Report = Report(suppressed: int, percent: real)

  /**
   * `initial_len - len(clean_df)` rows suppressed, as a percentage of the rows
   * that REMAIN; with no row remaining the division raises ZeroDivisionError.
   */
  function SuppressionReport(initial: nat, remaining: nat): (r: Result<Report>)
    ensures r.Err? <==> remaining == 0
    ensures r.Err? ==> r.error == ZeroDivisionError
    ensures r.Ok? ==> r.value.suppressed == initial - remaining
    ensures r.Ok? && initial >= remaining ==> r.value.percent >= 0.0
  {
    if remaining == 0 then Err(ZeroDivisionError)
    else
      var suppressed := initial - remaining;
      Ok(Report(suppressed, suppressed as real / remaining as real * 100.0))
  }

  /**
   * The report of a cleaning run: the suppressed count is never negative, and
   * the run raises exactly when every row was removed.
   */
  lemma CleaningReport(rows: seq<Row>, v: Variant, std: seq<real> -> Option<real>)
    ensures var r := SuppressionReport(|rows|, |CleanAbsurd(rows, v, std)|);
            && (r.Err? <==> CleanAbsurd(rows, v, std) == [])
            && (r.Ok? ==> 0 <= r.value.suppressed <= |rows|)
  {
    CleanAbsurdSubsetOfInput(rows, v, std);
  }

  /**
   * `clean_transactions`: the outlier filter, whose KeyError on a frame with no
   * rows propagates, then the report, whose division raises when the filter
   * removed every row.
   */
  method CleanTransactions(df: Frame, v: Variant, std: seq<real> -> Option<real>) returns (r: Result<CleanFrame>)
    modifies df
    ensures df.rows == old(df.rows)
    ensures df.columns == AssignColumn(old(df.columns), "year")
    ensures old(df.rows) == [] ==> r == Err(KeyError)
    ensures old(df.rows) != [] ==>
              var out := CleanAbsurd(old(df.rows), v, std);
              r == if out == [] then Err(ZeroDivisionError) else Ok(CleanFrame(ResultColumns(old(df.columns)), out))
  {
    var initial := |df.rows|;
    var clean := CleanTransactionsAbsurd(df, v, std);
    if clean.Err? {
      return Err(clean.error);
    }
    var report := SuppressionReport(initial, |clean.value.rows|);
    if report.Err? {
      return Err(report.error);
    }
    r := Ok(clean.value);
  }
}
