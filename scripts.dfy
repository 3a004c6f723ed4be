/**
 * The top-level flows of the scripts: clean the transactions with one variant
 * of the outlier filter and write them, or (import_data) only clean them, or
 * (transactions_tosql) decode the archive and replace the `transactions` table.
 */
module Scripts {
  import opened Wrappers
  import opened Outliers
  import opened Cleaning
  import opened Store
  import opened Archive
  import CsvImport

  /** `write_to_db`'s default chunk size. */
  const ChunkSize: nat := 10000

  /**
   * import_transactions: the 3σ one-sided clean, then the chunked write to
   * `transactions`. `df` is the frame `read_transactions` built from the archive.
   * A frame with no rows (KeyError) or a clean that removes every row
   * (ZeroDivisionError) raises before anything is written.
   */
  method ImportTransactionsMain(df: Frame, db: Database<CleanRow>, std: seq<real> -> Option<real>, ok: nat -> bool)
    returns (res: Outcome)
    modifies df, db
    ensures df.rows == old(df.rows)
    ensures df.columns == AssignColumn(old(df.columns), "year")
    ensures old(df.rows) == [] ==> res == Fail(KeyError) && db.tables == old(db.tables) && db.log == old(db.log)
    ensures var cleaned := CleanAbsurd(old(df.rows), OneSided3, std);
            && (old(df.rows) != [] && cleaned == [] ==>
                  res == Fail(ZeroDivisionError) && db.tables == old(db.tables) && db.log == old(db.log))
            && (cleaned != [] ==>
                  var cs := Chunks(cleaned, ChunkSize);
                  var f := FirstFailure(ok, |cs|);
                  && db.tables == AppendAll(old(db.tables), "transactions", cs[..f])
                  && (f == |cs| ==> res == Pass && db.log == Rounds(old(db.log), "transactions", f) + [Close])
                  && (f < |cs| ==> res == Fail(WriteFailed)
                                   && db.log == Rounds(old(db.log), "transactions", f)
                                                + [ToSql("transactions", Append), Rollback, Close]))
  {
    var clean := CleanTransactions(df, OneSided3, std);
    if clean.Err? {
      return Fail(clean.error);
    }
    res := WriteToDb(db, clean.value.rows, "transactions", ChunkSize, ok);
  }

  /**
   * script_model_transactions: without `SOURCES_TRANSACTIONS` the script raises
   * ValueError before touching anything; otherwise the 2σ two-sided clean and the
   * chunked write. `df` is the frame read from the archive the variable names.
   */
  method ScriptModelMain(source: Option<string>, df: Frame, db: Database<CleanRow>,
                         std: seq<real> -> Option<real>, ok: nat -> bool) returns (res: Outcome)
    modifies df, db
    ensures df.rows == old(df.rows)
    ensures source.None? ==> res == Fail(ValueError) && db.tables == old(db.tables) && db.log == old(db.log)
                             && df.columns == old(df.columns)
    ensures source.Some? ==> df.columns == AssignColumn(old(df.columns), "year")
    ensures source.Some? && old(df.rows) == [] ==>
              res == Fail(KeyError) && db.tables == old(db.tables) && db.log == old(db.log)
    ensures source.Some? ==>
              var cleaned := CleanAbsurd(old(df.rows), TwoSided2, std);
              && (old(df.rows) != [] && cleaned == [] ==>
                    res == Fail(ZeroDivisionError) && db.tables == old(db.tables) && db.log == old(db.log))
              && (cleaned != [] ==>
                    var cs := Chunks(cleaned, ChunkSize);
                    var f := FirstFailure(ok, |cs|);
                    && db.tables == AppendAll(old(db.tables), "transactions", cs[..f])
                    && (f == |cs| ==> res == Pass && db.log == Rounds(old(db.log), "transactions", f) + [Close])
                    && (f < |cs| ==> res == Fail(WriteFailed)
                                     && db.log == Rounds(old(db.log), "transactions", f)
                                                  + [ToSql("transactions", Append), Rollback, Close]))
  {
    if source.None? {
      return Fail(ValueError);
    }
    var clean := CleanTransactions(df, TwoSided2, std);
    if clean.Err? {
      return Fail(clean.error);
    }
    res := WriteToDb(db, clean.value.rows, "transactions", ChunkSize, ok);
  }

  /**
   * import_data: the 3σ one-sided clean only. Its range filter and its write to
   * the database are commented out, so the script changes no table.
   */
  method ImportDataMain(df: Frame, std: seq<real> -> Option<real>) returns (r: Result<CleanFrame>)
    modifies df
    ensures df.rows == old(df.rows)
    ensures df.columns == AssignColumn(old(df.columns), "year")
    ensures old(df.rows) == [] ==> r == Err(KeyError)
    ensures old(df.rows) != [] ==>
              var cleaned := CleanAbsurd(old(df.rows), OneSided3, std);
              r == if cleaned == [] then Err(ZeroDivisionError) else Ok(CleanFrame(ResultColumns(old(df.columns)), cleaned))
  {
    r := CleanTransactions(df, OneSided3, std);
  }

  /**
   * import_other_tables: the CSV directory comes from the configuration, whose
   * missing key raises KeyError before any file is read. `listdir` is the
   * directory's listing, `None` when `os.listdir` raises.
   */
  method ImportOtherTablesMain<R>(db: Database<R>, directory: Option<string>,
                                  listdir: string -> Option<seq<string>>,
                                  read: string -> Option<seq<R>>, ok: nat -> bool) returns (res: Outcome)
    modifies db
    ensures directory.None? ==> res == Fail(KeyError) && db.tables == old(db.tables) && db.log == old(db.log)
    ensures directory.Some? && listdir(directory.value).None? ==>
              res == Fail(ListDirFailed) && db.tables == old(db.tables) && db.log == old(db.log)
    ensures directory.Some? && listdir(directory.value).Some? ==>
              var run := CsvImport.ImportCsv(old(db.tables), old(db.log), CsvImport.Targets(listdir(directory.value).value),
                                             CsvImport.ReadIn(directory.value, read), ok, 0);
              db.tables == run.tables && db.log == run.log && res == run.outcome
  {
    if directory.None? {
      return Fail(KeyError);
    }
    var entries := listdir(directory.value);
    if entries.None? {
      return Fail(ListDirFailed);
    }
    res := CsvImport.ProcessCsvFiles(db, directory.value, entries.value, read, ok);
  }

  /**
   * transactions_tosql: decode the archive, build the frame and replace the
   * `transactions` table with it, index included. `archive` is what `np.load`
   * gives, `None` when it raises. A load error, a decoding error or columns of
   * different lengths raise before the write.
   */
  method TransactionsToSqlMain<V>(db: Database<(int, seq<Cell<V>>)>, archive: Option<seq<(string, NpArray<V>)>>,
                                  utf8: seq<Byte> -> Option<string>, accepted: bool) returns (res: Outcome)
    modifies db
    ensures archive.None? ==> res == Fail(LoadFailed) && db.tables == old(db.tables) && db.log == old(db.log)
    ensures archive.Some? ==>
            var data := DecodeArchive(archive.value, utf8);
            && (data.Err? ==> res == Fail(UnicodeDecodeError) && db.tables == old(db.tables) && db.log == old(db.log))
            && (data.Ok? && FromDict(data.value).Err? ==>
                  res == Fail(ValueError) && db.tables == old(db.tables) && db.log == old(db.log))
            && (data.Ok? && FromDict(data.value).Ok? ==>
                  var rows := WithRangeIndex(FromDict(data.value).value.rows);
                  && db.log == old(db.log) + [ToSql("transactions", Replace)]
                  && (accepted ==> res == Pass && db.tables == old(db.tables)["transactions" := rows])
                  && (!accepted ==> res == Fail(WriteFailed) && db.tables == old(db.tables)))
  {
    if archive.None? {
      return Fail(LoadFailed);
    }
    var data := DecodeArchive(archive.value, utf8);
    if data.Err? {
      return Fail(data.error);
    }
    var frame := FromDict(data.value);
    if frame.Err? {
      return Fail(frame.error);
    }
    res := ReplaceTable(db, WithRangeIndex(frame.value.rows), "transactions", accepted);
  }
}
