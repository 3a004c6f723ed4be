/**
 * import_other_tables: every entry of the CSV directory whose name ends in
 * `.csv` (case-sensitively) is read, passed through `clean_data` and written
 * over the table named after the file without its extension. The first read or
 * write that fails ends the run.
 */
module CsvImport {
  import opened Wrappers
  import opened Seqs
  import opened Store

  /** `file_name.endswith(".csv")`. */
  predicate EndsWithCsv(name: string): (b: bool)
    ensures b <==> exists stem :: name == stem + ".csv"
  {
    assert |name| >= 4 ==> name == name[..|name| - 4] + name[|name| - 4..];
    |name| >= 4 && name[|name| - 4..] == ".csv"
  }

  /** `s.rfind(c)`: the last position of `c`, or -1. */
  function LastIndexOf(s: string, c: char): (r: int)
    ensures -1 <= r < |s|
    ensures r >= 0 ==> s[r] == c
    ensures forall j :: r < j < |s| ==> s[j] != c
  {
    if s == [] then -1
    else if s[|s| - 1] == c then |s| - 1
    else LastIndexOf(s[..|s| - 1], c)
  }

  predicate AllDots(s: string, lo: int, hi: int)
    requires 0 <= lo <= hi <= |s|
  {
    forall j :: lo <= j < hi ==> s[j] == '.'
  }

  /**
   * `os.path.splitext(p)[0]` on POSIX: the text before the last dot of the last
   * path component, unless that component has nothing but dots before it.
   */
  function SplitextRoot(p: string): (r: string)
    ensures |r| <= |p| && r == p[..|r|]
    ensures r != p ==> p[|r|] == '.' && forall j :: |r| < j < |p| ==> p[j] != '.' && p[j] != '/'
    ensures r != p ==> exists j :: LastIndexOf(p, '/') < j < |r| && p[j] != '.'
    ensures r == p ==> forall j :: LastIndexOf(p, '/') < j < |p| && p[j] == '.' ==> AllDots(p, LastIndexOf(p, '/') + 1, j)
  {
    var sepIndex := LastIndexOf(p, '/');
    var dotIndex := LastIndexOf(p, '.');
    if dotIndex > sepIndex && !AllDots(p, sepIndex + 1, dotIndex) then p[..dotIndex] else p
  }

  /** The table a file goes to. */
  function TableName(fileName: string): string
  {
    SplitextRoot(fileName)
  }

  /**
   * The table of a `.csv` entry (`listdir` names hold no `/`): the name without
   * `.csv`, except that a name made only of dots before `.csv` (such as `.csv`
   * itself) is kept whole.
   */
  lemma CsvTableName(name: string)
    requires EndsWithCsv(name) && '/' !in name
    ensures !AllDots(name, 0, |name| - 4) ==> TableName(name) == name[..|name| - 4]
    ensures AllDots(name, 0, |name| - 4) ==> TableName(name) == name
  {
    var n := |name|;
    assert name[n - 4] == '.' && name[n - 3..] == "csv";
    assert name[n - 3] == 'c' && name[n - 2] == 's' && name[n - 1] == 'v';
    assert LastIndexOf(name, '/') == -1;
    assert LastIndexOf(name, '.') == n - 4;
  }

  /**
   * `os.path.join(directory, file_name)` on POSIX: an absolute name replaces the
   * directory; otherwise the name follows the directory, with one `/` inserted
   * unless the directory is empty or already ends in one.
   */
  function PathJoin(directory: string, fileName: string): (p: string)
    ensures |p| >= |fileName| && p[|p| - |fileName|..] == fileName
    ensures fileName != [] && fileName[0] == '/' ==> p == fileName
    ensures !(fileName != [] && fileName[0] == '/') ==>
              && |directory| <= |p| && p[..|directory|] == directory
              && (directory == [] || directory[|directory| - 1] == '/' ==> |p| == |directory| + |fileName|)
              && (directory != [] && directory[|directory| - 1] != '/' ==>
                    |p| == |directory| + 1 + |fileName| && p[|directory|] == '/')
  {
    if fileName != [] && fileName[0] == '/' then fileName
    else if directory == [] || directory[|directory| - 1] == '/' then directory + fileName
    else directory + "/" + fileName
  }

  /** `clean_data` is a placeholder that returns its frame unchanged. */
  function CleanData<R>(df: seq<R>): seq<R>
  {
    df
  }

  /** A `.csv` entry and the table it goes to. */
  datatype Target = Target(file: string, table: string)

  /** Each file with its table. */
  function TargetsOf(files: seq<string>): (ts: seq<Target>)
    ensures |ts| == |files|
    ensures forall k :: 0 <= k < |files| ==> ts[k] == Target(files[k], TableName(files[k]))
  {
    seq(|files|, k requires 0 <= k < |files| => Target(files[k], TableName(files[k])))
  }

  /** The entries of a listing that `process_csv_files` handles, with their tables, in order. */
  function Targets(entries: seq<string>): seq<Target>
  {
    TargetsOf(Filter(entries, EndsWithCsv))
  }

  /** A listing entry is handled iff its name ends in `.csv`, and goes to its splitext root. */
  lemma TargetsExact(entries: seq<string>, name: string)
    ensures (exists k :: 0 <= k < |Targets(entries)| && Targets(entries)[k].file == name)
            <==> name in entries && EndsWithCsv(name)
    ensures forall k :: 0 <= k < |Targets(entries)| ==> Targets(entries)[k].table == TableName(Targets(entries)[k].file)
  {
    var files := Filter(entries, EndsWithCsv);
    FilterMembership(entries, EndsWithCsv, name);
    if name in files {
      var k :| 0 <= k < |files| && files[k] == name;
      assert Targets(entries)[k].file == name;
    }
  }

  lemma TargetsOfCons(file: string, files: seq<string>)
    ensures TargetsOf([file] + files) == [Target(file, TableName(file))] + TargetsOf(files)
  {
    var ts := TargetsOf([file] + files);
    assert forall k :: 1 <= k < |ts| ==> ts[k] == TargetsOf(files)[k - 1] by {
      forall k | 1 <= k < |ts|
        ensures ts[k] == TargetsOf(files)[k - 1]
      {
        assert ([file] + files)[k] == files[k - 1];
      }
    }
  }

  /** The targets of a listing's suffix: its first entry if it is a `.csv` name, then the rest. */
  lemma TargetsStep(entries: seq<string>, i: nat)
    requires i < |entries|
    ensures Targets(entries[i..])
            == (if EndsWithCsv(entries[i]) then [Target(entries[i], TableName(entries[i]))] else []) + Targets(entries[i + 1..])
  {
    var e := entries[i];
    assert entries[i..][0] == e && entries[i..][1..] == entries[i + 1..];
    var rest := Filter(entries[i + 1..], EndsWithCsv);
    assert Filter(entries[i..], EndsWithCsv) == (if EndsWithCsv(e) then [e] else []) + rest;
    if EndsWithCsv(e) {
      TargetsOfCons(e, rest);
    } else {
      assert [] + Targets(entries[i + 1..]) == Targets(entries[i + 1..]);
    }
  }

  /** The tables, the session log and the outcome of a run. */
  datatype Run<R> = Run(tables: map<string, seq<R>>, log: seq<Event>, outcome: Outcome)

  /**
   * What `process_csv_files` does with its targets, in order: `load(name)` is
   * what pandas' reader gives for the entry `name` of the directory (None when
   * it raises), `ok(w)` whether write `w` of the run is accepted.
   */
  function ImportCsv<R>(tables: map<string, seq<R>>, log: seq<Event>, targets: seq<Target>,
                        load: string -> Option<seq<R>>, ok: nat -> bool, w: nat): (run: Run<R>)
    ensures |log| <= |run.log| && run.log[..|log|] == log
    ensures run.outcome in {Pass, Fail(ReadFailed), Fail(WriteFailed)}
    ensures run.outcome == Pass ==> |run.log| == |log| + 3 * |targets|
    decreases |targets|
  {
    if targets == [] then Run(tables, log, Pass)
    else
      var t := targets[0];
      match load(t.file)
      case None => Run(tables, log, Fail(ReadFailed))
      case Some(df) =>
        if ok(w) then
          ImportCsv(tables[t.table := CleanData(df)], log + [ToSql(t.table, Replace), Commit, Close],
                    targets[1..], load, ok, w + 1)
        else Run(tables, log + [ToSql(t.table, Replace), Rollback, Close], Fail(WriteFailed))
  }

  predicate AllRead<R>(targets: seq<Target>, load: string -> Option<seq<R>>)
  {
    forall k :: 0 <= k < |targets| ==> load(targets[k].file).Some?
  }

  predicate AllAccepted(ok: nat -> bool, w: nat, n: nat)
  {
    forall j :: w <= j < w + n ==> ok(j)
  }

  lemma AllReadCons<R>(targets: seq<Target>, load: string -> Option<seq<R>>)
    requires targets != []
    ensures AllRead(targets, load)
            <==> load(targets[0].file).Some? && AllRead(targets[1..], load)
  {
    if load(targets[0].file).Some? && AllRead(targets[1..], load) {
      forall k | 0 <= k < |targets|
        ensures load(targets[k].file).Some?
      {
        if k > 0 {
          assert targets[k] == targets[1..][k - 1];
        }
      }
    }
    if AllRead(targets, load) {
      forall k | 0 <= k < |targets[1..]|
        ensures load(targets[1..][k].file).Some?
      {
        assert targets[1..][k] == targets[k + 1];
      }
    }
  }

  lemma AllAcceptedCons(ok: nat -> bool, w: nat, n: nat)
    requires n > 0
    ensures AllAccepted(ok, w, n) <==> ok(w) && AllAccepted(ok, w + 1, n - 1)
  {
  }

  /** A successful run read its first file, had its write accepted and went on with the rest. */
  lemma ImportCsvStep<R>(tables: map<string, seq<R>>, log: seq<Event>,
                         targets: seq<Target>, load: string -> Option<seq<R>>, ok: nat -> bool, w: nat)
    requires targets != []
    requires ImportCsv(tables, log, targets, load, ok, w).outcome == Pass
    ensures load(targets[0].file).Some? && ok(w)
    ensures var t := targets[0];
            ImportCsv(tables, log, targets, load, ok, w)
            == ImportCsv(tables[t.table := load(t.file).value],
                         log + [ToSql(t.table, Replace), Commit, Close], targets[1..], load, ok, w + 1)
  {
  }

  /** The run succeeds exactly when every file is read and every write accepted. */
  lemma {:induction false} ImportCsvSucceeds<R>(tables: map<string, seq<R>>, log: seq<Event>,
                                                targets: seq<Target>, load: string -> Option<seq<R>>, ok: nat -> bool, w: nat)
    ensures ImportCsv(tables, log, targets, load, ok, w).outcome == Pass
            <==> AllRead(targets, load) && AllAccepted(ok, w, |targets|)
    decreases |targets|
  {
    if targets != [] {
      AllReadCons(targets, load);
      AllAcceptedCons(ok, w, |targets|);
      var t := targets[0];
      var r := load(t.file);
      if r.Some? && ok(w) {
        ImportCsvSucceeds(tables[t.table := r.value], log + [ToSql(t.table, Replace), Commit, Close],
                          targets[1..], load, ok, w + 1);
      }
    }
  }

  /**
   * How many targets the run gets through: the longest prefix whose files are
   * read and whose writes are accepted. The target after it is the one that fails.
   */
  function Processed<R>(targets: seq<Target>, load: string -> Option<seq<R>>,
                        ok: nat -> bool, w: nat): (m: nat)
    ensures m <= |targets|
    decreases |targets|
  {
    if targets == [] then 0
    else if Written(targets[0], load, ok, w) then 1 + Processed(targets[1..], load, ok, w + 1)
    else 0
  }

  /** The processed targets are all written, and the one after them is not. */
  lemma {:induction false} ProcessedExact<R>(targets: seq<Target>, load: string -> Option<seq<R>>,
                                             ok: nat -> bool, w: nat)
    ensures var m := Processed(targets, load, ok, w);
            && (forall k :: 0 <= k < m ==> Written(targets[k], load, ok, w + k))
            && (m < |targets| ==> !Written(targets[m], load, ok, w + m))
    decreases |targets|
  {
    if targets != [] && Written(targets[0], load, ok, w) {
      var rest := targets[1..];
      ProcessedExact(rest, load, ok, w + 1);
      var m := Processed(rest, load, ok, w + 1);
      forall k | 0 <= k < 1 + m
        ensures Written(targets[k], load, ok, w + k)
      {
        if k > 0 {
          assert targets[k] == rest[k - 1];
        }
      }
      if m < |rest| {
        assert targets[1 + m] == rest[m];
      }
    }
  }

  /** Write `j` of the run handles target `t`: its file is read and the write accepted. */
  predicate Written<R>(t: Target, load: string -> Option<seq<R>>, ok: nat -> bool, j: nat)
  {
    load(t.file).Some? && ok(j)
  }

  /** A table no processed target is named after keeps its contents, or stays absent, whatever the outcome. */
  lemma {:induction false} ImportCsvOthers<R>(tables: map<string, seq<R>>, log: seq<Event>,
                                              targets: seq<Target>, load: string -> Option<seq<R>>, ok: nat -> bool, w: nat,
                                              name: string)
    requires forall k :: 0 <= k < Processed(targets, load, ok, w) ==> targets[k].table != name
    ensures var run := ImportCsv(tables, log, targets, load, ok, w);
            (name in run.tables <==> name in tables) && (name in tables ==> run.tables[name] == tables[name])
    decreases |targets|
  {
    if targets != [] {
      var t := targets[0];
      var r := load(t.file);
      if r.Some? && ok(w) {
        assert forall k :: 0 <= k < Processed(targets[1..], load, ok, w + 1) ==> targets[1..][k] == targets[k + 1];
        ImportCsvOthers(tables[t.table := r.value], log + [ToSql(t.table, Replace), Commit, Close],
                        targets[1..], load, ok, w + 1, name);
      }
    }
  }

  /**
   * After a successful run, the table of each target that no later target
   * shares holds exactly what was read from its file (`clean_data` changes nothing).
   */
  lemma {:induction false} ImportCsvContents<R>(tables: map<string, seq<R>>, log: seq<Event>,
                                                targets: seq<Target>, load: string -> Option<seq<R>>, ok: nat -> bool, w: nat,
                                                k: nat)
    requires k < |targets|
    requires forall j :: k < j < |targets| ==> targets[j].table != targets[k].table
    requires ImportCsv(tables, log, targets, load, ok, w).outcome == Pass
    ensures load(targets[k].file).Some?
    ensures var run := ImportCsv(tables, log, targets, load, ok, w);
            targets[k].table in run.tables
            && run.tables[targets[k].table] == load(targets[k].file).value
    decreases |targets|
  {
    ImportCsvStep(tables, log, targets, load, ok, w);
    var t := targets[0];
    var tables' := tables[t.table := load(t.file).value];
    var log' := log + [ToSql(t.table, Replace), Commit, Close];
    if k == 0 {
      assert forall j :: 0 <= j < |targets[1..]| ==> targets[1..][j] == targets[j + 1];
      ImportCsvOthers(tables', log', targets[1..], load, ok, w + 1, t.table);
    } else {
      assert targets[1..][k - 1] == targets[k];
      ImportCsvContents(tables', log', targets[1..], load, ok, w + 1, k - 1);
    }
  }

  /** Write, commit and close for each target, in order. */
  function Entries(targets: seq<Target>): (log: seq<Event>)
    ensures |log| == 3 * |targets|
  {
    if targets == [] then []
    else [ToSql(targets[0].table, Replace), Commit, Close] + Entries(targets[1..])
  }

  /** The session log of a successful run: write, commit and close for each target. */
  lemma {:induction false} ImportCsvLog<R>(tables: map<string, seq<R>>, log: seq<Event>,
                                           targets: seq<Target>, load: string -> Option<seq<R>>, ok: nat -> bool, w: nat)
    requires ImportCsv(tables, log, targets, load, ok, w).outcome == Pass
    ensures ImportCsv(tables, log, targets, load, ok, w).log == log + Entries(targets)
    decreases |targets|
  {
    if targets == [] {
      assert log + [] == log;
    } else {
      ImportCsvStep(tables, log, targets, load, ok, w);
      var t := targets[0];
      var entry := [ToSql(t.table, Replace), Commit, Close];
      var tables' := tables[t.table := load(t.file).value];
      ImportCsvLog(tables', log + entry, targets[1..], load, ok, w + 1);
      AppendAssoc(log, entry, Entries(targets[1..]));
      assert Entries(targets) == entry + Entries(targets[1..]);
    }
  }

  /**
   * A failed run stops at the target after the processed ones: every earlier
   * target was written and committed, and the failing one either was not read
   * (nothing more is logged) or was written and rolled back; no later target
   * is touched.
   */
  lemma {:induction false} ImportCsvFailure<R>(tables: map<string, seq<R>>, log: seq<Event>,
                                               targets: seq<Target>, load: string -> Option<seq<R>>, ok: nat -> bool, w: nat)
    requires ImportCsv(tables, log, targets, load, ok, w).outcome.Fail?
    ensures var run := ImportCsv(tables, log, targets, load, ok, w);
            var m := Processed(targets, load, ok, w);
            && m < |targets|
            && (load(targets[m].file).None? ==>
                  run.outcome == Fail(ReadFailed) && run.log == log + Entries(targets[..m]))
            && (load(targets[m].file).Some? ==>
                  && !ok(w + m) && run.outcome == Fail(WriteFailed)
                  && run.log == log + Entries(targets[..m]) + [ToSql(targets[m].table, Replace), Rollback, Close])
    decreases |targets|
  {
    var t := targets[0];
    var r := load(t.file);
    if r.Some? && ok(w) {
      var entry := [ToSql(t.table, Replace), Commit, Close];
      var rest := targets[1..];
      var tables' := tables[t.table := r.value];
      assert ImportCsv(tables, log, targets, load, ok, w) == ImportCsv(tables', log + entry, rest, load, ok, w + 1);
      ImportCsvFailure(tables', log + entry, rest, load, ok, w + 1);
      var m' := Processed(rest, load, ok, w + 1);
      assert Processed(targets, load, ok, w) == m' + 1;
      assert rest[m'] == targets[m' + 1];
      var done := Entries(rest[..m']);
      assert targets[..m' + 1] == [t] + rest[..m'];
      assert Entries(targets[..m' + 1]) == entry + done;
      AppendAssoc(log, entry, done);
      assert (log + entry) + done == log + Entries(targets[..m' + 1]);
    } else {
      assert targets[..0] == [];
      assert log + Entries([]) == log;
    }
  }

  /** `read_csv(os.path.join(directory, name))` as a function of the entry `name`. */
  function ReadIn<R>(directory: string, read: string -> Option<seq<R>>): string -> Option<seq<R>>
  {
    name => read(PathJoin(directory, name))
  }

  /**
   * `process_csv_files`: the loop over the directory listing `entries`. Names not
   * ending in `.csv` are skipped; the run stops at the first failure.
   */
  method ProcessCsvFiles<R>(db: Database<R>, directory: string, entries: seq<string>,
                            read: string -> Option<seq<R>>, ok: nat -> bool) returns (res: Outcome)
    modifies db
    ensures var run := ImportCsv(old(db.tables), old(db.log), Targets(entries), ReadIn(directory, read), ok, 0);
            db.tables == run.tables && db.log == run.log && res == run.outcome
  {
    ghost var run := ImportCsv(db.tables, db.log, Targets(entries), ReadIn(directory, read), ok, 0);
    assert entries[0..] == entries;
    var i := 0;
    var w: nat := 0;
    while i < |entries|
      invariant 0 <= i <= |entries|
      invariant run == ImportCsv(db.tables, db.log, Targets(entries[i..]), ReadIn(directory, read), ok, w)
      decreases |entries| - i
    {
      var fileName := entries[i];
      ghost var todo := Targets(entries[i..]);
      ghost var rest := Targets(entries[i + 1..]);
      TargetsStep(entries, i);
      if EndsWithCsv(fileName) {
        var filePath := PathJoin(directory, fileName);
        var tableName := TableName(fileName);
        assert todo == [Target(fileName, tableName)] + rest;
        assert todo[0] == Target(fileName, tableName) && todo[1..] == rest;
        var df := read(filePath);
        assert df == ReadIn(directory, read)(fileName);
        if df.None? {
          return Fail(ReadFailed);
        }
        var cleaned := CleanData(df.value);
        ghost var tables0, log0 := db.tables, db.log;
        var written := WriteTableReplace(db, cleaned, tableName, ok(w));
        if written.Fail? {
          return written;
        }
        assert run == ImportCsv(tables0[tableName := cleaned], log0 + [ToSql(tableName, Replace), Commit, Close],
                                rest, ReadIn(directory, read), ok, w + 1);
        w := w + 1;
      } else {
        assert todo == rest;
      }
      i := i + 1;
    }
    assert entries[i..] == [];
    res := Pass;
  }
}
