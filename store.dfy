/**
 * The database side of the scripts: named tables written by `DataFrame.to_sql`,
 * and the SQLAlchemy session the writers open, commit, roll back and close.
 * `to_sql` writes through the engine, not through the session, so a rollback of
 * the session does not undo chunks that were already written.
 */
module Store {
  import opened Wrappers
  import opened Seqs

  /** `if_exists=` of `to_sql`. */
  datatype Mode = Append | Replace

  /** What a writer did, in order: write calls and session operations. */
  datatype Event = ToSql(table: string, mode: Mode) | Commit | Rollback | Close

  /** The rows of a table; a table that does not exist yet reads as empty. */
  function TableOr<R>(tables: map<string, seq<R>>, name: string): seq<R>
  {
    if name in tables then tables[name] else []
  }

  /** A database with its tables, and the log of what writers did to it. */
  class Database<R> {
    var tables: map<string, seq<R>>
    var log: seq<Event>

    constructor (tables: map<string, seq<R>>)
      ensures this.tables == tables && log == []
    {
      this.tables := tables;
      log := [];
    }

    /**
     * `to_sql(..., if_exists='append')`: creates the table when missing and adds
     * the rows after the existing ones; a call the database rejects (`accepted`
     * false) raises and changes no table.
     */
    method ToSqlAppend(name: string, rows: seq<R>, accepted: bool) returns (res: Outcome)
      modifies this
      ensures accepted ==> res == Pass && tables == old(tables)[name := TableOr(old(tables), name) + rows]
      ensures !accepted ==> res == Fail(WriteFailed) && tables == old(tables)
      ensures log == old(log) + [ToSql(name, Append)]
    {
      log := log + [ToSql(name, Append)];
      if !accepted {
        return Fail(WriteFailed);
      }
      tables := tables[name := TableOr(tables, name) + rows];
      res := Pass;
    }

    /** `to_sql(..., if_exists='replace')`: the table holds exactly `rows` afterwards. */
    method ToSqlReplace(name: string, rows: seq<R>, accepted: bool) returns (res: Outcome)
      modifies this
      ensures accepted ==> res == Pass && tables == old(tables)[name := rows]
      ensures !accepted ==> res == Fail(WriteFailed) && tables == old(tables)
      ensures log == old(log) + [ToSql(name, Replace)]
    {
      log := log + [ToSql(name, Replace)];
      if !accepted {
        return Fail(WriteFailed);
      }
      tables := tables[name := rows];
      res := Pass;
    }

    /** A session operation: logged, no table changes. */
    method Session(e: Event)
      requires !e.ToSql?
      modifies this
      ensures tables == old(tables)
      ensures log == old(log) + [e]
    {
      log := log + [e];
    }
  }

  function Min(a: int, b: int): int
  {
    if a <= b then a else b
  }

  /** `dataframe.iloc[i:i+c]` for `i` in `range(start, len(rows), c)`. */
  function ChunksFrom<R>(rows: seq<R>, c: nat, start: nat): (cs: seq<seq<R>>)
    requires c > 0
    ensures start >= |rows| <==> cs == []
    decreases |rows| - start
  {
    if start >= |rows| then []
    else [rows[start..Min(start + c, |rows|)]] + ChunksFrom(rows, c, start + c)
  }

  /** The chunks `write_to_db` writes, in order; put back together they are the frame. */
  function Chunks<R>(rows: seq<R>, c: nat): (cs: seq<seq<R>>)
    requires c > 0
    ensures Flatten(cs) == rows
  {
    ChunksFromFlatten(rows, c, 0);
    ChunksFrom(rows, c, 0)
  }

  /** The chunks put back together are the rows from `start` on. */
  lemma {:induction false} ChunksFromFlatten<R>(rows: seq<R>, c: nat, start: nat)
    requires c > 0 && start <= |rows|
    ensures Flatten(ChunksFrom(rows, c, start)) == rows[start..]
    decreases |rows| - start
  {
    if start < |rows| {
      var next := Min(start + c, |rows|);
      if start + c <= |rows| {
        ChunksFromFlatten(rows, c, start + c);
      } else {
        assert ChunksFrom(rows, c, start + c) == [];
      }
      var cs := ChunksFrom(rows, c, start);
      assert cs[0] == rows[start..next];
      assert cs[1..] == ChunksFrom(rows, c, start + c);
      assert Flatten(cs[1..]) == rows[next..];
      assert rows[start..] == rows[start..next] + rows[next..];
    }
  }

  /** Every chunk is non-empty and at most `c` rows long, and chunk `k` starts at row `start + k * c`. */
  lemma {:induction false} ChunksFromShape<R>(rows: seq<R>, c: nat, start: nat, k: nat)
    requires c > 0 && k < |ChunksFrom(rows, c, start)|
    ensures start + k * c < |rows|
    ensures ChunksFrom(rows, c, start)[k] == rows[start + k * c .. Min(start + k * c + c, |rows|)]
    ensures 0 < |ChunksFrom(rows, c, start)[k]| <= c
    decreases |rows| - start
  {
    var cs := ChunksFrom(rows, c, start);
    assert start < |rows|;
    var rest := ChunksFrom(rows, c, start + c);
    assert cs == [rows[start..Min(start + c, |rows|)]] + rest;
    if k == 0 {
      assert k * c == 0;
      assert cs[0] == rows[start..Min(start + c, |rows|)];
    } else {
      assert cs[k] == rest[k - 1];
      ChunksFromShape(rows, c, start + c, k - 1);
      assert start + c + (k - 1) * c == start + k * c by {
        assert (k - 1) * c + c == k * c;
      }
    }
  }

  /** `range(start, n, c)` has `(n - start + c - 1) / c` elements, one chunk each. */
  lemma {:induction false} ChunksFromCount<R>(rows: seq<R>, c: nat, start: nat)
    requires c > 0 && start <= |rows|
    ensures |ChunksFrom(rows, c, start)| * c >= |rows| - start
    ensures |ChunksFrom(rows, c, start)| * c < |rows| - start + c
    decreases |rows| - start
  {
    if start < |rows| {
      if start + c <= |rows| {
        ChunksFromCount(rows, c, start + c);
        var m := |ChunksFrom(rows, c, start + c)|;
        assert |ChunksFrom(rows, c, start)| == m + 1;
        assert (m + 1) * c == m * c + c;
      } else {
        assert ChunksFrom(rows, c, start + c) == [];
        assert |ChunksFrom(rows, c, start)| == 1;
      }
    }
  }

  /**
   * The chunks of a frame cover it exactly, each is non-empty and at most `c`
   * rows long, and there are `ceil(n / c)` of them: the least count whose
   * chunks of `c` rows would hold all `n` rows.
   */
  lemma ChunksPartition<R>(rows: seq<R>, c: nat)
    requires c > 0
    ensures Flatten(Chunks(rows, c)) == rows
    ensures |rows| <= |Chunks(rows, c)| * c < |rows| + c
    ensures forall k :: 0 <= k < |Chunks(rows, c)| ==> 0 < |Chunks(rows, c)[k]| <= c
  {
    ChunksFromFlatten(rows, c, 0);
    ChunksFromCount(rows, c, 0);
    forall k | 0 <= k < |Chunks(rows, c)|
      ensures 0 < |Chunks(rows, c)[k]| <= c
    {
      ChunksFromShape(rows, c, 0, k);
    }
  }

  /** The first `k` chunks hold exactly the first `k * c` rows (all rows, if fewer). */
  lemma {:induction false} ChunksPrefix<R>(rows: seq<R>, c: nat, k: nat)
    requires c > 0 && k <= |Chunks(rows, c)|
    ensures Flatten(Chunks(rows, c)[..k]) == rows[..Min(k * c, |rows|)]
  {
    var cs := Chunks(rows, c);
    if k == 0 {
      assert cs[..0] == [];
    } else {
      var j := k - 1;
      ChunksPrefix(rows, c, j);
      ChunksFromShape(rows, c, 0, j);
      var lo := j * c;
      assert lo < |rows|;
      assert k * c == lo + c;
      FlattenStep(rows, cs, k, 0, lo, Min(lo + c, |rows|));
    }
  }

  /** Adding the next chunk, which continues where the previous ones stopped, extends the covered rows. */
  lemma FlattenStep<R>(rows: seq<R>, cs: seq<seq<R>>, k: nat, start: nat, lo: nat, hi: nat)
    requires 0 < k <= |cs| && start <= lo <= hi <= |rows|
    requires Flatten(cs[..k - 1]) == rows[start..lo]
    requires cs[k - 1] == rows[lo..hi]
    ensures Flatten(cs[..k]) == rows[start..hi]
  {
    InitLast(cs[..k]);
    assert cs[..k][..k - 1] == cs[..k - 1];
    FlattenAppend(cs[..k - 1], [cs[k - 1]]);
    assert Flatten([cs[k - 1]]) == cs[k - 1] + Flatten([]);
    assert rows[start..hi] == rows[start..lo] + rows[lo..hi];
  }


  /** The tables after appending each chunk in turn to `name`. */
  function AppendAll<R>(tables: map<string, seq<R>>, name: string, cs: seq<seq<R>>): map<string, seq<R>>
    decreases |cs|
  {
    if cs == [] then tables
    else AppendAll(tables[name := TableOr(tables, name) + cs[0]], name, cs[1..])
  }


  /** Appending one more chunk extends the previous state of the table by that chunk. */
  lemma AppendAllSnoc<R>(tables: map<string, seq<R>>, name: string, cs: seq<seq<R>>, k: nat)
    requires k < |cs|
    ensures var before := AppendAll(tables, name, cs[..k]);
            AppendAll(tables, name, cs[..k + 1]) == before[name := TableOr(before, name) + cs[k]]
  {
    assert cs[..k + 1] == cs[..k] + [cs[k]];
    AppendAllLast(tables, name, cs[..k], cs[k]);
  }

  lemma {:induction false} AppendAllLast<R>(tables: map<string, seq<R>>, name: string, ds: seq<seq<R>>, d: seq<R>)
    ensures var before := AppendAll(tables, name, ds);
            AppendAll(tables, name, ds + [d]) == before[name := TableOr(before, name) + d]
    decreases |ds|
  {
    if ds == [] {
      assert ds + [d] == [d];
      assert [d][1..] == [];
    } else {
      var next := tables[name := TableOr(tables, name) + ds[0]];
      assert (ds + [d])[0] == ds[0];
      assert (ds + [d])[1..] == ds[1..] + [d];
      AppendAllLast(next, name, ds[1..], d);
    }
  }


  /** Appending the chunks one by one leaves `name` holding its old rows followed by all chunk rows. */
  lemma {:induction false} AppendAllContents<R>(tables: map<string, seq<R>>, name: string, cs: seq<seq<R>>)
    ensures TableOr(AppendAll(tables, name, cs), name) == TableOr(tables, name) + Flatten(cs)
    decreases |cs|
  {
    if cs == [] {
      assert Flatten(cs) == [];
    } else {
      var next := tables[name := TableOr(tables, name) + cs[0]];
      AppendAllContents(next, name, cs[1..]);
      assert TableOr(next, name) == TableOr(tables, name) + cs[0];
      AppendAssoc(TableOr(tables, name), cs[0], Flatten(cs[1..]));
    }
  }



  /** Appending to `name` leaves every other table as it was, present or absent. */
  lemma {:induction false} AppendAllOthers<R>(tables: map<string, seq<R>>, name: string, cs: seq<seq<R>>, t: string)
    requires t != name
    ensures t in AppendAll(tables, name, cs) <==> t in tables
    ensures t in tables ==> AppendAll(tables, name, cs)[t] == tables[t]
    decreases |cs|
  {
    if cs != [] {
      AppendAllOthers(tables[name := TableOr(tables, name) + cs[0]], name, cs[1..], t);
    }
  }


  /**
   * What a chunked write leaves in the target table: after `f` accepted chunks it
   * holds its old rows followed by the first `f * c` rows of the frame (the whole
   * frame once every chunk is in); other tables are untouched.
   */
  lemma ChunkedWriteContents<R>(tables: map<string, seq<R>>, name: string, frame: seq<R>, c: nat, f: nat)
    requires c > 0 && f <= |Chunks(frame, c)|
    ensures TableOr(AppendAll(tables, name, Chunks(frame, c)[..f]), name) == TableOr(tables, name) + frame[..Min(f * c, |frame|)]
    ensures f == |Chunks(frame, c)| ==> TableOr(AppendAll(tables, name, Chunks(frame, c)[..f]), name) == TableOr(tables, name) + frame
    ensures forall t :: t != name ==> (t in AppendAll(tables, name, Chunks(frame, c)[..f]) <==> t in tables)
  {
    var cs := Chunks(frame, c);
    AppendAllContents(tables, name, cs[..f]);
    ChunksPrefix(frame, c, f);
    if f == |cs| {
      ChunksFromFlatten(frame, c, 0);
      assert cs[..f] == cs;
    }
    forall t | t != name
      ensures t in AppendAll(tables, name, cs[..f]) <==> t in tables
    {
      AppendAllOthers(tables, name, cs[..f], t);
    }
  }

  /** The session log of `k` chunks written and committed. */
  function ChunkEvents(table: string, accepted: bool): seq<Event>
  {
    if accepted then [ToSql(table, Append), Commit] else [ToSql(table, Append), Rollback, Close]
  }

  function Rounds(log: seq<Event>, table: string, k: nat): seq<Event>
  {
    if k == 0 then log else Rounds(log, table, k - 1) + ChunkEvents(table, true)
  }

  /** `k` rounds add `2 * k` events after `log`: append `j` is followed by its commit. */
  lemma {:induction false} RoundsShape(log: seq<Event>, table: string, k: nat)
    ensures |Rounds(log, table, k)| == |log| + 2 * k
    ensures Rounds(log, table, k)[..|log|] == log
    ensures forall j :: 0 <= j < k ==>
              (Rounds(log, table, k)[|log| + 2 * j] == ToSql(table, Append) && Rounds(log, table, k)[|log| + 2 * j + 1] == Commit)
  {
    if k > 0 {
      RoundsShape(log, table, k - 1);
      var prev := Rounds(log, table, k - 1);
      var r := Rounds(log, table, k);
      assert r == prev + [ToSql(table, Append), Commit];
      assert r[..|log|] == prev[..|log|];
      forall j | 0 <= j < k
        ensures r[|log| + 2 * j] == ToSql(table, Append) && r[|log| + 2 * j + 1] == Commit
      {
        if j < k - 1 {
          assert r[|log| + 2 * j] == prev[|log| + 2 * j];
          assert r[|log| + 2 * j + 1] == prev[|log| + 2 * j + 1];
        }
      }
    }
  }

  /** The number of writes `ok` accepts before the first one it rejects, at most `n`. */
  function FirstFailure(ok: nat -> bool, n: nat): (f: nat)
    ensures f <= n
    ensures forall j :: 0 <= j < f ==> ok(j)
    ensures f < n ==> !ok(f)
  {
    if n == 0 then 0
    else
      var f := FirstFailure(ok, n - 1);
      if f < n - 1 then f else if ok(n - 1) then n else n - 1
  }

  /**
   * `write_to_db` of import_transactions and script_model_transactions: the frame
   * goes out in chunks of `chunksize` rows, each appended and then committed.
   * The first rejected chunk makes the session roll back and the error propagate;
   * the session is closed in every case. `ok(j)` says whether the database
   * accepts chunk `j`. A zero chunk size makes `range` raise ValueError inside
   * the `try`; a negative one gives an empty range.
   */
  method WriteToDb<R>(db: Database<R>, frame: seq<R>, table: string, chunksize: int, ok: nat -> bool)
    returns (res: Outcome)
    modifies db
    ensures chunksize == 0 ==> res == Fail(ValueError) && db.tables == old(db.tables)
                               && db.log == old(db.log) + [Rollback, Close]
    ensures chunksize < 0 ==> res == Pass && db.tables == old(db.tables) && db.log == old(db.log) + [Close]
    ensures chunksize > 0 ==>
              var cs := Chunks(frame, chunksize);
              var f := FirstFailure(ok, |cs|);
              && db.tables == AppendAll(old(db.tables), table, cs[..f])
              && (f == |cs| ==> res == Pass && db.log == Rounds(old(db.log), table, f) + [Close])
              && (f < |cs| ==> res == Fail(WriteFailed)
                               && db.log == Rounds(old(db.log), table, f) + [ToSql(table, Append), Rollback, Close])
  {
    if chunksize == 0 {
      db.Session(Rollback);
      db.Session(Close);
      return Fail(ValueError);
    }
    if chunksize < 0 {
      db.Session(Close);
      return Pass;
    }
    res := WriteChunks(db, frame, table, chunksize, ok);
  }

  /** The `for` loop of `write_to_db` with its `except` and `finally` clauses, for a positive chunk size. */
  method WriteChunks<R>(db: Database<R>, frame: seq<R>, table: string, c: nat, ok: nat -> bool)
    returns (res: Outcome)
    requires c > 0
    modifies db
    ensures var cs := Chunks(frame, c);
            var f := FirstFailure(ok, |cs|);
            && db.tables == AppendAll(old(db.tables), table, cs[..f])
            && (f == |cs| ==> res == Pass && db.log == Rounds(old(db.log), table, f) + [Close])
            && (f < |cs| ==> res == Fail(WriteFailed)
                             && db.log == Rounds(old(db.log), table, f) + ChunkEvents(table, false))
  {
    ghost var cs := Chunks(frame, c);
    ghost var f := FirstFailure(ok, |cs|);
    ghost var log0 := db.log;
    var i: nat := 0;
    var k: nat := 0;
    while i < |frame|
      invariant k <= f && k <= |cs|
      invariant cs[k..] == ChunksFrom(frame, c, i)
      invariant db.tables == AppendAll(old(db.tables), table, cs[..k])
      invariant db.log == Rounds(log0, table, k)
      decreases |frame| - i
    {
      var chunk := frame[i..Min(i + c, |frame|)];
      ChunkStep(frame, c, i, cs, k);
      ghost var log1 := db.log;
      var written := AppendChunk(db, table, chunk, ok(k));
      if written.Fail? {
        assert k == f;
        return written;
      }
      assert ok(k);
      assert f < |cs| ==> !ok(f);
      assert k < f;
      AppendAllSnoc(old(db.tables), table, cs, k);
      i := i + c;
      k := k + 1;
    }
    assert cs[k..] == [];
    assert k == |cs| == f;
    db.Session(Close);
    res := Pass;
  }
  /**
   * One pass of the loop body: the chunk is appended and committed; a rejected
   * chunk instead rolls the session back and closes it on the way out.
   */
  method AppendChunk<R>(db: Database<R>, table: string, chunk: seq<R>, accepted: bool) returns (res: Outcome)
    modifies db
    ensures accepted ==> res == Pass && db.tables == old(db.tables)[table := TableOr(old(db.tables), table) + chunk]
    ensures !accepted ==> res == Fail(WriteFailed) && db.tables == old(db.tables)
    ensures db.log == old(db.log) + ChunkEvents(table, accepted)
  {
    res := db.ToSqlAppend(table, chunk, accepted);
    if res.Fail? {
      db.Session(Rollback);
      db.Session(Close);
    } else {
      db.Session(Commit);
    }
  }

  /** One round of the loop: the next chunk starts at row `i` and the rest of the chunks follow it. */
  lemma ChunkStep<R>(frame: seq<R>, c: nat, i: nat, cs: seq<seq<R>>, k: nat)
    requires c > 0 && i < |frame| && k <= |cs|
    requires cs[k..] == ChunksFrom(frame, c, i)
    ensures k < |cs|
    ensures cs[k] == frame[i..Min(i + c, |frame|)]
    ensures cs[k + 1..] == ChunksFrom(frame, c, i + c)
  {
    var rest := ChunksFrom(frame, c, i + c);
    assert ChunksFrom(frame, c, i) == [frame[i..Min(i + c, |frame|)]] + rest;
    assert cs[k..][0] == cs[k];
    assert cs[k..][1..] == cs[k + 1..];
  }

  /**
   * `write_to_db` of import_other_tables: the whole frame replaces the table, then
   * the session commits; a rejected write rolls back and propagates. The session
   * is closed either way.
   */
  method WriteTableReplace<R>(db: Database<R>, frame: seq<R>, table: string, accepted: bool) returns (res: Outcome)
    modifies db
    ensures accepted ==> res == Pass && db.tables == old(db.tables)[table := frame]
                         && db.log == old(db.log) + [ToSql(table, Replace), Commit, Close]
    ensures !accepted ==> res == Fail(WriteFailed) && db.tables == old(db.tables)
                          && db.log == old(db.log) + [ToSql(table, Replace), Rollback, Close]
  {
    res := db.ToSqlReplace(table, frame, accepted);
    if res.Fail? {
      db.Session(Rollback);
    } else {
      db.Session(Commit);
    }
    db.Session(Close);
  }

  /**
   * `write_to_db` of import_data: one replace-style write on the sqlite
   * connection, no session; the `except` clause re-raises the same error.
   */
  method ReplaceTable<R>(db: Database<R>, frame: seq<R>, table: string, accepted: bool) returns (res: Outcome)
    modifies db
    ensures accepted ==> res == Pass && db.tables == old(db.tables)[table := frame]
    ensures !accepted ==> res == Fail(WriteFailed) && db.tables == old(db.tables)
    ensures db.log == old(db.log) + [ToSql(table, Replace)]
  {
    res := db.ToSqlReplace(table, frame, accepted);
  }

  /** The rows with pandas' default index written as the first column (`index=True`). */
  function WithRangeIndex<R>(rows: seq<R>): (r: seq<(int, R)>)
    ensures |r| == |rows|
    ensures forall i :: 0 <= i < |rows| ==> r[i] == (i, rows[i])
  {
    seq(|rows|, i requires 0 <= i < |rows| => (i, rows[i]))
  }
}
