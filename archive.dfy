/**
 * Reading the transactions archive: every `uint8` array of the `.npz` file is a
 * run of UTF-8 strings separated by NUL bytes (`v.tobytes().split(b"\x00")`,
 * each piece decoded), every other array is taken as it is, and
 * `DataFrame.from_dict` turns the named columns into rows.
 */
module Archive {
  import opened Wrappers
  import opened Seqs

  type Byte = bv8

  const NUL: Byte := 0

  /** `bytes.split(b"\x00")`: the pieces between NULs, always at least one. */
  function Split(bytes: seq<Byte>): (pieces: seq<seq<Byte>>)
    ensures |pieces| >= 1
  {
    if bytes == [] then [[]]
    else
      var rest := Split(bytes[1..]);
      if bytes[0] == NUL then [[]] + rest else [[bytes[0]] + rest[0]] + rest[1..]
  }

  /** `b"\x00".join(pieces)`. */
  function Join(pieces: seq<seq<Byte>>): seq<Byte>
    requires |pieces| >= 1
  {
    if |pieces| == 1 then pieces[0] else pieces[0] + [NUL] + Join(pieces[1..])
  }

  predicate NulFree(piece: seq<Byte>)
  {
    forall i :: 0 <= i < |piece| ==> piece[i] != NUL
  }

  /** Splitting loses nothing: joining the pieces with NUL gives the bytes back. */
  lemma {:induction false} JoinSplit(bytes: seq<Byte>)
    ensures Join(Split(bytes)) == bytes
  {
    if bytes != [] {
      var rest := Split(bytes[1..]);
      JoinSplit(bytes[1..]);
      if bytes[0] == NUL {
        assert Split(bytes)[1..] == rest;
        assert bytes == [NUL] + bytes[1..];
      } else {
        var pieces := Split(bytes);
        if |rest| == 1 {
          assert pieces == [[bytes[0]] + rest[0]];
        } else {
          assert pieces[1..] == rest[1..];
          assert Join(rest) == rest[0] + [NUL] + Join(rest[1..]);
        }
        assert bytes == [bytes[0]] + bytes[1..];
      }
    }
  }

  /** No piece contains a NUL. */
  lemma {:induction false} SplitNulFree(bytes: seq<Byte>)
    ensures forall k :: 0 <= k < |Split(bytes)| ==> NulFree(Split(bytes)[k])
  {
    if bytes != [] {
      SplitNulFree(bytes[1..]);
      var rest := Split(bytes[1..]);
      if bytes[0] != NUL {
        var pieces := Split(bytes);
        forall k | 0 <= k < |pieces|
          ensures NulFree(pieces[k])
        {
          if k == 0 {
            assert NulFree(rest[0]);
          } else {
            assert pieces[k] == rest[k];
          }
        }
      }
    }
  }

  /** Splitting on NUL inverts joining NUL-free pieces with NUL. */
  lemma {:induction false} SplitJoin(pieces: seq<seq<Byte>>)
    requires |pieces| >= 1
    requires forall k :: 0 <= k < |pieces| ==> NulFree(pieces[k])
    ensures Split(Join(pieces)) == pieces
    decreases |pieces|
  {
    if |pieces| == 1 {
      SplitNulFreePiece(pieces[0], []);
      assert Split([]) == [[]];
      assert pieces[0] + [] == pieces[0] && Join(pieces) == pieces[0];
      assert pieces == [pieces[0]];
    } else {
      SplitJoin(pieces[1..]);
      var tail := [NUL] + Join(pieces[1..]);
      assert tail[0] == NUL && tail[1..] == Join(pieces[1..]);
      assert Split(tail) == [[]] + pieces[1..];
      assert Split(tail)[0] == [] && Split(tail)[1..] == pieces[1..];
      SplitNulFreePiece(pieces[0], tail);
      assert Join(pieces) == pieces[0] + tail;
      assert pieces[0] + Split(tail)[0] == pieces[0];
      assert pieces == [pieces[0]] + pieces[1..];
    }
  }

  /** A NUL-free prefix is absorbed into the first piece. */
  lemma {:induction false} SplitNulFreePiece(piece: seq<Byte>, tail: seq<Byte>)
    requires NulFree(piece)
    ensures Split(piece + tail) == [piece + Split(tail)[0]] + Split(tail)[1..]
  {
    if piece != [] {
      SplitNulFreePiece(piece[1..], tail);
      var s := Split(tail);
      var rest := Split(piece[1..] + tail);
      assert (piece + tail)[0] == piece[0] != NUL;
      assert (piece + tail)[1..] == piece[1..] + tail;
      assert rest[0] == piece[1..] + s[0] && rest[1..] == s[1..];
      assert Split(piece + tail) == [[piece[0]] + rest[0]] + rest[1..];
      assert [piece[0]] + (piece[1..] + s[0]) == piece + s[0];
    } else {
      var s := Split(tail);
      assert piece + tail == tail;
      assert piece + s[0] == s[0];
      assert s == [s[0]] + s[1..];
    }
  }

  /** There is one piece more than there are NULs. */
  lemma {:induction false} SplitCount(bytes: seq<Byte>)
    ensures |Split(bytes)| == Count(bytes, NUL) + 1
  {
    if bytes != [] {
      SplitCount(bytes[1..]);
    }
  }

  /** A trailing NUL adds an empty last piece, so an empty string to the column. */
  lemma {:induction false} SplitTrailingNul(bytes: seq<Byte>)
    ensures Split(bytes + [NUL]) == Split(bytes) + [[]]
  {
    if bytes == [] {
      assert [] + [NUL] == [NUL];
    } else {
      assert (bytes + [NUL])[0] == bytes[0];
      assert (bytes + [NUL])[1..] == bytes[1..] + [NUL];
      SplitTrailingNul(bytes[1..]);
    }
  }

  /** An array of the archive: raw bytes of dtype `uint8`, or values of any other dtype. */
  datatype NpArray<V> = UInt8(bytes: seq<Byte>) | Typed(items: seq<V>)

  /** A column of the decoded data: strings from a byte array, values otherwise. */
  datatype Column<V> = Texts(texts: seq<string>) | Values(values: seq<V>)

  function Length<V>(c: Column<V>): nat
  {
    match c
    case Texts(ts) => |ts|
    case Values(vs) => |vs|
  }

  predicate Decodable(pieces: seq<seq<Byte>>, utf8: seq<Byte> -> Option<string>)
  {
    forall k :: 0 <= k < |pieces| ==> utf8(pieces[k]).Some?
  }

  /**
   * `[s.decode("utf-8") for s in pieces]`: the strings in order, or
   * UnicodeDecodeError when a piece is not valid UTF-8. `utf8` is the codec.
   */
  function DecodeAll(pieces: seq<seq<Byte>>, utf8: seq<Byte> -> Option<string>): (r: Result<seq<string>>)
    ensures r.Ok? <==> Decodable(pieces, utf8)
    ensures r.Err? ==> r.error == UnicodeDecodeError
    ensures r.Ok? ==> |r.value| == |pieces| && forall k :: 0 <= k < |pieces| ==> r.value[k] == utf8(pieces[k]).value
  {
    if pieces == [] then Ok([])
    else
      match utf8(pieces[0])
      case None => Err(UnicodeDecodeError)
      case Some(s) =>
        match DecodeAll(pieces[1..], utf8)
        case Err(e) => Err(e)
        case Ok(rest) =>
          assert forall k :: 1 <= k < |pieces| ==> pieces[k] == pieces[1..][k - 1];
          Ok([s] + rest)
  }

  /** The comprehension's value for one array. */
  function DecodeColumn<V>(a: NpArray<V>, utf8: seq<Byte> -> Option<string>): (r: Result<Column<V>>)
    ensures r.Err? ==> r.error == UnicodeDecodeError
    ensures a.Typed? ==> r == Ok(Values(a.items))
    ensures a.UInt8? ==> (r.Ok? <==> Decodable(Split(a.bytes), utf8))
    ensures a.UInt8? && r.Ok? ==> r.value.Texts? && Length(r.value) == Count(a.bytes, NUL) + 1
    ensures a.UInt8? && r.Ok? ==> |r.value.texts| == |Split(a.bytes)|
                                  && forall k :: 0 <= k < |Split(a.bytes)| ==> r.value.texts[k] == utf8(Split(a.bytes)[k]).value
  {
    match a
    case Typed(items) => Ok(Values(items))
    case UInt8(bytes) =>
      SplitCount(bytes);
      match DecodeAll(Split(bytes), utf8)
      case Err(e) => Err(e)
      case Ok(texts) => Ok(Texts(texts))
  }

  /**
   * `{k: ... for k, v in arrays.items()}`: every array decoded under its own
   * name, in order; the first undecodable one raises.
   */
  function DecodeArchive<V>(arrays: seq<(string, NpArray<V>)>, utf8: seq<Byte> -> Option<string>)
    : (r: Result<seq<(string, Column<V>)>>)
    ensures r.Ok? <==> forall k :: 0 <= k < |arrays| ==> DecodeColumn(arrays[k].1, utf8).Ok?
    ensures r.Err? ==> r.error == UnicodeDecodeError
    ensures r.Ok? ==> |r.value| == |arrays|
    ensures r.Ok? ==> forall k :: 0 <= k < |arrays| ==>
                        r.value[k] == (arrays[k].0, DecodeColumn(arrays[k].1, utf8).value)
  {
    if arrays == [] then Ok([])
    else
      match DecodeColumn(arrays[0].1, utf8)
      case Err(e) => Err(e)
      case Ok(c) =>
        match DecodeArchive(arrays[1..], utf8)
        case Err(e) => Err(e)
        case Ok(rest) =>
          assert forall k :: 1 <= k < |arrays| ==> arrays[k] == arrays[1..][k - 1];
          Ok([(arrays[0].0, c)] + rest)
  }

  /** One cell of the decoded frame. */
  datatype Cell<V> = Text(text: string) | Value(value: V)

  function CellAt<V>(c: Column<V>, i: nat): Cell<V>
    requires i < Length(c)
  {
    match c
    case Texts(ts) => Text(ts[i])
    case Values(vs) => Value(vs[i])
  }

  /** A frame built from columns: names, and rows of cells in column order. */
  datatype Table<V> = Table(columns: seq<string>, rows: seq<seq<Cell<V>>>)

  predicate SameLength<V>(cols: seq<(string, Column<V>)>)
  {
    forall k :: 0 <= k < |cols| ==> Length(cols[k].1) == Length(cols[0].1)
  }

  /**
   * `DataFrame.from_dict(data)`: one row per position, one cell per column;
   * columns of different lengths raise ValueError.
   */
  function FromDict<V>(cols: seq<(string, Column<V>)>): (r: Result<Table<V>>)
    ensures r.Ok? <==> SameLength(cols)
    ensures r.Err? ==> r.error == ValueError
    ensures r.Ok? ==> |r.value.columns| == |cols| && forall k :: 0 <= k < |cols| ==> r.value.columns[k] == cols[k].0
    ensures r.Ok? && cols != [] ==> |r.value.rows| == Length(cols[0].1)
    ensures r.Ok? && cols == [] ==> r.value.rows == []
    ensures r.Ok? ==> forall i, k :: 0 <= i < |r.value.rows| && 0 <= k < |cols| ==>
                        |r.value.rows[i]| == |cols| && r.value.rows[i][k] == CellAt(cols[k].1, i)
  {
    if !SameLength(cols) then Err(ValueError)
    else
      var n := if cols == [] then 0 else Length(cols[0].1);
      Ok(Table(seq(|cols|, k requires 0 <= k < |cols| => cols[k].0),
               seq(n, i requires 0 <= i < n => seq(|cols|, k requires 0 <= k < |cols| => CellAt(cols[k].1, i)))))
  }
}
