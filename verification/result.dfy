/**
  `result_each`: the row and column loop that materialises a result cursor
  into one record per row, keyed by field name.
 */
module Rows {
  import opened Wrappers
  import opened CString
  import opened Clock
  import opened Values
  import opened Typecast

  /** What the loop reads from the driver's result: the row and column counts,
      the field names and type tags, and the bytes of each cell (None when the
      cell has no data, as for SQL NULL). */
  datatype Cursor = Cursor(
    rows: nat, columns: nat, fields: seq<string>, types: seq<TypeTag>,
    read: (nat, nat) -> Option<string>)

  /** Every column the loop visits has a field name and a type tag. */
  predicate WellFormed(c: Cursor) {
    |c.fields| >= c.columns && |c.types| >= c.columns
  }

  /** One row as a hash from field name to value. */
  type Record = map<string, Value>

  /** What `each` hands to the caller's block: the record itself, or what
      `scheme.load(record)` returns when a scheme is set (Ruby code, so the
      model keeps the record passed to it). */
  datatype Yielded = Tuple(record: Record) | Loaded(record: Record)

  datatype Event = Seek(row: nat) | Yield(item: Yielded)

  /** Field names become symbols through `rb_intern` on the C string. */
  function Key(c: Cursor, col: nat): string
    requires col < |c.fields|
  {
    CStr(c.fields[col])
  }

  /** The value stored for one cell: nil exactly for a cell without data, since
      no cast of actual bytes yields nil, whatever the column's type. */
  function CellValue(c: Cursor, row: nat, col: nat, zone: Option<string>, clock: Clock): (v: Value)
    requires col < |c.types|
    ensures v.Nil? <==> c.read(row, col).None?
    ensures c.read(row, col).Some? ==> v == Cast(c.types[col], c.read(row, col).value, zone, clock)
    ensures c.read(row, col).Some? ==> KindFits(TypeName(c.types[col]), v)
  {
    match c.read(row, col)
    case None => Nil
    case Some(data) =>
      CastFitsTypeName(c.types[col], data, zone, clock);
      Cast(c.types[col], data, zone, clock)
  }

  /** The hash after the first `n` columns of `row` have been stored, in column order. */
  function RecordUpTo(c: Cursor, row: nat, n: nat, zone: Option<string>, clock: Clock): Record
    requires n <= |c.fields| && n <= |c.types|
  {
    if n == 0 then map[]
    else RecordUpTo(c, row, n - 1, zone, clock)[Key(c, n - 1) := CellValue(c, row, n - 1, zone, clock)]
  }

  /** The record built for one row: keyed by exactly the names of its columns. */
  function RowRecord(c: Cursor, row: nat, zone: Option<string>, clock: Clock): (r: Record)
    requires WellFormed(c)
    ensures r.Keys == set col | 0 <= col < c.columns :: Key(c, col)
  {
    RecordKeys(c, row, c.columns, zone, clock);
    RecordUpTo(c, row, c.columns, zone, clock)
  }

  function Wrap(scheme: bool, r: Record): Yielded {
    if scheme then Loaded(r) else Tuple(r)
  }

  /** `result_each`: seek to row 0, then build and yield one record per row, in row order. */
  method Each(c: Cursor, scheme: bool, zone: Option<string>, clock: Clock) returns (events: seq<Event>)
    requires WellFormed(c)
    ensures |events| == c.rows + 1
    ensures events[0] == Seek(0)
    ensures forall r :: 0 <= r < c.rows ==> events[r + 1] == Yield(Wrap(scheme, RowRecord(c, r, zone, clock)))
  {
    events := [Seek(0)];
    var row := 0;
    while row < c.rows
      invariant 0 <= row <= c.rows
      invariant |events| == row + 1 && events[0] == Seek(0)
      invariant forall r :: 0 <= r < row ==> events[r + 1] == Yield(Wrap(scheme, RowRecord(c, r, zone, clock)))
    {
      var tuple: Record := map[];
      var column := 0;
      while column < c.columns
        invariant 0 <= column <= c.columns
        invariant tuple == RecordUpTo(c, row, column, zone, clock)
      {
        var key := Key(c, column);
        match c.read(row, column) {
          case Some(data) =>
            tuple := tuple[key := Cast(c.types[column], data, zone, clock)];
          case None =>
            tuple := tuple[key := Nil];
        }
        column := column + 1;
      }
      events := events + [Yield(Wrap(scheme, tuple))];
      row := row + 1;
    }
  }

  /** The keys of a record are exactly the field names of its columns. */
  lemma {:induction false} RecordKeys(c: Cursor, row: nat, n: nat, zone: Option<string>, clock: Clock)
    requires n <= |c.fields| && n <= |c.types|
    ensures RecordUpTo(c, row, n, zone, clock).Keys == set col | 0 <= col < n :: Key(c, col)
  {
    if n > 0 {
      RecordKeys(c, row, n - 1, zone, clock);
      var s := set col | 0 <= col < n :: Key(c, col);
      var t := set col | 0 <= col < n - 1 :: Key(c, col);
      assert s == t + {Key(c, n - 1)} by {
        forall k | k in s ensures k in t + {Key(c, n - 1)} {
          var col :| 0 <= col < n && Key(c, col) == k;
          if col < n - 1 {
            assert k in t;
          }
        }
      }
    }
  }

  /** The last column carrying a name decides its entry: later columns with the
      same name overwrite earlier ones. */
  lemma {:induction false} RecordLastWins(c: Cursor, row: nat, n: nat, col: nat, zone: Option<string>, clock: Clock)
    requires n <= |c.fields| && n <= |c.types| && col < n
    requires forall j :: col < j < n ==> Key(c, j) != Key(c, col)
    ensures Key(c, col) in RecordUpTo(c, row, n, zone, clock)
    ensures RecordUpTo(c, row, n, zone, clock)[Key(c, col)] == CellValue(c, row, col, zone, clock)
  {
    if col < n - 1 {
      RecordLastWins(c, row, n - 1, col, zone, clock);
    }
  }

  /** With distinct field names, every column's cell is stored under its own
      name, and a cell without data reads as nil. */
  lemma RowRecordColumns(c: Cursor, row: nat, zone: Option<string>, clock: Clock)
    requires WellFormed(c)
    requires forall i, j :: 0 <= i < j < c.columns ==> Key(c, i) != Key(c, j)
    ensures |RowRecord(c, row, zone, clock)| == c.columns
    ensures forall col :: 0 <= col < c.columns ==>
      && Key(c, col) in RowRecord(c, row, zone, clock)
      && RowRecord(c, row, zone, clock)[Key(c, col)] == CellValue(c, row, col, zone, clock)
    ensures forall col :: 0 <= col < c.columns && c.read(row, col).None? ==>
      RowRecord(c, row, zone, clock)[Key(c, col)] == Nil
  {
    forall col | 0 <= col < c.columns
      ensures Key(c, col) in RowRecord(c, row, zone, clock)
      ensures RowRecord(c, row, zone, clock)[Key(c, col)] == CellValue(c, row, col, zone, clock)
    {
      RecordLastWins(c, row, c.columns, col, zone, clock);
    }
    RecordKeys(c, row, c.columns, zone, clock);
    DistinctKeysCount(c, c.columns);
  }

  /** Distinct names for the first `n` columns make `n` keys. */
  lemma {:induction false} DistinctKeysCount(c: Cursor, n: nat)
    requires n <= |c.fields|
    requires forall i, j :: 0 <= i < j < n ==> Key(c, i) != Key(c, j)
    ensures |set col | 0 <= col < n :: Key(c, col)| == n
  {
    if n > 0 {
      DistinctKeysCount(c, n - 1);
      var t := set col | 0 <= col < n - 1 :: Key(c, col);
      assert (set col | 0 <= col < n :: Key(c, col)) == t + {Key(c, n - 1)};
      assert Key(c, n - 1) !in t;
    }
  }
}
