/**
 * Reading query results back into objects (SelectStatement.java). A result
 * set is a sequence of rows, each row a map from column name to the value in
 * that column; the reflective constructor of the row class is a function from
 * the field values, in declaration order, to the outcome of the reflective call.
 */
module SelectStatement {
  import opened Wrappers
  import opened Text
  import opened SqlTypeMapper
  import opened Table

  /** One result-set row: column name to cell. A column the query did not return is absent. */
  type Row = map<string, SqlValue>

  // ---------------------------------------------------------------------------
  // Statement text

  /** `selectFields(kfields)`: every column of the table, filtered by the key columns. */
  function SelectFieldsSql(t: Table, kfields: seq<string>): string
  {
    "SELECT " + Join(Identifiers(t.fields), ", ") + " FROM " + t.name + " WHERE " + WhereClause(kfields)
  }

  /** `select(name)`: filtered by the columns of key group `keyName`; an unknown group throws. */
  function SelectSql(t: Table, keyName: string): Result<string>
  {
    match KeyFields(t, keyName)
    case Ok(ks) => Ok(SelectFieldsSql(t, ks))
    case Err(e) => Err(e)
  }

  /** A SELECT has exactly one placeholder per key column. */
  lemma SelectPlaceholders(t: Table, kfields: seq<string>)
    requires NoPlaceholder(t.name)
    requires forall i :: 0 <= i < |t.fields| ==> NoPlaceholder(t.fields[i].identifier)
    requires forall i :: 0 <= i < |kfields| ==> NoPlaceholder(kfields[i])
    ensures Count(SelectFieldsSql(t, kfields), '?') == |kfields|
  {
    var ids := Identifiers(t.fields);
    var cols := Join(ids, ", ");
    forall i | 0 <= i < |ids|
      ensures Count(ids[i], '?') == 0
    {
      CountAbsent(ids[i], '?');
    }
    CountAllNone(ids, '?');
    CountJoin(ids, ", ", '?');
    WherePlaceholders(kfields);
    CountAbsent(t.name, '?');
    CountPrependAbsent("SELECT ", cols, '?');
    CountAppendAbsent("SELECT " + cols, " FROM ", '?');
    CountAppend("SELECT " + cols + " FROM ", t.name, '?');
    CountAppendAbsent("SELECT " + cols + " FROM " + t.name, " WHERE ", '?');
    CountAppend("SELECT " + cols + " FROM " + t.name + " WHERE ", WhereClause(kfields), '?');
  }

  /** `select(name)` on a known key group is the SELECT filtered by that group's columns, in declaration order. */
  lemma SelectByKeyGroup(t: Table, keyName: string)
    requires Declared(t)
    ensures SelectSql(t, keyName).Ok? <==> exists f :: f in t.fields && keyName in f.keys
    ensures SelectSql(t, keyName).Ok? ==>
              SelectSql(t, keyName).value == SelectFieldsSql(t, Identifiers(KeyGroup(t.fields, keyName)))
  {
    KeyGroupsShape(t.fields);
  }

  // ---------------------------------------------------------------------------
  // Reading rows

  /** `TableField.read`: the field's mapper reads its column; a column the result set lacks is an SQLException. */
  function ReadColumn(f: Field, row: Row): (r: Result<JValue>)
    ensures f.identifier !in row ==> r == Err(SqlException)
    ensures f.identifier in row ==> r == SqlTypeMapper.Read(f.mapper, row[f.identifier])
  {
    if f.identifier in row then SqlTypeMapper.Read(f.mapper, row[f.identifier]) else Err(SqlException)
  }

  /**
   * The constructor arguments: every field's column, in declaration order;
   * the first read that throws ends the loop with its exception.
   */
  function ReadFields(fields: seq<Field>, row: Row): (r: Result<seq<JValue>>)
    ensures r.Ok? <==> forall i :: 0 <= i < |fields| ==> ReadColumn(fields[i], row).Ok?
    ensures r.Ok? ==> |r.value| == |fields|
    ensures r.Ok? ==> forall i :: 0 <= i < |fields| ==> r.value[i] == ReadColumn(fields[i], row).value
    ensures r.Err? ==> exists i :: 0 <= i < |fields| && FirstFailure(fields, row, i, r.error)
  {
    if fields == [] then Ok([])
    else
      match ReadColumn(fields[0], row)
      case Err(e) =>
        assert FirstFailure(fields, row, 0, e);
        Err(e)
      case Ok(v) =>
        match ReadFields(fields[1..], row)
        case Err(e) =>
          assert forall i :: 0 <= i < |fields| - 1 && FirstFailure(fields[1..], row, i, e) ==>
                   FirstFailure(fields, row, i + 1, e);
          Err(e)
        case Ok(vs) => Ok([v] + vs)
  }

  /** Field `i` is the first whose read throws, and it throws `e`. */
  predicate FirstFailure(fields: seq<Field>, row: Row, i: nat, e: JavaException)
    requires i < |fields|
  {
    ReadColumn(fields[i], row) == Err(e) && forall j :: 0 <= j < i ==> ReadColumn(fields[j], row).Ok?
  }

  /**
   * What `constructor.newInstance(params)` does: returns the object, throws
   * IllegalArgumentException on arguments that do not match the parameter
   * types, or throws one of the reflective exceptions the caller wraps.
   */
  datatype Instantiation<+T> = Instance(value: T) | ArgumentMismatch | ConstructorFailed

  /**
   * `read(rs)` on one row: a failing column read propagates its exception,
   * mismatching arguments an IllegalArgumentException, and a failing
   * constructor becomes a SecurityException.
   */
  function RowObject<T>(t: Table, row: Row, construct: seq<JValue> -> Instantiation<T>): Result<T>
  {
    match ReadFields(t.fields, row)
    case Err(e) => Err(e)
    case Ok(params) =>
      match construct(params)
      case Instance(o) => Ok(o)
      case ArgumentMismatch => Err(IllegalArgumentException)
      case ConstructorFailed => Err(SecurityException)
  }

  /** `read(rs)`: fills the parameter array column by column, then calls the constructor. */
  method ReadRow<T>(t: Table, row: Row, construct: seq<JValue> -> Instantiation<T>) returns (r: Result<T>)
    ensures r == RowObject(t, row, construct)
  {
    var params := new JValue[|t.fields|];
    for i := 0 to params.Length
      invariant forall j :: 0 <= j < i ==> ReadColumn(t.fields[j], row).Ok?
      invariant forall j :: 0 <= j < i ==> params[j] == ReadColumn(t.fields[j], row).value
    {
      var v := ReadColumn(t.fields[i], row);
      if v.Err? {
        assert FirstFailure(t.fields, row, i, v.error);
        FirstFailureUnique(t.fields, row, i, ReadFields(t.fields, row));
        return Err(v.error);
      }
      params[i] := v.value;
    }
    assert params[..] == ReadFields(t.fields, row).value;
    var o := construct(params[..]);
    match o
    case Instance(x) => r := Ok(x);
    case ArgumentMismatch => r := Err(IllegalArgumentException);
    case ConstructorFailed => r := Err(SecurityException);
  }

  /** Only one field can be the first to fail, so `ReadFields` reports that field's exception. */
  lemma FirstFailureUnique(fields: seq<Field>, row: Row, i: nat, r: Result<seq<JValue>>)
    requires i < |fields| && ReadColumn(fields[i], row).Err?
    requires forall j :: 0 <= j < i ==> ReadColumn(fields[j], row).Ok?
    requires r == ReadFields(fields, row)
    ensures r == Err(ReadColumn(fields[i], row).error)
  {
    var k :| 0 <= k < |fields| && FirstFailure(fields, row, k, r.error);
    assert k == i;
  }

  /**
   * A row becomes an object exactly when every column reads and the
   * constructor accepts the values; otherwise the exception is the first
   * failing column's, or the one the constructor's outcome stands for.
   */
  lemma RowObjectMeaning<T>(t: Table, row: Row, construct: seq<JValue> -> Instantiation<T>)
    ensures RowObject(t, row, construct).Ok? <==>
              (forall i :: 0 <= i < |t.fields| ==> ReadColumn(t.fields[i], row).Ok?)
              && construct(ReadFields(t.fields, row).value).Instance?
    ensures forall i :: 0 <= i < |t.fields| && ReadColumn(t.fields[i], row).Err?
                        && (forall j :: 0 <= j < i ==> ReadColumn(t.fields[j], row).Ok?) ==>
              RowObject(t, row, construct) == Err(ReadColumn(t.fields[i], row).error)
    ensures ReadFields(t.fields, row).Ok? ==>
              (RowObject(t, row, construct) == Err(IllegalArgumentException) <==>
                 construct(ReadFields(t.fields, row).value).ArgumentMismatch?)
              && (RowObject(t, row, construct) == Err(SecurityException) <==>
                 construct(ReadFields(t.fields, row).value).ConstructorFailed?)
  {
    forall i | 0 <= i < |t.fields| && ReadColumn(t.fields[i], row).Err?
               && (forall j :: 0 <= j < i ==> ReadColumn(t.fields[j], row).Ok?)
      ensures RowObject(t, row, construct) == Err(ReadColumn(t.fields[i], row).error)
    {
      FirstFailureUnique(t.fields, row, i, ReadFields(t.fields, row));
    }
  }

  // ---------------------------------------------------------------------------
  // Whole result sets

  /** `listSelect`'s result set user: all rows in order, or the first row's failure. */
  function Materialise<T>(t: Table, rows: seq<Row>, construct: seq<JValue> -> Instantiation<T>): Result<seq<T>>
  {
    if rows == [] then Ok([])
    else
      match Materialise(t, rows[..|rows| - 1], construct)
      case Err(e) => Err(e)
      case Ok(xs) =>
        match RowObject(t, rows[|rows| - 1], construct)
        case Err(e) => Err(e)
        case Ok(o) => Ok(xs + [o])
  }

  /**
   * The list holds one object per row, in row order, when every row reads;
   * otherwise the failure is that of the first row that does not.
   */
  lemma {:induction false} MaterialiseMeaning<T>(t: Table, rows: seq<Row>, construct: seq<JValue> -> Instantiation<T>)
    ensures Materialise(t, rows, construct).Ok? <==>
              forall i :: 0 <= i < |rows| ==> RowObject(t, rows[i], construct).Ok?
    ensures Materialise(t, rows, construct).Ok? ==>
              |Materialise(t, rows, construct).value| == |rows|
              && forall i :: 0 <= i < |rows| ==>
                   Materialise(t, rows, construct).value[i] == RowObject(t, rows[i], construct).value
    ensures Materialise(t, rows, construct).Err? ==>
              exists i :: 0 <= i < |rows|
                && RowObject(t, rows[i], construct) == Err(Materialise(t, rows, construct).error)
                && forall j :: 0 <= j < i ==> RowObject(t, rows[j], construct).Ok?
  {
    if rows != [] {
      var init := rows[..|rows| - 1];
      MaterialiseMeaning(t, init, construct);
      assert forall i :: 0 <= i < |init| ==> init[i] == rows[i];
      var last := |rows| - 1;
      if Materialise(t, init, construct).Ok? && RowObject(t, rows[last], construct).Err? {
        assert RowObject(t, rows[last], construct) == Err(Materialise(t, rows, construct).error);
      }
    }
  }

  /** Once a prefix of the rows fails, later rows do not change the failure. */
  lemma {:induction false} MaterialiseStopsAtFailure<T>(t: Table, rows: seq<Row>, k: nat, construct: seq<JValue> -> Instantiation<T>)
    requires k <= |rows| && Materialise(t, rows[..k], construct).Err?
    ensures Materialise(t, rows, construct) == Materialise(t, rows[..k], construct)
    decreases |rows| - k
  {
    if k < |rows| {
      assert rows[..k + 1][..k] == rows[..k];
      MaterialiseStopsAtFailure(t, rows, k + 1, construct);
    } else {
      assert rows[..k] == rows;
    }
  }

  /** `listSelect`'s loop: `while (rs.next()) result.add(read(rs))`. */
  method ListSelect<T>(t: Table, rows: seq<Row>, construct: seq<JValue> -> Instantiation<T>) returns (r: Result<seq<T>>)
    ensures r == Materialise(t, rows, construct)
  {
    var result: seq<T> := [];
    for i := 0 to |rows|
      invariant Materialise(t, rows[..i], construct) == Ok(result)
    {
      assert rows[..i + 1][..i] == rows[..i];
      var o := ReadRow(t, rows[i], construct);
      if o.Err? {
        MaterialiseStopsAtFailure(t, rows, i + 1, construct);
        return Err(o.error);
      }
      result := result + [o.value];
    }
    assert rows[..|rows|] == rows;
    r := Ok(result);
  }

  /** `select`'s result set user: the first row's object, or `null` when there is no row. */
  function SelectFirst<T>(t: Table, rows: seq<Row>, construct: seq<JValue> -> Instantiation<T>): Result<Option<T>>
  {
    if rows == [] then Ok(None)
    else
      match RowObject(t, rows[0], construct)
      case Err(e) => Err(e)
      case Ok(o) => Ok(Some(o))
  }

  /**
   * `select` yields nothing exactly for an empty result set; otherwise it is the
   * head of what `listSelect` yields, and it ignores every row after the first.
   */
  lemma SelectFirstIsHead<T>(t: Table, rows: seq<Row>, construct: seq<JValue> -> Instantiation<T>)
    ensures SelectFirst(t, rows, construct) == Ok(None) <==> rows == []
    ensures Materialise(t, rows, construct).Ok? && rows != [] ==>
              SelectFirst(t, rows, construct) == Ok(Some(Materialise(t, rows, construct).value[0]))
    ensures rows != [] ==> SelectFirst(t, rows, construct) == SelectFirst(t, rows[..1], construct)
  {
    MaterialiseMeaning(t, rows, construct);
  }
}
