/**
 * The two backends the storage layer can talk to, and the SQL fragments in
 * which they differ (Statement.java, static initialiser). Which one is in use
 * is decided once at start-up; here it is a parameter.
 */
module Dialect {

  /** The networked MySQL backend, or the embedded single-file SQLite fallback. */
  datatype Dialect = MySql | Sqlite

  /** `MAX_CONNECTIONS`: four pooled MySQL connections, one SQLite connection. */
  function MaxConnections(d: Dialect): nat
  {
    match d
    case MySql => 4
    case Sqlite => 1
  }

  /** `ON_DUPLICATE_KEY`: the text that opens an upsert clause. */
  function OnDuplicateKey(d: Dialect): string
  {
    match d
    case MySql => " ON DUPLICATE KEY UPDATE "
    case Sqlite => " ON CONFLICT DO UPDATE SET "
  }

  /** `upsertWrapper`: the assignment emitted for one non-key column `f`. */
  function UpsertWrapper(d: Dialect, f: string): string
  {
    match d
    case MySql => f + " = VALUES(" + f + ")"
    case Sqlite => f + " = " + f
  }

  /** `NULL_SAFE_EQUALS`; declared by the source but used by no statement it builds. */
  function NullSafeEquals(d: Dialect): string
  {
    match d
    case MySql => " <=> "
    case Sqlite => " IS "
  }

  /** `schemaCreator`: only SQLite creates missing tables when a table is declared. */
  predicate CreatesSchema(d: Dialect)
  {
    d == Sqlite
  }

  /**
   * What the right-hand side of an upsert assignment denotes when the key
   * already exists. In MySQL, `VALUES(f)` is the value the INSERT carried. In
   * an SQLite `DO UPDATE SET`, an unqualified column names the value already
   * stored in the conflicting row (the inserted one would be `excluded.f`), so
   * `f = f` leaves the row as it was.
   */
  datatype UpsertValue = InsertedValue | StoredValue

  function UpsertValueOf(d: Dialect): UpsertValue
  {
    match d
    case MySql => InsertedValue
    case Sqlite => StoredValue
  }

  /**
   * The assignment text refers to the inserted value exactly when it wraps the
   * column in `VALUES(...)`; the SQLite text is the bare self-assignment.
   */
  lemma UpsertWrapperShape(d: Dialect, f: string)
    ensures UpsertValueOf(d) == InsertedValue <==>
              UpsertWrapper(d, f) == f + " = VALUES(" + f + ")"
    ensures UpsertValueOf(d) == StoredValue <==> UpsertWrapper(d, f) == f + " = " + f
  {
    if d == Sqlite {
      assert |f + " = " + f| < |f + " = VALUES(" + f + ")"|;
    }
  }
}
