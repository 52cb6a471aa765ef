/**
 * Per-guild configuration: a `(guild, config) -> value` table with primary
 * key `(guild, config)` (GuildConfig.java), read through a SELECT on the
 * primary key group, written through `insertAll()` with its upsert clause and
 * cleared through a DELETE on the primary key group.
 *
 * The database is the table's content, a map from primary key to value. The
 * effect of each statement on it is spelled out by `QueryRows`, `Upserted`
 * and `Deleted`; the upsert follows what the dialect's assignment denotes.
 */
module GuildConfig {
  import opened Wrappers
  import opened Text
  import opened Dialect
  import opened SqlTypeMapper
  import opened Table
  import opened SelectStatement
  import opened Statements

  /** A Java `long`. */
  type JLong = n: int | -0x8000_0000_0000_0000 <= n < 0x8000_0000_0000_0000

  /** The primary key of a row: guild id and config name. */
  datatype Key = Key(guild: JLong, config: string)

  /** One object of the row class, as its all-arguments constructor builds it. */
  datatype ConfigRow = ConfigRow(guild: JLong, config: Option<string>, value: Option<string>)

  // ---------------------------------------------------------------------------
  // The table

  const GuildField: Field := Field("guild", PrimitiveMapperOf(Long, "INTEGER(8)", false), [Primary], false, "")
  const ConfigField: Field := Field("config", Mapper("TEXT", TextCodec, false), [Primary], false, "")
  const ValueField: Field := Field("value", Mapper("TEXT", TextCodec, false), [], false, "")

  /** The annotated fields in declaration order. */
  const Fields: seq<Field> := [GuildField, ConfigField, ValueField]

  /**
   * `new Table<>(GuildConfig.class)`: named after the class, with its key
   * groups and identifier index spelled out (`ConfigTableDeclared` shows they
   * are the ones the constructor computes).
   */
  function ConfigTable(): Table
  {
    Table("GuildConfig", Fields, map[Primary := [GuildField, ConfigField]],
          map["guild" := GuildField, "config" := ConfigField, "value" := ValueField])
  }

  /** Both guild and config name the primary key group, value no group. */
  lemma ConfigAllKeys()
    ensures AllKeys(Fields) == [Primary, Primary]
  {
    var two := [GuildField, ConfigField];
    assert Fields[..2] == two;
    assert two[..1] == [GuildField];
    assert [GuildField][..0] == [];
    assert AllKeys([GuildField]) == [Primary];
    assert AllKeys(two) == [Primary, Primary];
  }

  /** The primary key group holds guild then config. */
  lemma ConfigPrimaryGroup()
    ensures KeyGroup(Fields, Primary) == [GuildField, ConfigField]
  {
    var two := [GuildField, ConfigField];
    assert Fields[..2] == two;
    assert two[..1] == [GuildField];
    assert [GuildField][..0] == [];
    assert KeyGroup([GuildField], Primary) == [GuildField];
    assert KeyGroup(two, Primary) == two;
  }

  /** The table holds one key group, "primary"... */
  lemma ConfigKeyNames()
    ensures KeyNames(Fields) == [Primary]
  {
    ConfigAllKeys();
    assert [Primary, Primary][..1] == [Primary];
    assert [Primary][..0] == [];
    assert Deduplicated([Primary]) == [Primary];
  }

  /** ... over guild and config. */
  lemma ConfigKeys()
    ensures KeyGroups(Fields) == map[Primary := [GuildField, ConfigField]]
  {
    ConfigKeyNames();
    ConfigPrimaryGroup();
  }

  /** Each field is indexed under its own (already lower-case) identifier, and nothing else is. */
  lemma ConfigIndex()
    ensures ByIdentifier(Fields) == map["guild" := GuildField, "config" := ConfigField, "value" := ValueField]
  {
    LowerOfLower("guild");
    LowerOfLower("config");
    LowerOfLower("value");
    var two := [GuildField, ConfigField];
    assert Fields[..2] == two;
    assert two[..1] == [GuildField];
    assert [GuildField][..0] == [];
    assert ByIdentifier([GuildField]) == map["guild" := GuildField];
    assert ByIdentifier(two) == map["guild" := GuildField, "config" := ConfigField];
  }

  /** The table above is what the `Table` constructor builds from the three annotated fields. */
  lemma ConfigTableDeclared()
    ensures Declared(ConfigTable())
  {
    ConfigKeys();
    ConfigIndex();
  }

  /** The column list of every statement: the fields in declaration order. */
  lemma ConfigColumns()
    ensures Identifiers(Fields) == ["guild", "config", "value"]
    ensures Join(Identifiers(Fields), ", ") == "guild, config, value"
    ensures KeyFields(ConfigTable(), Primary) == Ok(["guild", "config"])
  {
    JoinSmall("guild", "config", "value", ", ");
    assert Identifiers([GuildField, ConfigField]) == ["guild", "config"];
  }

  /** The filter of `select` and `delete`: one placeholder per primary key column. */
  lemma ConfigWhere()
    ensures WhereClause(["guild", "config"]) == "guild = ? AND config = ?"
  {
    var ss := Suffixed(["guild", "config"], " = ?");
    assert ss[0] == "guild" + " = ?" == "guild = ?";
    assert ss[1] == "config" + " = ?" == "config = ?";
    assert ss == ["guild = ?", "config = ?"];
    JoinSmall("guild = ?", "config = ?", "", " AND ");
  }

  /** The text of `select`, the SELECT on the primary key group. */
  lemma ConfigSelectText()
    ensures SelectSql(ConfigTable(), Primary)
            == Ok("SELECT " + "guild, config, value" + " FROM " + "GuildConfig" + " WHERE " + "guild = ? AND config = ?")
  {
    ConfigColumns();
    assert SelectSql(ConfigTable(), Primary) == Ok(SelectFieldsSql(ConfigTable(), ["guild", "config"]));
    ConfigSelectFields();
  }

  lemma ConfigSelectFields()
    ensures SelectFieldsSql(ConfigTable(), ["guild", "config"])
            == "SELECT " + "guild, config, value" + " FROM " + "GuildConfig" + " WHERE " + "guild = ? AND config = ?"
  {
    ConfigColumns();
    ConfigWhere();
  }

  /** The text of `delete`, the DELETE on the primary key group. */
  lemma ConfigDeleteText()
    ensures DeleteSql(ConfigTable(), Primary)
            == Ok("DELETE FROM " + "GuildConfig" + " WHERE " + "guild = ? AND config = ?")
  {
    ConfigColumns();
    assert DeleteSql(ConfigTable(), Primary) == Ok(DeleteFieldsSql(ConfigTable(), ["guild", "config"]));
    ConfigWhere();
  }

  /** Of the three columns only value is outside every key group. */
  lemma ConfigNonKey()
    ensures NonKeyFields(ConfigTable(), ["guild", "config", "value"]) == Ok(["value"])
  {
    LowerOfLower("guild");
    LowerOfLower("config");
    LowerOfLower("value");
    var ids := ["guild", "config", "value"];
    assert ids[..2] == ["guild", "config"];
    assert ids[..2][..1] == ["guild"];
    assert ["guild"][..0] == [];
    var t := ConfigTable();
    assert NonKeyFields(t, []) == Ok([]);
    assert NonKeyFields(t, ["guild"]) == Ok([]);
    assert NonKeyFields(t, ["guild", "config"]) == Ok([]);
    assert Lower(ids[2]) == "value";
    assert Lower(ids[2]) in t.fieldsByIdentifier;
    assert t.fieldsByIdentifier[Lower(ids[2])].keys == [];
    assert NonKeyFields(t, ids[..2]) == Ok([]);
    assert NonKeyFields(t, ids) == Ok([] + [ids[2]]);
    assert [] + [ids[2]] == ["value"];
  }

  /**
   * `insert` is `insertAll()`: all three columns, and an upsert clause that
   * assigns value only (`ConfigInsertPrefix` and `ConfigUpsertClause` give
   * the two parts).
   */
  lemma ConfigInsertText(d: Dialect)
    ensures InsertAllSql(d, ConfigTable())
            == Ok(InsertPrefix(ConfigTable(), ["guild", "config", "value"]) + UpsertClause(d, ["value"]))
  {
    ConfigColumns();
    ConfigNonKey();
  }

  /** The column and placeholder part of `insert`. */
  lemma ConfigInsertPrefix()
    ensures InsertPrefix(ConfigTable(), ["guild", "config", "value"])
            == "INSERT INTO " + "GuildConfig" + " (" + "guild, config, value" + ") VALUES (" + "?, ?, ?" + ")"
  {
    ConfigColumns();
    ConfigPlaceholders();
  }

  /** One placeholder per inserted column. */
  lemma ConfigPlaceholders()
    ensures Join(Repeat("?", 3), ", ") == "?, ?, ?"
  {
    JoinSmall("?", "?", "?", ", ");
    assert Repeat("?", 3) == ["?", "?", "?"];
  }

  /** The upsert part of `insert` assigns value alone. */
  lemma ConfigUpsertClause(d: Dialect)
    ensures UpsertClause(d, ["value"]) == OnDuplicateKey(d) + UpsertWrapper(d, "value")
  {
    var ws := seq(1, i requires 0 <= i < 1 => UpsertWrapper(d, ["value"][i]));
    assert ws == [UpsertWrapper(d, "value")];
    JoinSmall(UpsertWrapper(d, "value"), "", "", ", ");
  }

  /** The SQLite table `ensureExistanceInSqlite` creates. */
  lemma ConfigCreateTable()
    ensures IsKeyOrder(ConfigTable().keys, [Primary])
    ensures CreateTableSql(ConfigTable(), [Primary])
            == "CREATE TABLE IF NOT EXISTS " + "GuildConfig" + "("
               + ("guild INTEGER(8) NOT NULL" + ", " + "config TEXT NOT NULL" + ", " + "value TEXT NOT NULL")
               + ", PRIMARY KEY(guild, config)" + ")"
  {
    ConfigDecls();
    ConfigConstraint();
  }

  lemma ConfigDecls()
    ensures Join(seq(|Fields|, i requires 0 <= i < |Fields| => ColumnDecl(Fields[i])), ", ")
            == "guild INTEGER(8) NOT NULL" + ", " + "config TEXT NOT NULL" + ", " + "value TEXT NOT NULL"
  {
    var decls := seq(|Fields|, i requires 0 <= i < |Fields| => ColumnDecl(Fields[i]));
    ColumnDecls();
    assert decls == ["guild INTEGER(8) NOT NULL", "config TEXT NOT NULL", "value TEXT NOT NULL"];
    JoinSmall("guild INTEGER(8) NOT NULL", "config TEXT NOT NULL", "value TEXT NOT NULL", ", ");
  }

  /** A primitive long is `INTEGER(8)`, a string `TEXT`; none of the three is nullable or has a default. */
  lemma ColumnDecls()
    ensures ColumnDecl(GuildField) == "guild INTEGER(8) NOT NULL"
    ensures ColumnDecl(ConfigField) == "config TEXT NOT NULL"
    ensures ColumnDecl(ValueField) == "value TEXT NOT NULL"
  {
    GuildDecl();
    ConfigDecl();
    ValueDecl();
  }

  lemma GuildDecl()
    ensures ColumnDecl(GuildField) == "guild INTEGER(8) NOT NULL"
  {
    assert ColumnDecl(GuildField) == "guild" + " " + "INTEGER(8)" + " NOT NULL" + "";
  }

  lemma ConfigDecl()
    ensures ColumnDecl(ConfigField) == "config TEXT NOT NULL"
  {
    assert ColumnDecl(ConfigField) == "config" + " " + "TEXT" + " NOT NULL" + "";
  }

  lemma ValueDecl()
    ensures ColumnDecl(ValueField) == "value TEXT NOT NULL"
  {
    assert ColumnDecl(ValueField) == "value" + " " + "TEXT" + " NOT NULL" + "";
  }

  lemma ConfigConstraint()
    ensures IsKeyOrder(ConfigTable().keys, [Primary])
    ensures Join(ConstraintClauses(ConfigTable(), [Primary]), " ") == ", PRIMARY KEY(guild, config)"
  {
    var t := ConfigTable();
    var c := ConstraintClause(Primary, t.keys[Primary]);
    PrimaryConstraint();
    assert ConstraintClauses(t, [Primary]) == [c];
    JoinSmall(c, "", "", " ");
  }

  lemma PrimaryConstraint()
    ensures ConstraintClause(Primary, [GuildField, ConfigField]) == ", PRIMARY KEY(guild, config)"
  {
    JoinSmall("guild", "config", "", ", ");
    assert Identifiers([GuildField, ConfigField]) == ["guild", "config"];
    assert ConstraintClause(Primary, [GuildField, ConfigField]) == ", PRIMARY KEY(" + "guild, config" + ")";
  }

  /** The insert binds `(guild, config, value)` at positions 1, 2 and 3, as its column list names them. */
  lemma InsertParameters(guild: JLong, config: string, value: string)
    ensures Binding(BuiltIns(), [Integral(Long, guild), Str(config), Str(value)])
            == Some(map[1 := SqlInt(guild), 2 := SqlText(config), 3 := SqlText(value)])
  {
    BindLong(guild);
    BindString(config);
    BindString(value);
    BindThree(BuiltIns(), Integral(Long, guild), Str(config), Str(value));
  }

  /** Three parameters that each bind are bound at 1, 2 and 3. */
  lemma BindThree(mappers: map<JavaClass, Mapper>, x: JValue, y: JValue, z: JValue)
    requires BindOne(mappers, x).Some? && BindOne(mappers, y).Some? && BindOne(mappers, z).Some?
    ensures Binding(mappers, [x, y, z])
            == Some(map[1 := BindOne(mappers, x).value, 2 := BindOne(mappers, y).value, 3 := BindOne(mappers, z).value])
  {
    var objs := [x, y, z];
    var r := Binding(mappers, objs);
    assert objs[0] == x && objs[1] == y && objs[2] == z;
    assert r.Some?;
    var m := map[1 := BindOne(mappers, x).value, 2 := BindOne(mappers, y).value, 3 := BindOne(mappers, z).value];
    assert r.value.Keys == m.Keys;
    assert r.value[1] == BindOne(mappers, objs[0]).value;
    assert r.value[2] == BindOne(mappers, objs[1]).value;
    assert r.value[3] == BindOne(mappers, objs[2]).value;
    assert forall k :: k in m ==> r.value[k] == m[k];
    assert r.value == m;
  }

  /** A `long` parameter is written through the registered `Long` mapper as an integer. */
  lemma BindLong(n: JLong)
    ensures BindOne(BuiltIns(), Integral(Long, n)) == Some(SqlInt(n))
  {
    assert BuiltIns()[WrapperClass(Long)] == PrimitiveMapperOf(Long, "INTEGER(8)", true);
  }

  /** A `String` parameter is written as text. */
  lemma BindString(x: string)
    ensures BindOne(BuiltIns(), Str(x)) == Some(SqlText(x))
  {
    assert BuiltIns()[StringClass] == Mapper("TEXT", TextCodec, false);
  }

  // ---------------------------------------------------------------------------
  // Reading

  /**
   * The reflective all-arguments constructor `(long, String, String)`: it
   * only stores its arguments, so it fails only on arguments of other types.
   */
  function Construct(params: seq<JValue>): Instantiation<ConfigRow>
  {
    if |params| == 3 && params[0].Integral? && InRange(Long, params[0].n)
       && (params[1].Str? || params[1] == Null) && (params[2].Str? || params[2] == Null)
    then Instance(ConfigRow(params[0].n as JLong,
                            if params[1].Str? then Some(params[1].s) else None,
                            if params[2].Str? then Some(params[2].s) else None))
    else ArgumentMismatch
  }

  /** The result set of the primary-key SELECT: the matching row, if any. */
  function QueryRows(rows: map<Key, string>, k: Key): seq<Row>
  {
    if k in rows
    then [map["guild" := SqlInt(k.guild), "config" := SqlText(k.config), "value" := SqlText(rows[k])]]
    else []
  }

  /** `getConfig`: the value of the row `select` returns, or null without one. */
  function ConfigValue(rows: map<Key, string>, k: Key): Result<Option<string>>
  {
    match SelectFirst(ConfigTable(), QueryRows(rows, k), Construct)
    case Err(e) => Err(e)
    case Ok(None) => Ok(None)
    case Ok(Some(o)) => Ok(o.value)
  }

  /** `getConfig` reads back exactly the stored value, and null for a missing row. */
  lemma ConfigValueIsStored(rows: map<Key, string>, k: Key)
    ensures ConfigValue(rows, k) == Ok(if k in rows then Some(rows[k]) else None)
  {
    if k in rows {
      var row := QueryRows(rows, k)[0];
      assert ReadColumn(GuildField, row) == Ok(Integral(Long, k.guild));
      assert ReadColumn(ConfigField, row) == Ok(Str(k.config));
      assert ReadColumn(ValueField, row) == Ok(Str(rows[k]));
      var vs := ReadFields(Fields, row).value;
      assert vs == [Integral(Long, k.guild), Str(k.config), Str(rows[k])];
    }
  }

  // ---------------------------------------------------------------------------
  // Writing

  /**
   * The insert with its upsert clause: a new key gets the value; on an
   * existing key MySQL assigns the inserted value and SQLite assigns the
   * stored one, leaving the row as it was.
   */
  function Upserted(d: Dialect, rows: map<Key, string>, k: Key, v: string): map<Key, string>
  {
    if k !in rows then rows[k := v]
    else match UpsertValueOf(d)
      case InsertedValue => rows[k := v]
      case StoredValue => rows
  }

  /** The delete on the primary key. */
  function Deleted(rows: map<Key, string>, k: Key): map<Key, string>
  {
    rows - {k}
  }

  /** `updateConfig`'s effect on the table: a null value deletes the row, any other value is upserted. */
  function Updated(d: Dialect, rows: map<Key, string>, k: Key, v: Option<string>): map<Key, string>
  {
    match v
    case None => Deleted(rows, k)
    case Some(x) => Upserted(d, rows, k, x)
  }

  /** The table in one database, with the dialect it speaks. */
  class Store {
    const dialect: Dialect
    var rows: map<Key, string>

    constructor (d: Dialect, rows: map<Key, string>)
      ensures dialect == d && this.rows == rows
    {
      dialect := d;
      this.rows := rows;
    }

    /** `getConfig(guild, config)`. */
    method GetConfig(guild: JLong, config: string) returns (r: Result<Option<string>>)
      ensures r == ConfigValue(rows, Key(guild, config))
      ensures r.Ok?
    {
      ConfigValueIsStored(rows, Key(guild, config));
      r := ConfigValue(rows, Key(guild, config));
    }

    /** `updateConfig(guild, config, value)`: a null value deletes, any other one is upserted. */
    method UpdateConfig(guild: JLong, config: string, value: Option<string>)
      modifies this
      ensures rows == Updated(dialect, old(rows), Key(guild, config), value)
      ensures value.None? ==> rows == Deleted(old(rows), Key(guild, config))
      ensures value.Some? ==> rows == Upserted(dialect, old(rows), Key(guild, config), value.value)
    {
      if value.None? {
        DeleteConfig(guild, config);
        return;
      }
      rows := Upserted(dialect, rows, Key(guild, config), value.value);
    }

    /** `deleteConfig(guild, config)`. */
    method DeleteConfig(guild: JLong, config: string)
      modifies this
      ensures rows == Deleted(old(rows), Key(guild, config))
    {
      rows := Deleted(rows, Key(guild, config));
    }
  }

  // ---------------------------------------------------------------------------
  // Properties of the store

  /** Setting a key that has no row, then reading it, gives the value set, on both backends. */
  lemma SetNewThenGet(d: Dialect, rows: map<Key, string>, k: Key, v: string)
    requires k !in rows
    ensures ConfigValue(Upserted(d, rows, k, v), k) == Ok(Some(v))
  {
    ConfigValueIsStored(Upserted(d, rows, k, v), k);
  }

  /**
   * Setting a key that has a row: MySQL reads back the new value, SQLite the
   * old one, because its `value = value` assigns the stored column to itself.
   */
  lemma SetExistingThenGet(d: Dialect, rows: map<Key, string>, k: Key, v: string)
    requires k in rows
    ensures d == MySql ==> ConfigValue(Upserted(d, rows, k, v), k) == Ok(Some(v))
    ensures d == Sqlite ==> ConfigValue(Upserted(d, rows, k, v), k) == Ok(Some(rows[k]))
  {
    ConfigValueIsStored(Upserted(d, rows, k, v), k);
  }

  /** A set touches no other key. */
  lemma SetTouchesOnlyItsKey(d: Dialect, rows: map<Key, string>, k: Key, v: string, other: Key)
    requires other != k
    ensures other in Upserted(d, rows, k, v) <==> other in rows
    ensures other in rows ==> Upserted(d, rows, k, v)[other] == rows[other]
    ensures k in Upserted(d, rows, k, v)
  {
  }

  /** A delete removes the row of its key and only that one; without a row it changes nothing. */
  lemma DeleteTouchesOnlyItsKey(rows: map<Key, string>, k: Key)
    ensures k !in Deleted(rows, k)
    ensures forall other :: other != k ==>
              (other in Deleted(rows, k) <==> other in rows)
              && (other in rows ==> Deleted(rows, k)[other] == rows[other])
    ensures k !in rows ==> Deleted(rows, k) == rows
    ensures ConfigValue(Deleted(rows, k), k) == Ok(None)
  {
    ConfigValueIsStored(Deleted(rows, k), k);
  }

  /**
   * Updating to null is deleting, on both backends: afterwards the key reads
   * back as null and every other key as before.
   */
  lemma SetNullIsDelete(d: Dialect, rows: map<Key, string>, k: Key)
    ensures Updated(d, rows, k, None) == Deleted(rows, k)
    ensures forall other :: ConfigValue(Updated(d, rows, k, None), other)
              == Ok(if other != k && other in rows then Some(rows[other]) else None)
  {
    forall other
      ensures ConfigValue(Updated(d, rows, k, None), other)
              == Ok(if other != k && other in rows then Some(rows[other]) else None)
    {
      ConfigValueIsStored(Updated(d, rows, k, None), other);
    }
  }
}
