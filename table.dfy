/**
 * Table metadata and the SQL text it synthesises (Table.java). The reflective
 * scan of `@Field` annotations is replaced by an explicit list of fields in
 * declaration order.
 */
module Table {
  import opened Wrappers
  import opened Text
  import opened Dialect
  import opened SqlTypeMapper

  /** `Table.PRIMARY`: the key group that becomes the primary key. */
  const Primary: string := "primary"

  /** One annotated field: column name, mapper of its Java type, key groups, nullability, default literal. */
  datatype Field = Field(identifier: string, mapper: Mapper, keys: seq<string>, nullable: bool, def: string)

  /**
   * A table: its name, its fields in declaration order, the key-group map
   * (`keys`) and the lower-cased identifier index (`fieldsByIdentifier`).
   */
  datatype Table = Table(
    name: string,
    fields: seq<Field>,
    keys: map<string, seq<Field>>,
    fieldsByIdentifier: map<string, Field>)

  function Identifiers(fields: seq<Field>): (r: seq<string>)
    ensures |r| == |fields| && forall i :: 0 <= i < |fields| ==> r[i] == fields[i].identifier
  {
    seq(|fields|, i requires 0 <= i < |fields| => fields[i].identifier)
  }

  // ---------------------------------------------------------------------------
  // Key groups

  /** Every key name of every field, in declaration order (`flatMap`). */
  function AllKeys(fields: seq<Field>): (r: seq<string>)
    ensures forall k :: k in r <==> exists f :: f in fields && k in f.keys
  {
    if fields == [] then []
    else
      var rest := AllKeys(fields[..|fields| - 1]);
      assert forall f :: f in fields <==> f in fields[..|fields| - 1] || f == fields[|fields| - 1];
      rest + fields[|fields| - 1].keys
  }

  /** `distinct()`: the first occurrence of each element, in order. */
  function Deduplicated(xs: seq<string>): (r: seq<string>)
    ensures SqlTypeMapper.Distinct(r)
    ensures forall x :: x in r <==> x in xs
  {
    if xs == [] then []
    else
      var d := Deduplicated(xs[..|xs| - 1]);
      assert forall x :: x in xs <==> x in xs[..|xs| - 1] || x == xs[|xs| - 1];
      if xs[|xs| - 1] in d then d else d + [xs[|xs| - 1]]
  }

  /** The names of all key groups, each once. */
  function KeyNames(fields: seq<Field>): seq<string>
  {
    Deduplicated(AllKeys(fields))
  }

  /** The fields that carry key name `k`, in declaration order. */
  function KeyGroup(fields: seq<Field>, k: string): (r: seq<Field>)
    ensures forall f :: f in r <==> f in fields && k in f.keys
  {
    if fields == [] then []
    else
      var rest := KeyGroup(fields[..|fields| - 1], k);
      var last := fields[|fields| - 1];
      assert forall f :: f in fields <==> f in fields[..|fields| - 1] || f == last;
      if k in last.keys then rest + [last] else rest
  }

  /** The `keys` map: every key name to its group. */
  function KeyGroups(fields: seq<Field>): map<string, seq<Field>>
  {
    map k | k in KeyNames(fields) :: KeyGroup(fields, k)
  }

  /** The lower-cased identifier index; a later field replaces an earlier one with the same key. */
  function ByIdentifier(fields: seq<Field>): map<string, Field>
  {
    if fields == [] then map[]
    else
      var last := fields[|fields| - 1];
      ByIdentifier(fields[..|fields| - 1])[Lower(last.identifier) := last]
  }

  /**
   * The constructor (minus reflection): derives the key groups and fills the
   * identifier index in a loop. On SQLite it also creates the table; `ddl` is
   * the statement it runs, with the key groups enumerated in `order` (the
   * iteration order of the source's HashMap, which is not modelled).
   */
  method NewTable(d: Dialect, name: string, fields: seq<Field>, order: seq<string>)
    returns (t: Table, ddl: Option<string>)
    requires IsKeyOrder(KeyGroups(fields), order)
    ensures t.name == name && t.fields == fields
    ensures t.keys == KeyGroups(fields) && t.fieldsByIdentifier == ByIdentifier(fields)
    ensures forall f :: f in fields ==> Lower(f.identifier) in t.fieldsByIdentifier
    ensures ddl == if CreatesSchema(d) then Some(CreateTableSql(t, order)) else None
  {
    var byIdentifier: map<string, Field> := map[];
    for i := 0 to |fields|
      invariant byIdentifier == ByIdentifier(fields[..i])
    {
      assert fields[..i + 1][..i] == fields[..i];
      byIdentifier := byIdentifier[Lower(fields[i].identifier) := fields[i]];
    }
    assert fields[..|fields|] == fields;
    t := Table(name, fields, KeyGroups(fields), byIdentifier);
    IndexCoversFields(fields);
    ddl := if CreatesSchema(d) then Some(CreateTableSql(t, order)) else None;
  }

  /** A table as the constructor leaves it. */
  ghost predicate Declared(t: Table)
  {
    t.keys == KeyGroups(t.fields) && t.fieldsByIdentifier == ByIdentifier(t.fields)
  }

  // ---------------------------------------------------------------------------
  // Statement text

  /** `keyFields(name)`: the identifiers of a key group; an unknown group throws. */
  function KeyFields(t: Table, keyName: string): (r: Result<seq<string>>)
    ensures r.Ok? <==> keyName in t.keys
    ensures r.Ok? ==> r.value == Identifiers(t.keys[keyName])
    ensures r.Err? ==> r.error == NullPointerException
  {
    if keyName in t.keys then Ok(Identifiers(t.keys[keyName])) else Err(NullPointerException)
  }

  /** `k1 = ? AND k2 = ? AND ...`. */
  function WhereClause(kfields: seq<string>): string
  {
    Join(Suffixed(kfields, " = ?"), " AND ")
  }

  /** `updateFields(fields, kfields)`. */
  function UpdateFieldsSql(t: Table, fields: seq<string>, kfields: seq<string>): string
  {
    "UPDATE " + t.name + " SET " + Join(Suffixed(fields, " = ?"), ", ") + " WHERE " + WhereClause(kfields)
  }

  /** `updateField(field, kfields)`. */
  function UpdateFieldSql(t: Table, field: string, kfields: seq<string>): string
  {
    UpdateFieldsSql(t, [field], kfields)
  }

  /** `update(name, fields)`: the WHERE clause is key group `keyName`. */
  function UpdateSql(t: Table, keyName: string, fields: seq<string>): Result<string>
  {
    match KeyFields(t, keyName)
    case Ok(ks) => Ok(UpdateFieldsSql(t, fields, ks))
    case Err(e) => Err(e)
  }

  /** `deleteFields(kfields)`. */
  function DeleteFieldsSql(t: Table, kfields: seq<string>): string
  {
    "DELETE FROM " + t.name + " WHERE " + WhereClause(kfields)
  }

  /** `delete(name)`. */
  function DeleteSql(t: Table, keyName: string): Result<string>
  {
    match KeyFields(t, keyName)
    case Ok(ks) => Ok(DeleteFieldsSql(t, ks))
    case Err(e) => Err(e)
  }

  /**
   * The listed columns whose field belongs to no key group, in the given order,
   * looked up by lower-cased name; an unknown column throws.
   */
  function NonKeyFields(t: Table, fields: seq<string>): (r: Result<seq<string>>)
    ensures r.Ok? <==> forall i :: 0 <= i < |fields| ==> Lower(fields[i]) in t.fieldsByIdentifier
    ensures r.Err? ==> r.error == NullPointerException
    ensures r.Ok? ==> forall f :: f in r.value <==>
                        f in fields && t.fieldsByIdentifier[Lower(f)].keys == []
  {
    if fields == [] then Ok([])
    else
      var last := fields[|fields| - 1];
      assert forall f :: f in fields <==> f in fields[..|fields| - 1] || f == last;
      match NonKeyFields(t, fields[..|fields| - 1])
      case Err(e) => Err(e)
      case Ok(rest) =>
        if Lower(last) !in t.fieldsByIdentifier then Err(NullPointerException)
        else if t.fieldsByIdentifier[Lower(last)].keys == [] then Ok(rest + [last])
        else Ok(rest)
  }

  /** One column: kept when its field is in no key group, dropped otherwise; unknown, it throws. */
  lemma NonKeyFieldsSingle(t: Table, f: string)
    ensures NonKeyFields(t, [f]) ==
              if Lower(f) !in t.fieldsByIdentifier then Err(NullPointerException)
              else Ok(if t.fieldsByIdentifier[Lower(f)].keys == [] then [f] else [])
  {
    var fs := [f];
    assert fs[..|fs| - 1] == [] && fs[|fs| - 1] == f;
    assert NonKeyFields(t, fs[..|fs| - 1]) == Ok([]);
    assert [] + [f] == [f];
  }

  /**
   * The filter keeps order and repeats: the non-key columns of a concatenation
   * are those of the first part followed by those of the second.
   */
  lemma {:induction false} NonKeyFieldsAppend(t: Table, a: seq<string>, b: seq<string>)
    requires NonKeyFields(t, a).Ok? && NonKeyFields(t, b).Ok?
    ensures NonKeyFields(t, a + b) == Ok(NonKeyFields(t, a).value + NonKeyFields(t, b).value)
    decreases |b|
  {
    if b == [] {
      assert a + b == a;
      assert NonKeyFields(t, a).value + [] == NonKeyFields(t, a).value;
    } else {
      var init, last := b[..|b| - 1], b[|b| - 1];
      assert (a + b)[..|a + b| - 1] == a + init;
      assert (a + b)[|a + b| - 1] == last;
      assert forall i :: 0 <= i < |init| ==> init[i] == b[i];
      assert NonKeyFields(t, init).Ok?;
      assert Lower(last) in t.fieldsByIdentifier;
      NonKeyFieldsAppend(t, a, init);
      var ra, ri := NonKeyFields(t, a).value, NonKeyFields(t, init).value;
      var kept := if t.fieldsByIdentifier[Lower(last)].keys == [] then [last] else [];
      assert ri + [] == ri && ra + ri + [] == ra + ri;
      assert NonKeyFields(t, b) == Ok(ri + kept);
      assert NonKeyFields(t, a + b) == Ok(ra + ri + kept);
      assert ra + ri + kept == ra + (ri + kept);
    }
  }

  /** `INSERT INTO name (f1, ...) VALUES (?, ...)`, before any upsert clause. */
  function InsertPrefix(t: Table, fields: seq<string>): string
  {
    "INSERT INTO " + t.name + " (" + Join(fields, ", ") + ") VALUES (" + Join(Repeat("?", |fields|), ", ") + ")"
  }

  /** The upsert clause for the given non-key columns; none when there are none. */
  function UpsertClause(d: Dialect, nonKey: seq<string>): string
  {
    if nonKey == [] then ""
    else OnDuplicateKey(d) + Join(seq(|nonKey|, i requires 0 <= i < |nonKey| => UpsertWrapper(d, nonKey[i])), ", ")
  }

  /** `insertFields(returnGeneratedKeys, fields)`; the flag only reaches the Statement. */
  function InsertFieldsSql(d: Dialect, t: Table, fields: seq<string>): Result<string>
  {
    match NonKeyFields(t, fields)
    case Ok(nonKey) => Ok(InsertPrefix(t, fields) + UpsertClause(d, nonKey))
    case Err(e) => Err(e)
  }

  /** `insert(name)`: insert the columns of key group `keyName`. */
  function InsertSql(d: Dialect, t: Table, keyName: string): Result<string>
  {
    match KeyFields(t, keyName)
    case Ok(ks) => InsertFieldsSql(d, t, ks)
    case Err(e) => Err(e)
  }

  /** `insertAll()`: every field, in declaration order. */
  function InsertAllSql(d: Dialect, t: Table): Result<string>
  {
    InsertFieldsSql(d, t, Identifiers(t.fields))
  }

  /** The declaration of one column in `CREATE TABLE`. */
  function ColumnDecl(f: Field): string
  {
    f.identifier + " " + f.mapper.sqlType
    + (if f.nullable then " DEFAULT NULL" else " NOT NULL")
    + (if f.nullable || f.def == "" then "" else " DEFAULT " + f.def)
  }

  /** The constraint clause of one key group. */
  function ConstraintClause(keyName: string, group: seq<Field>): string
  {
    (if keyName == Primary then ", PRIMARY KEY(" else ", UNIQUE (") + Join(Identifiers(group), ", ") + ")"
  }

  /** `order` lists every key group exactly once. */
  predicate IsKeyOrder(keys: map<string, seq<Field>>, order: seq<string>)
  {
    SqlTypeMapper.Distinct(order)
    && (forall k :: k in order ==> k in keys)
    && (forall k :: k in keys ==> k in order)
  }

  /** The constraint clauses, one per key group in `order`. */
  function ConstraintClauses(t: Table, order: seq<string>): seq<string>
    requires IsKeyOrder(t.keys, order)
  {
    seq(|order|, i requires 0 <= i < |order| => ConstraintClause(order[i], t.keys[order[i]]))
  }

  /** `ensureExistanceInSqlite`. */
  function CreateTableSql(t: Table, order: seq<string>): string
    requires IsKeyOrder(t.keys, order)
  {
    "CREATE TABLE IF NOT EXISTS " + t.name + "("
    + Join(seq(|t.fields|, i requires 0 <= i < |t.fields| => ColumnDecl(t.fields[i])), ", ")
    + Join(ConstraintClauses(t, order), " ")
    + ")"
  }

  // ---------------------------------------------------------------------------
  // Properties of the identifier index and the key groups

  /** Every field is indexed under its lower-cased identifier, and the index holds nothing else. */
  lemma {:induction false} IndexCoversFields(fields: seq<Field>)
    ensures forall f :: f in fields ==> Lower(f.identifier) in ByIdentifier(fields)
    ensures forall x :: x in ByIdentifier(fields) ==>
              ByIdentifier(fields)[x] in fields && Lower(ByIdentifier(fields)[x].identifier) == x
  {
    if fields != [] {
      var init := fields[..|fields| - 1];
      IndexCoversFields(init);
      assert forall f :: f in fields <==> f in init || f == fields[|fields| - 1];
    }
  }

  /** A field no later field shadows is what the index returns for its identifier. */
  lemma {:induction false} IndexLastWins(fields: seq<Field>, i: nat)
    requires i < |fields|
    requires forall j :: i < j < |fields| ==> Lower(fields[j].identifier) != Lower(fields[i].identifier)
    ensures Lower(fields[i].identifier) in ByIdentifier(fields)
    ensures ByIdentifier(fields)[Lower(fields[i].identifier)] == fields[i]
  {
    if i < |fields| - 1 {
      IndexLastWins(fields[..|fields| - 1], i);
    }
  }

  /** A key group lists its fields in declaration order: appending a field appends it to the groups it names. */
  lemma KeyGroupSnoc(fields: seq<Field>, f: Field, k: string)
    ensures KeyGroup(fields + [f], k) == KeyGroup(fields, k) + (if k in f.keys then [f] else [])
  {
    assert (fields + [f])[..|fields|] == fields;
  }

  /** There is a group for exactly the key names some field carries, and each group is never empty. */
  lemma KeyGroupsShape(fields: seq<Field>)
    ensures forall k :: k in KeyGroups(fields) <==> exists f :: f in fields && k in f.keys
    ensures forall k :: k in KeyGroups(fields) ==> KeyGroups(fields)[k] == KeyGroup(fields, k) != []
    ensures forall k :: k in KeyGroups(fields) ==>
              forall f :: f in KeyGroups(fields)[k] <==> f in fields && k in f.keys
  {
    forall k | k in KeyGroups(fields)
      ensures KeyGroup(fields, k) != []
    {
      var f :| f in fields && k in f.keys;
      assert f in KeyGroup(fields, k);
    }
  }

  /**
   * On a table as the constructor leaves it, `keyFields(name)` succeeds exactly
   * for a key name some field carries, and lists the identifiers of the fields
   * carrying it, in declaration order; any other name is a NullPointerException.
   */
  lemma KeyFieldsByGroup(t: Table, keyName: string)
    requires Declared(t)
    ensures KeyFields(t, keyName).Ok? <==> exists f :: f in t.fields && keyName in f.keys
    ensures KeyFields(t, keyName).Ok? ==>
              KeyFields(t, keyName).value == Identifiers(KeyGroup(t.fields, keyName)) != []
    ensures KeyFields(t, keyName).Err? ==> KeyFields(t, keyName).error == NullPointerException
  {
    KeyGroupsShape(t.fields);
  }

  /** The distinct key names, in first-appearance order, enumerate the groups once each. */
  lemma KeyNamesOrder(fields: seq<Field>)
    ensures IsKeyOrder(KeyGroups(fields), KeyNames(fields))
  {
  }

  // ---------------------------------------------------------------------------
  // Properties of the statement text

  /** No `?` in `s`. */
  predicate NoPlaceholder(s: string)
  {
    '?' !in s
  }

  lemma {:induction false} SuffixedPlaceholders(xs: seq<string>)
    requires forall i :: 0 <= i < |xs| ==> NoPlaceholder(xs[i])
    ensures CountAll(Suffixed(xs, " = ?"), '?') == |xs|
  {
    var ys := Suffixed(xs, " = ?");
    forall i | 0 <= i < |xs|
      ensures Count(ys[i], '?') == 1
    {
      CountAbsent(xs[i], '?');
      CountAppend(xs[i], " = ?", '?');
    }
    CountAllOnce(ys, '?');
  }

  lemma WherePlaceholders(kfields: seq<string>)
    requires forall i :: 0 <= i < |kfields| ==> NoPlaceholder(kfields[i])
    ensures Count(WhereClause(kfields), '?') == |kfields|
  {
    CountJoin(Suffixed(kfields, " = ?"), " AND ", '?');
    SuffixedPlaceholders(kfields);
  }

  /** An UPDATE has one placeholder per assigned column and one per key column. */
  lemma UpdatePlaceholders(t: Table, fields: seq<string>, kfields: seq<string>)
    requires NoPlaceholder(t.name)
    requires forall i :: 0 <= i < |fields| ==> NoPlaceholder(fields[i])
    requires forall i :: 0 <= i < |kfields| ==> NoPlaceholder(kfields[i])
    ensures Count(UpdateFieldsSql(t, fields, kfields), '?') == |fields| + |kfields|
  {
    var sets := Join(Suffixed(fields, " = ?"), ", ");
    CountJoin(Suffixed(fields, " = ?"), ", ", '?');
    SuffixedPlaceholders(fields);
    WherePlaceholders(kfields);
    CountAbsent(t.name, '?');
    CountPrependAbsent("UPDATE ", t.name, '?');
    CountAppendAbsent("UPDATE " + t.name, " SET ", '?');
    CountAppend("UPDATE " + t.name + " SET ", sets, '?');
    CountAppendAbsent("UPDATE " + t.name + " SET " + sets, " WHERE ", '?');
    CountAppend("UPDATE " + t.name + " SET " + sets + " WHERE ", WhereClause(kfields), '?');
  }

  /** A DELETE has one placeholder per key column. */
  lemma DeletePlaceholders(t: Table, kfields: seq<string>)
    requires NoPlaceholder(t.name)
    requires forall i :: 0 <= i < |kfields| ==> NoPlaceholder(kfields[i])
    ensures Count(DeleteFieldsSql(t, kfields), '?') == |kfields|
  {
    WherePlaceholders(kfields);
    CountAbsent(t.name, '?');
    CountPrependAbsent("DELETE FROM ", t.name, '?');
    CountAppendAbsent("DELETE FROM " + t.name, " WHERE ", '?');
    CountAppend("DELETE FROM " + t.name + " WHERE ", WhereClause(kfields), '?');
  }

  lemma UpsertWrapperNoPlaceholder(d: Dialect, f: string)
    requires NoPlaceholder(f)
    ensures NoPlaceholder(UpsertWrapper(d, f))
  {
  }

  lemma UpsertClauseNoPlaceholder(d: Dialect, nonKey: seq<string>)
    requires forall i :: 0 <= i < |nonKey| ==> NoPlaceholder(nonKey[i])
    ensures Count(UpsertClause(d, nonKey), '?') == 0
  {
    if nonKey != [] {
      var ws := seq(|nonKey|, i requires 0 <= i < |nonKey| => UpsertWrapper(d, nonKey[i]));
      forall i | 0 <= i < |ws|
        ensures Count(ws[i], '?') == 0
      {
        UpsertWrapperNoPlaceholder(d, nonKey[i]);
        CountAbsent(ws[i], '?');
      }
      CountAllNone(ws, '?');
      CountJoin(ws, ", ", '?');
      assert '?' !in OnDuplicateKey(d);
      CountPrependAbsent(OnDuplicateKey(d), Join(ws, ", "), '?');
    }
  }

  lemma InsertPrefixPlaceholders(t: Table, fields: seq<string>)
    requires NoPlaceholder(t.name)
    requires forall i :: 0 <= i < |fields| ==> NoPlaceholder(fields[i])
    ensures Count(InsertPrefix(t, fields), '?') == |fields|
  {
    var cols := Join(fields, ", ");
    var marks := Join(Repeat("?", |fields|), ", ");
    CountJoin(fields, ", ", '?');
    forall i | 0 <= i < |fields|
      ensures Count(fields[i], '?') == 0
    {
      CountAbsent(fields[i], '?');
    }
    CountAllNone(fields, '?');
    CountJoin(Repeat("?", |fields|), ", ", '?');
    CountAllOnce(Repeat("?", |fields|), '?');
    CountAbsent(t.name, '?');
    CountPrependAbsent("INSERT INTO ", t.name, '?');
    CountAppendAbsent("INSERT INTO " + t.name, " (", '?');
    CountAppend("INSERT INTO " + t.name + " (", cols, '?');
    CountAppendAbsent("INSERT INTO " + t.name + " (" + cols, ") VALUES (", '?');
    CountAppend("INSERT INTO " + t.name + " (" + cols + ") VALUES (", marks, '?');
    CountAppendAbsent("INSERT INTO " + t.name + " (" + cols + ") VALUES (" + marks, ")", '?');
  }

  /** An INSERT has exactly one placeholder per listed column, whatever the upsert clause. */
  lemma InsertPlaceholders(d: Dialect, t: Table, fields: seq<string>)
    requires NoPlaceholder(t.name)
    requires forall i :: 0 <= i < |fields| ==> NoPlaceholder(fields[i])
    requires InsertFieldsSql(d, t, fields).Ok?
    ensures Count(InsertFieldsSql(d, t, fields).value, '?') == |fields|
  {
    var nonKey := NonKeyFields(t, fields).value;
    forall i | 0 <= i < |nonKey|
      ensures NoPlaceholder(nonKey[i])
    {
      assert nonKey[i] in nonKey;
      var j :| 0 <= j < |fields| && fields[j] == nonKey[i];
    }
    UpsertClauseNoPlaceholder(d, nonKey);
    InsertPrefixPlaceholders(t, fields);
    CountAppend(InsertPrefix(t, fields), UpsertClause(d, nonKey), '?');
  }

  /**
   * An INSERT gets an upsert clause exactly when one of its columns belongs to
   * no key group; otherwise the text ends with the VALUES list.
   */
  lemma UpsertOnlyWithNonKeyColumns(d: Dialect, t: Table, fields: seq<string>)
    requires InsertFieldsSql(d, t, fields).Ok?
    ensures InsertPrefix(t, fields) <= InsertFieldsSql(d, t, fields).value
    ensures InsertFieldsSql(d, t, fields).value == InsertPrefix(t, fields) <==>
              forall f :: f in fields ==> t.fieldsByIdentifier[Lower(f)].keys != []
  {
    var nonKey := NonKeyFields(t, fields).value;
    if nonKey != [] {
      assert nonKey[0] in nonKey;
      assert |OnDuplicateKey(d)| > 0;
    }
  }

  /** `insertAll()` never fails on a declared table: every identifier is in the index. */
  lemma InsertAllSucceeds(d: Dialect, t: Table)
    requires Declared(t)
    ensures InsertAllSql(d, t).Ok?
    ensures InsertAllSql(d, t) == InsertFieldsSql(d, t, Identifiers(t.fields))
  {
    IndexCoversFields(t.fields);
    var ids := Identifiers(t.fields);
    forall i | 0 <= i < |ids|
      ensures Lower(ids[i]) in t.fieldsByIdentifier
    {
      assert t.fields[i] in t.fields;
    }
  }

  /** A nullable column defaults to NULL; a non-null one is NOT NULL, with its default if it has one. */
  lemma ColumnDeclShape(f: Field)
    ensures f.nullable ==> ColumnDecl(f) == f.identifier + " " + f.mapper.sqlType + " DEFAULT NULL"
    ensures !f.nullable && f.def == "" ==>
              ColumnDecl(f) == f.identifier + " " + f.mapper.sqlType + " NOT NULL"
    ensures !f.nullable && f.def != "" ==>
              ColumnDecl(f) == f.identifier + " " + f.mapper.sqlType + " NOT NULL DEFAULT " + f.def
  {
  }

  /**
   * CREATE TABLE has one constraint clause per key group, over that group's
   * identifiers; exactly one of them is a PRIMARY KEY, when there is a
   * "primary" group, and all others are UNIQUE.
   */
  lemma ConstraintClausesShape(t: Table, order: seq<string>)
    requires IsKeyOrder(t.keys, order)
    ensures |ConstraintClauses(t, order)| == |t.keys|
    ensures forall k :: k in t.keys ==>
              (exists i :: 0 <= i < |order| && order[i] == k &&
                 ConstraintClauses(t, order)[i] == ConstraintClause(k, t.keys[k]))
    ensures forall i, j :: 0 <= i < j < |order| ==> !(order[i] == Primary && order[j] == Primary)
    ensures forall i :: 0 <= i < |order| ==>
              (order[i] == Primary ==> ", PRIMARY KEY(" <= ConstraintClauses(t, order)[i])
              && (order[i] != Primary ==> ", UNIQUE (" <= ConstraintClauses(t, order)[i])
  {
    DistinctCardinality(order);
    assert (set k | k in order) == t.keys.Keys;
    forall i | 0 <= i < |order|
      ensures order[i] == Primary ==> ", PRIMARY KEY(" <= ConstraintClauses(t, order)[i]
      ensures order[i] != Primary ==> ", UNIQUE (" <= ConstraintClauses(t, order)[i]
    {
      var rest := Join(Identifiers(t.keys[order[i]]), ", ") + ")";
      if order[i] == Primary {
        assert ConstraintClauses(t, order)[i] == ", PRIMARY KEY(" + rest;
      } else {
        assert ConstraintClauses(t, order)[i] == ", UNIQUE (" + rest;
      }
    }
  }

  /** A duplicate-free sequence has as many elements as its set. */
  lemma {:induction false} DistinctCardinality(xs: seq<string>)
    requires SqlTypeMapper.Distinct(xs)
    ensures |set x | x in xs| == |xs|
  {
    if xs != [] {
      var init := xs[..|xs| - 1];
      DistinctCardinality(init);
      assert (set x | x in xs) == (set x | x in init) + {xs[|xs| - 1]};
      assert xs[|xs| - 1] !in init;
    }
  }
}
