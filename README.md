# PlenumBot persistence and schedule grid, modelled in Dafny

PlenumBot is a Discord bot. Its persistence goes through a small SQL layer taken from SteamWar:
- `Table` derives a table's key groups and column index from its annotated fields, and synthesises SELECT, INSERT, UPDATE, DELETE and (on SQLite) CREATE TABLE statements.
- `SelectStatement` turns result rows back into objects.
- `Statement` keeps a pool of JDBC connections and a per-connection cache of prepared statements. It binds parameters and retries a statement whose connection turns out to be dead.
- `SqlTypeMapper` is the registry from Java classes to SQL column types, readers and writers.

`GuildConfig` is a per-guild key/value store built on that layer. The schedule renderer lays a school week out as a grid of strings before drawing it, and decides whether a newer schedule must be re-rendered.

The model has one module per source file, plus helpers:

| file | module | models |
|---|---|---|
| `wrappers.dfy` | `Wrappers` | `Option`, `Result` and the Java exceptions the core throws |
| `text.dfy` | `Text` | joining, counting `?`, decimal rendering, ASCII lower case |
| `dialect.dfy` | `Dialect` | the MySQL/SQLite constants chosen in `Statement`'s static initialiser |
| `sql_type_mapper.dfy` | `SqlTypeMapper` | values, codecs, mappers and the registry class |
| `table.dfy` | `Table` | key groups, the identifier index, and the statement texts |
| `select_statement.dfy` | `SelectStatement` | SELECT texts, and reading rows into objects |
| `statement.dfy` | `Statements` | parameter binding, the statement cache, the connection pool and the retry loop |
| `guild_config.dfy` | `GuildConfig` | the guild-config table, its statements, and the store |
| `schedule_render.dfy` | `ScheduleRender` | the grid of `render` and `shouldReRender` |

How some of the source maps onto Dafny:
- State that the source changes in place is a class. `Registry.mappers`, a `Statement`'s `cachedStatements` and the pool's idle deque, budget and statement list are fields that the methods reassign. The grid is an `array2`.
- The backend (`MYSQL_MODE`) is a `Dialect` parameter.
- A JDBC row is a map from column name to cell.
- A call that throws returns `Err` with the Java exception it throws.
- The behaviour of connections over a run of `withConnection` is a script of attempts. Each attempt gives the connection that would be created, what running the statement yields, and whether the connection is then found invalid.

## Model

| member | source | states |
|---|---|---|
| Text.Lower | src/main/java/de/steamwar/sql/internal/Table.java:59 | lower-casing keeps the length, turns each upper-case ASCII letter into its lower-case partner, keeps every other character, and leaves no upper-case ASCII letter |
| Text.LowerIdempotent | src/main/java/de/steamwar/sql/internal/Table.java:59 | lower-casing an already lower-cased identifier changes nothing |
| Text.NatToString | src/main/java/net/dynv6/hut512/plenumbot/schedule/render/DefaultScheduleRenderManager.java:60 | the decimal rendering of a number is a non-empty digit string, with no leading zero except for 0 itself |
| Dialect.UpsertWrapperShape | src/main/java/de/steamwar/sql/internal/Statement.java:80-81 | the MySQL assignment wraps the column in `VALUES(...)` and means the inserted value; the SQLite one is `f = f` and means the stored value |
| SqlTypeMapper.FitsByClass | src/main/java/de/steamwar/sql/internal/SqlTypeMapper.java:93-95 | the writer's cast succeeds for every well-formed value whose class has a compatible mapper |
| SqlTypeMapper.IndexOf | src/main/java/de/steamwar/sql/internal/SqlTypeMapper.java:52 | `valueOf` finds a position holding the name, or fails only for a name that is not a constant |
| SqlTypeMapper.IndexOfDistinct | src/main/java/de/steamwar/sql/internal/SqlTypeMapper.java:52-53 | with distinct constant names, looking a constant's name up gives its own position |
| SqlTypeMapper.OrdinalWidth | src/main/java/de/steamwar/sql/internal/SqlTypeMapper.java:42 | the width is the least k with n <= 256k (`ceil(n / 256.0)`) |
| SqlTypeMapper.NameWidth | src/main/java/de/steamwar/sql/internal/SqlTypeMapper.java:51 | the width is the maximum length of a constant name, or 0 without constants |
| SqlTypeMapper.BuiltInClassesCover | src/main/java/de/steamwar/sql/internal/SqlTypeMapper.java:57-67 | exactly the seven primitives, their seven wrappers, String, Timestamp and InputStream get a built-in mapper |
| SqlTypeMapper.BuiltIns | src/main/java/de/steamwar/sql/internal/SqlTypeMapper.java:57-67 | the initial registry has a key for exactly the classes with a built-in mapper, mapped to that mapper |
| SqlTypeMapper.StaticInitialiserIsBuiltIns | src/main/java/de/steamwar/sql/internal/SqlTypeMapper.java:57-76 | the registrations of the static initialiser, in their order, build exactly the built-in table |
| SqlTypeMapper.InitialisedPrimitive | src/main/java/de/steamwar/sql/internal/SqlTypeMapper.java:58-64 | each primitive class ends up registered with its built-in mapper |
| SqlTypeMapper.InitialisedWrapper | src/main/java/de/steamwar/sql/internal/SqlTypeMapper.java:70-76 | each wrapper class ends up registered with its nullable built-in mapper |
| SqlTypeMapper.InitialisedOther | src/main/java/de/steamwar/sql/internal/SqlTypeMapper.java:65-67 | of the non-primitive classes, exactly String, Timestamp and InputStream are registered, with TEXT, TIMESTAMP and BLOB |
| SqlTypeMapper.Registry.constructor | src/main/java/de/steamwar/sql/internal/SqlTypeMapper.java:57-68 | after the static initialiser the registry is type-correct and equals the built-in table |
| SqlTypeMapper.Registry.Register | src/main/java/de/steamwar/sql/internal/SqlTypeMapper.java:82-87 | registering replaces the mapper of that class and changes nothing else |
| SqlTypeMapper.Registry.PrimitiveMapper | src/main/java/de/steamwar/sql/internal/SqlTypeMapper.java:70-76 | registers the primitive class, then its wrapper class, with one SQL type and one writer |
| SqlTypeMapper.Registry.OrdinalEnumMapper | src/main/java/de/steamwar/sql/internal/SqlTypeMapper.java:38-46 | registers the ordinal mapper for the enum class, and only that |
| SqlTypeMapper.Registry.NameEnumMapper | src/main/java/de/steamwar/sql/internal/SqlTypeMapper.java:48-55 | registers the name mapper for the enum class, and only that |
| SqlTypeMapper.Registry.GetMapper | src/main/java/de/steamwar/sql/internal/SqlTypeMapper.java:34-36 | a registered class gets exactly its registered mapper, which reads and writes that class; an unregistered class, such as a concrete stream class, gets null |
| SqlTypeMapper.LookupAfterRegister | src/main/java/de/steamwar/sql/internal/SqlTypeMapper.java:32-36 | after a registration, the lookup answers with the newest mapper for that class and as before for every other class |
| SqlTypeMapper.BuiltInSqlTypes | src/main/java/de/steamwar/sql/internal/SqlTypeMapper.java:58-67 | the SQL type registered for each built-in class |
| SqlTypeMapper.BuiltInsTypeCorrect | src/main/java/de/steamwar/sql/internal/SqlTypeMapper.java:57-67 | every built-in mapper fits its class, and no enum or other class is built in |
| SqlTypeMapper.PrimitiveAndWrapperAgree | src/main/java/de/steamwar/sql/internal/SqlTypeMapper.java:70-76 | a primitive and its wrapper share SQL type and codec; only the wrapper maps SQL NULL to null |
| SqlTypeMapper.WrapperReader | src/main/java/de/steamwar/sql/internal/SqlTypeMapper.java:72-75 | the wrapper reader gives null for SQL NULL and the primitive reader's value otherwise |
| SqlTypeMapper.OrdinalSqlType | src/main/java/de/steamwar/sql/internal/SqlTypeMapper.java:42 | the ordinal enum column is `INTEGER(ceil(n/256))` |
| SqlTypeMapper.WriteReadRoundTrip | src/main/java/de/steamwar/sql/internal/SqlTypeMapper.java:89-95 | reading back the cell a mapper wrote gives the value written |
| SqlTypeMapper.OrdinalRoundTrip | src/main/java/de/steamwar/sql/internal/SqlTypeMapper.java:43-44 | the ordinal mapper stores `ordinal()` and reads the same constant back |
| SqlTypeMapper.NameRoundTrip | src/main/java/de/steamwar/sql/internal/SqlTypeMapper.java:51-53 | the name mapper stores `name()`, reads the same constant back, and the name fits the VARCHAR width |
| SqlTypeMapper.NameReaderRejects | src/main/java/de/steamwar/sql/internal/SqlTypeMapper.java:52 | SQL NULL makes `valueOf` throw NullPointerException; a text cell makes it throw IllegalArgumentException exactly when it is no constant's name |
| SqlTypeMapper.OrdinalReaderRejects | src/main/java/de/steamwar/sql/internal/SqlTypeMapper.java:43 | the ordinal reader throws ArrayIndexOutOfBoundsException exactly for a number that is no ordinal, and reads SQL NULL as ordinal 0 |
| Table.AllKeys | src/main/java/de/steamwar/sql/internal/Table.java:56 | the flat-mapped key names are exactly those some field carries |
| Table.Deduplicated | src/main/java/de/steamwar/sql/internal/Table.java:56 | `distinct()` has no duplicates and the same elements |
| Table.KeyGroup | src/main/java/de/steamwar/sql/internal/Table.java:56 | a key group holds exactly the fields that carry its name |
| Table.KeyGroupSnoc | src/main/java/de/steamwar/sql/internal/Table.java:56 | a group keeps declaration order: a later field is appended to the groups it names |
| Table.KeyGroupsShape | src/main/java/de/steamwar/sql/internal/Table.java:56 | there is a group for exactly the key names some field carries; each is its group of fields and is non-empty |
| Table.KeyNamesOrder | src/main/java/de/steamwar/sql/internal/Table.java:56 | the distinct key names enumerate the groups once each |
| Table.IndexCoversFields | src/main/java/de/steamwar/sql/internal/Table.java:58-60 | every field is indexed under its lower-cased identifier, and the index holds only fields |
| Table.IndexLastWins | src/main/java/de/steamwar/sql/internal/Table.java:58-60 | a field that no later field shadows is what the index returns |
| Table.NewTable | src/main/java/de/steamwar/sql/internal/Table.java:47-63 | the constructor's groups and index, and the CREATE TABLE run only on SQLite |
| Table.KeyFieldsByGroup | src/main/java/de/steamwar/sql/internal/Table.java:120-122 | on a table as the constructor builds it, `keyFields(name)` succeeds exactly when some field carries the key name, and lists those fields' identifiers in declaration order; any other name throws NullPointerException |
| Table.NonKeyFields | src/main/java/de/steamwar/sql/internal/Table.java:98 | succeeds exactly when every listed column is known, otherwise NullPointerException; the result holds exactly the listed columns that belong to no key group |
| Table.NonKeyFieldsSingle | src/main/java/de/steamwar/sql/internal/Table.java:98 | one column is kept if its field is in no key group and dropped otherwise; an unknown one throws |
| Table.NonKeyFieldsAppend | src/main/java/de/steamwar/sql/internal/Table.java:98-99 | the filter keeps order and repeats: the result for a concatenation is the first part's result followed by the second's |
| Table.SuffixedPlaceholders | src/main/java/de/steamwar/sql/internal/Table.java:82 | `f = ?` for every column holds one `?` per column |
| Table.WherePlaceholders | src/main/java/de/steamwar/sql/internal/Table.java:107 | the WHERE clause has one `?` per key column |
| Table.UpdatePlaceholders | src/main/java/de/steamwar/sql/internal/Table.java:81-83 | an UPDATE has one `?` per assigned column plus one per key column |
| Table.DeletePlaceholders | src/main/java/de/steamwar/sql/internal/Table.java:106-108 | a DELETE has one `?` per key column |
| Table.UpsertWrapperNoPlaceholder | src/main/java/de/steamwar/sql/internal/Statement.java:81 | an upsert assignment adds no `?` |
| Table.UpsertClauseNoPlaceholder | src/main/java/de/steamwar/sql/internal/Table.java:99 | the whole upsert clause adds no `?` |
| Table.InsertPrefixPlaceholders | src/main/java/de/steamwar/sql/internal/Table.java:99 | the VALUES list has one `?` per column |
| Table.InsertPlaceholders | src/main/java/de/steamwar/sql/internal/Table.java:97-100 | an INSERT has exactly one `?` per listed column, with or without upsert |
| Table.UpsertOnlyWithNonKeyColumns | src/main/java/de/steamwar/sql/internal/Table.java:97-100 | the INSERT extends its VALUES part, and it has an upsert clause if and only if a listed column is in no key group |
| Table.InsertAllSucceeds | src/main/java/de/steamwar/sql/internal/Table.java:89-91 | `insertAll` never throws on a declared table and lists every field |
| Table.ColumnDeclShape | src/main/java/de/steamwar/sql/internal/Table.java:113 | a column is `DEFAULT NULL` when nullable, else `NOT NULL` with its default if one is given |
| Table.ConstraintClausesShape | src/main/java/de/steamwar/sql/internal/Table.java:114 | one clause per key group over its identifiers; PRIMARY KEY for "primary", UNIQUE for the rest |
| SelectStatement.SelectPlaceholders | src/main/java/de/steamwar/sql/internal/SelectStatement.java:33-35 | a SELECT has one `?` per key column |
| SelectStatement.SelectByKeyGroup | src/main/java/de/steamwar/sql/internal/Table.java:65-67 | `select(name)` succeeds if and only if some field carries the key name, and filters by that group in declaration order |
| SelectStatement.ReadFields | src/main/java/de/steamwar/sql/internal/SelectStatement.java:61-64 | the parameters are every field's column, in order; reading fails if and only if one column fails, and then with the exception of the first column that fails |
| SelectStatement.ReadRow | src/main/java/de/steamwar/sql/internal/SelectStatement.java:60-71 | the array loop computes the row's outcome: the object, the exception of the first failing column, IllegalArgumentException for mismatching arguments, or SecurityException for a failing constructor |
| SelectStatement.RowObjectMeaning | src/main/java/de/steamwar/sql/internal/SelectStatement.java:60-71 | a row becomes an object if and only if every column reads and the constructor accepts the values; otherwise the exception is the first failing column's, IllegalArgumentException exactly for mismatching arguments, SecurityException exactly for a failing constructor |
| SelectStatement.MaterialiseMeaning | src/main/java/de/steamwar/sql/internal/SelectStatement.java:50-58 | the list has one object per row, in order; on failure it is the first failing row's error |
| SelectStatement.MaterialiseStopsAtFailure | src/main/java/de/steamwar/sql/internal/SelectStatement.java:53-54 | rows after a failure do not change the outcome |
| SelectStatement.ListSelect | src/main/java/de/steamwar/sql/internal/SelectStatement.java:50-58 | the `while (rs.next())` loop computes the materialised list |
| SelectStatement.SelectFirstIsHead | src/main/java/de/steamwar/sql/internal/SelectStatement.java:42-48 | `select` is null exactly for no rows, is the head of `listSelect`, and ignores later rows |
| Statements.Binding | src/main/java/de/steamwar/sql/internal/Statement.java:214-220 | all parameters bind if and only if each binds; parameter i goes to index i+1, and no other index is bound |
| Statements.Bind | src/main/java/de/steamwar/sql/internal/Statement.java:214-220 | the binding loop computes that binding |
| Statements.BindingStopsAtFailure | src/main/java/de/steamwar/sql/internal/Statement.java:214-220 | a prefix that fails to bind makes the whole binding fail |
| Statements.BindRoundTrip | src/main/java/de/steamwar/sql/internal/Statement.java:217 | a well-formed value of a registered class binds, and that mapper reads it back |
| Statements.StreamParameterUnbound | src/main/java/de/steamwar/sql/internal/Statement.java:217 | a stream parameter never binds with the built-in registry, because the lookup uses its concrete class |
| Statements.Statement.constructor | src/main/java/de/steamwar/sql/internal/Statement.java:132-138 | a new statement keeps its text and flag, with an empty cache |
| Statements.Statement.Prepare | src/main/java/de/steamwar/sql/internal/Statement.java:205-212 | a statement is prepared on the first use of a connection and reused afterwards |
| Statements.Statement.Forget | src/main/java/de/steamwar/sql/internal/Statement.java:234-238 | the cache entry of that connection, and only it, is dropped |
| Statements.Statement.Clear | src/main/java/de/steamwar/sql/internal/Statement.java:227-228 | the cache is emptied |
| Statements.Without | src/main/java/de/steamwar/sql/internal/Statement.java:230 | `remove` takes one occurrence out and nothing else |
| Statements.WithoutUnique | src/main/java/de/steamwar/sql/internal/Statement.java:229-231 | in a registry without duplicates, removing a statement removes it entirely and keeps the others |
| Statements.RunPushesBackOnce | src/main/java/de/steamwar/sql/internal/Statement.java:166-193 | a run that runs out of attempts retried each one and took that many connections off the idle stack; a run that ends does so at some attempt k after k retries, with k's result as outcome and k's connection on top of the untouched rest of the stack |
| Statements.AlwaysInvalidNeverEnds | src/main/java/de/steamwar/sql/internal/Statement.java:173-176 | if every attempt fails on an invalid connection, no result ever comes, and the idle connections are closed one by one |
| Statements.FailureOnValidConnectionIsFinal | src/main/java/de/steamwar/sql/internal/Statement.java:177-184 | a failure on a valid connection ends the run with the failure; later attempts do not matter |
| Statements.UnboundNeverRuns | src/main/java/de/steamwar/sql/internal/Statement.java:214-222 | parameters that do not bind never yield a result |
| Statements.Pool.constructor | src/main/java/de/steamwar/sql/internal/Statement.java:103 | the pool starts with no connection, the full budget and no statement |
| Statements.Pool.Register | src/main/java/de/steamwar/sql/internal/Statement.java:132-138 | a new statement is appended to the registry |
| Statements.Pool.Acquire | src/main/java/de/steamwar/sql/internal/Statement.java:240-253 | pops the newest idle connection, or else creates one from the budget |
| Statements.Pool.Release | src/main/java/de/steamwar/sql/internal/Statement.java:187-190 | the connection is pushed back on top of the idle stack |
| Statements.Pool.CloseConnection | src/main/java/de/steamwar/sql/internal/Statement.java:255-271 | every statement forgets the connection, which leaves circulation, and the budget grows by one |
| Statements.Pool.CloseStatement | src/main/java/de/steamwar/sql/internal/Statement.java:225-232 | the statement's cache is emptied, and it alone leaves the registry |
| Statements.Pool.CloseAll | src/main/java/de/steamwar/sql/internal/Statement.java:105-114 | all connections are closed, the budget is back at its maximum, and no statement caches anything |
| Statements.Pool.TryWithConnection | src/main/java/de/steamwar/sql/internal/Statement.java:204-223 | the statement is cached for the connection, then bound and run |
| Statements.Pool.WithConnection | src/main/java/de/steamwar/sql/internal/Statement.java:166-193 | the outcome and the idle stack are those of the attempt-by-attempt specification |
| Statements.Pool.Retry | src/main/java/de/steamwar/sql/internal/Statement.java:173-176 | closing the invalid connection and starting over gives the outcome of the remaining attempts |
| Statements.PoolAccounting | src/main/java/de/steamwar/sql/internal/Statement.java:240-271 | idle + checked-out + budget is always 4 on MySQL and 1 on SQLite |
| GuildConfig.ConfigAllKeys | src/main/java/net/dynv6/hut512/plenumbot/sql/GuildConfig.java:35-40 | the fields' key names are "primary" twice |
| GuildConfig.ConfigPrimaryGroup | src/main/java/net/dynv6/hut512/plenumbot/sql/GuildConfig.java:35-38 | the primary group is guild then config |
| GuildConfig.ConfigKeyNames | src/main/java/net/dynv6/hut512/plenumbot/sql/GuildConfig.java:35-40 | the only key group is "primary" |
| GuildConfig.ConfigKeys | src/main/java/net/dynv6/hut512/plenumbot/sql/GuildConfig.java:35-40 | the key map is primary to (guild, config) |
| GuildConfig.ConfigIndex | src/main/java/net/dynv6/hut512/plenumbot/sql/GuildConfig.java:35-40 | the identifier index maps "guild", "config" and "value" to their fields |
| GuildConfig.ConfigTableDeclared | src/main/java/net/dynv6/hut512/plenumbot/sql/GuildConfig.java:30 | the table is what `Table`'s constructor builds from the three fields |
| GuildConfig.ConfigColumns | src/main/java/net/dynv6/hut512/plenumbot/sql/GuildConfig.java:35-40 | the columns are guild, config and value; the primary columns are guild and config |
| GuildConfig.ConfigWhere | src/main/java/net/dynv6/hut512/plenumbot/sql/GuildConfig.java:31 | the filter is `guild = ? AND config = ?` |
| GuildConfig.ConfigSelectText | src/main/java/net/dynv6/hut512/plenumbot/sql/GuildConfig.java:31 | the exact SELECT text |
| GuildConfig.ConfigSelectFields | src/main/java/net/dynv6/hut512/plenumbot/sql/GuildConfig.java:31 | the exact SELECT text for the two key columns |
| GuildConfig.ConfigDeleteText | src/main/java/net/dynv6/hut512/plenumbot/sql/GuildConfig.java:33 | the exact DELETE text |
| GuildConfig.ConfigNonKey | src/main/java/net/dynv6/hut512/plenumbot/sql/GuildConfig.java:32 | the only non-key column is value |
| GuildConfig.ConfigInsertText | src/main/java/net/dynv6/hut512/plenumbot/sql/GuildConfig.java:32 | the insert is the VALUES part followed by the upsert of value |
| GuildConfig.ConfigInsertPrefix | src/main/java/net/dynv6/hut512/plenumbot/sql/GuildConfig.java:32 | the exact `INSERT INTO GuildConfig (guild, config, value) VALUES (?, ?, ?)` text |
| GuildConfig.ConfigPlaceholders | src/main/java/net/dynv6/hut512/plenumbot/sql/GuildConfig.java:32 | three placeholders join to `?, ?, ?` |
| GuildConfig.ConfigUpsertClause | src/main/java/net/dynv6/hut512/plenumbot/sql/GuildConfig.java:32 | the upsert clause is the dialect's opener plus one assignment for value |
| GuildConfig.ConfigCreateTable | src/main/java/net/dynv6/hut512/plenumbot/sql/GuildConfig.java:30 | the exact CREATE TABLE text run on SQLite |
| GuildConfig.ConfigDecls | src/main/java/net/dynv6/hut512/plenumbot/sql/GuildConfig.java:35-40 | the three column declarations, joined |
| GuildConfig.ColumnDecls | src/main/java/net/dynv6/hut512/plenumbot/sql/GuildConfig.java:35-40 | guild is `INTEGER(8) NOT NULL`; config and value are `TEXT NOT NULL` |
| GuildConfig.GuildDecl | src/main/java/net/dynv6/hut512/plenumbot/sql/GuildConfig.java:35-36 | the guild column declaration |
| GuildConfig.ConfigDecl | src/main/java/net/dynv6/hut512/plenumbot/sql/GuildConfig.java:37-38 | the config column declaration |
| GuildConfig.ValueDecl | src/main/java/net/dynv6/hut512/plenumbot/sql/GuildConfig.java:39-40 | the value column declaration |
| GuildConfig.ConfigConstraint | src/main/java/net/dynv6/hut512/plenumbot/sql/GuildConfig.java:35-38 | the only constraint is `PRIMARY KEY(guild, config)` |
| GuildConfig.PrimaryConstraint | src/main/java/net/dynv6/hut512/plenumbot/sql/GuildConfig.java:35-38 | the primary clause over guild and config |
| GuildConfig.InsertParameters | src/main/java/net/dynv6/hut512/plenumbot/sql/GuildConfig.java:52 | guild, config and value bind to parameters 1, 2 and 3 as an integer and two texts |
| GuildConfig.BindThree | src/main/java/net/dynv6/hut512/plenumbot/sql/GuildConfig.java:52 | three parameters that each bind go to indices 1, 2 and 3 |
| GuildConfig.BindLong | src/main/java/net/dynv6/hut512/plenumbot/sql/GuildConfig.java:52 | a boxed long binds as an integer |
| GuildConfig.BindString | src/main/java/net/dynv6/hut512/plenumbot/sql/GuildConfig.java:52 | a string binds as text |
| GuildConfig.ConfigValueIsStored | src/main/java/net/dynv6/hut512/plenumbot/sql/GuildConfig.java:42-45 | `getConfig` reads the stored value back, and null for a missing row |
| GuildConfig.Store.GetConfig | src/main/java/net/dynv6/hut512/plenumbot/sql/GuildConfig.java:42-45 | in the model's store, where every statement runs, `getConfig` returns the stored value, or null without a row |
| GuildConfig.Store.UpdateConfig | src/main/java/net/dynv6/hut512/plenumbot/sql/GuildConfig.java:47-53 | the table becomes `Updated(...)`: a null value deletes the row, any other value is upserted |
| GuildConfig.Store.DeleteConfig | src/main/java/net/dynv6/hut512/plenumbot/sql/GuildConfig.java:55-57 | the row of the key is deleted |
| GuildConfig.SetNewThenGet | src/main/java/net/dynv6/hut512/plenumbot/sql/GuildConfig.java:47-53 | setting a new key, then getting it, gives the value set |
| GuildConfig.SetExistingThenGet | src/main/java/net/dynv6/hut512/plenumbot/sql/GuildConfig.java:47-53 | on an existing key MySQL reads back the new value and SQLite the old one |
| GuildConfig.SetTouchesOnlyItsKey | src/main/java/net/dynv6/hut512/plenumbot/sql/GuildConfig.java:52 | a set leaves every other key as it was |
| GuildConfig.DeleteTouchesOnlyItsKey | src/main/java/net/dynv6/hut512/plenumbot/sql/GuildConfig.java:55-57 | a delete removes exactly its key, after which `getConfig` gives null |
| GuildConfig.SetNullIsDelete | src/main/java/net/dynv6/hut512/plenumbot/sql/GuildConfig.java:48-51 | `updateConfig` with null is the delete: afterwards that key reads null and every other key reads as before |
| ScheduleRender.DaysBound | src/main/java/net/dynv6/hut512/plenumbot/schedule/render/DefaultScheduleRenderManager.java:50 | a map keyed by days has at most seven keys, so `DayOfWeek.of` never throws |
| ScheduleRender.Columns | src/main/java/net/dynv6/hut512/plenumbot/schedule/render/DefaultScheduleRenderManager.java:50 | the grid has between 1 and 8 columns |
| ScheduleRender.BuildGrid | src/main/java/net/dynv6/hut512/plenumbot/schedule/render/DefaultScheduleRenderManager.java:47-77 | null for a null schedule; otherwise the exception if and only if one is thrown, else a new rows×columns grid whose every cell is as specified |
| ScheduleRender.DaysFailureMeaning | src/main/java/net/dynv6/hut512/plenumbot/schedule/render/DefaultScheduleRenderManager.java:63-77 | the lesson loop throws nothing if and only if every day column is present and fits |
| ScheduleRender.FirstDays | src/main/java/net/dynv6/hut512/plenumbot/schedule/render/DefaultScheduleRenderManager.java:63-64 | the first n days are exactly days 1..n, n of them |
| ScheduleRender.ContiguousDays | src/main/java/net/dynv6/hut512/plenumbot/schedule/render/DefaultScheduleRenderManager.java:63-64 | no column reads a null array if and only if the days are Monday up to the n-th day |
| ScheduleRender.GridBuildsExactly | src/main/java/net/dynv6/hut512/plenumbot/schedule/render/DefaultScheduleRenderManager.java:50-77 | the grid builds if and only if the days are contiguous from Monday, no lesson overflows, and a language is set when there are days |
| ScheduleRender.LastLessonIgnored | src/main/java/net/dynv6/hut512/plenumbot/schedule/render/DefaultScheduleRenderManager.java:65-66 | changing a day's last lesson changes neither the grid nor whether it fails |
| ScheduleRender.SameDaysFailure | src/main/java/net/dynv6/hut512/plenumbot/schedule/render/DefaultScheduleRenderManager.java:63-77 | schedules with the same days, hours and overflows fail alike |
| ScheduleRender.HourLabelRoundTrip | src/main/java/net/dynv6/hut512/plenumbot/schedule/render/DefaultScheduleRenderManager.java:59-61 | the label of row r is digits and a dot, and the digits read back as r |
| ScheduleRender.SplitAtNewline | src/main/java/net/dynv6/hut512/plenumbot/schedule/render/DefaultScheduleRenderManager.java:73 | the split is at the first line break and rebuilds the text |
| ScheduleRender.LessonTextRoundTrip | src/main/java/net/dynv6/hut512/plenumbot/schedule/render/DefaultScheduleRenderManager.java:70-74 | a cell starts with `~` if and only if the lesson has a substitute, and then splits back into subject and substitute |
| ScheduleRender.ShouldReRender | src/main/java/net/dynv6/hut512/plenumbot/schedule/render/DefaultScheduleRenderManager.java:100-102 | always true without an old schedule; the only error is NullPointerException |
| ScheduleRender.ShouldReRenderMeaning | src/main/java/net/dynv6/hut512/plenumbot/schedule/render/DefaultScheduleRenderManager.java:100-102 | true if and only if there is no old schedule or the new one is strictly newer; false for equal times and for the same schedule |
| ScheduleRender.ShouldReRenderTransitive | src/main/java/net/dynv6/hut512/plenumbot/schedule/render/DefaultScheduleRenderManager.java:100-102 | "newer than" chains |

## Left out

- I/O is not modelled: reading `mysql.properties`, the JDBC driver, the SQLite file, `DriverManager` and logging. The dialect is a parameter, and a connection is an opaque handle whose behaviour comes from the attempt script.
- Concurrency is not modelled: `synchronized`, `volatile`, `wait` and `notify`. Statements.Pool.Acquire instead requires an idle connection or budget; the source waits for one.
- Statements.Pool.WithConnection: the source retries a dead connection without bound. The model follows a finite script of attempts, and `Exhausted` means the script ran out before the source would have stopped.
- `select`, `update` and `insertGetKey` are not separate members. They pass a runnable to `withConnection`, which is the `execute` function of each attempt. The generated-keys result set is part of that function.
- Reflection is not modelled. The annotated fields are given as a sequence, and the row constructor is a function from the read values to its outcome: an object, an argument mismatch, or a constructor failure.
- Table.NewTable, Table.CreateTableSql: the order of the key groups comes from a HashMap and is not specified by Java. It is a parameter that lists every group once.
- Text.Lower: `toLowerCase` is modelled for ASCII letters only.
- GuildConfig.Store.UpdateConfig: on SQLite, the upsert `value = value` assigns the stored value to itself, so an update of an existing key keeps the old value. The model keeps that behaviour, and GuildConfig.SetExistingThenGet states it.
- A stream parameter never binds (Statements.StreamParameterUnbound). The bytes a BLOB column holds are not compared with those read back.
- Floating-point values are modelled as reals, without rounding to `float` or `double` precision. A `Timestamp` is an integer.
- The drawing part of `render` (lines 79-96 of DefaultScheduleRenderManager.java) is not modelled: the image, the font, `DefaultTable` and the "last edited" line. That part reads the `language` option again and throws without it even when the grid has no day column. This exception is not modelled.
- ScheduleRender.BuildGrid: the localised day names come from `dayName`, a parameter standing for `DayOfWeek.getDisplayName` with `TranslationService.languageToLocale`. A missing `language` option is `None`; a null `options` is not modelled.
- ScheduleRender.ScheduleInfo: a null `schoolHours` array or a null lesson map are not modelled, and neither is a null subject. Only the number of school hours is kept, and a lesson keeps only its subject and substitute.
- ScheduleRender.ShouldReRender: a `LocalDateTime` is an integer on a time line.
- GuildConfig.Store.GetConfig, GuildConfig.Store.UpdateConfig, GuildConfig.Store.DeleteConfig: each statement is assumed to run. An SQLException from the database (a broken connection, a failing prepare) is not modelled for them; connection failure and retry are modelled only in Statements.Pool.WithConnection.
- Table.NewTable: every field has a mapper. For a field type without a registered mapper, `getMapper` gives null and the source throws NullPointerException when the mapper is first used (Table.java:113 and Table.java:138); that is not modelled. A parameter of such a class does not bind (Statements.BindOne).
- Statements.Pool.TryWithConnection: `prepareStatement` always succeeds. When it throws (Statement.java:207-210) the source leaves the cache unchanged and the attempt fails; that is not modelled.
- SqlTypeMapper.Get: a cell of another kind than the getter reads is an SQLException. JDBC drivers convert some kinds (`getString` on a number gives its digits); those conversions are not modelled.
