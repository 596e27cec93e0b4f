# MySQL schema introspection for Django, modelled in Dafny

This project models the schema-introspection module of the MySQL
Connector/Python backend for Django (`build/lib/mysql/django/introspection.py`).
Django's `inspectdb` uses that module to rebuild model metadata from a live
database. The model covers:

- the table list (`get_table_list`);
- a table's column description (`get_table_description`);
- the column-name-to-position dictionary (`_name_to_index`);
- the foreign-key relations of a table (`get_relations`). The constraints come
  either from `information_schema.key_column_usage` or, when that query
  raises, from scanning the `SHOW CREATE TABLE` text with `foreign_key_re`.
  Each constraint is then resolved to column positions;
- the per-column index flags (`get_indexes`);
- the reverse type table (`DATA_TYPES_REVERSE`).

The cursor is replaced by a `Database` value. It holds:

- the `SHOW TABLES` rows;
- for each table that exists, its description, its `key_column_usage` rows,
  its `SHOW CREATE TABLE` rows and its `SHOW INDEX` rows;
- a flag saying whether the `information_schema` query works on this server.

A query about a missing table raises in the source; the model returns
`Err(QueryFault(table))`. A Python `KeyError` becomes `Err(LookupFault(key))`.

Files:

- `dicts.dfy` (module `Dicts`): a dictionary built from key/value pairs with
  the last write winning. This is Python's `dict(pairs)` and the loop form
  `d[k] = v`.
- `foreign_key_pattern.dfy` (module `ForeignKeyPattern`) contains:
  - the one fixed pattern `foreign_key_re`, as a hand-written matcher `MatchAt`;
  - `re.search` from a position (`Search`);
  - the `while True` loop that collects every match (`Scan`, `ScanDefinition`).
- `introspection.dfy` (module `Introspection`): the database value and the
  operations of the module.

The pattern's text groups are ``[^`]*``, and every literal after a group opens
with a backtick. So a group always ends at the next backtick, and the pattern
has at most one match starting at any given position. `MatchAt` reads that
match directly. `MatchAtSound` and `MatchAtComplete` prove it agrees with the
pattern's meaning (`IsMatch`): one whitespace character, then the clause text
refilled with backtick-free groups. `\s` is the ASCII whitespace set (space,
tab, newline, carriage return, vertical tab, form feed). That is what it
matches in a Python 2 byte-string pattern.

Two behaviours of the code worth noting:

- A constraint whose referenced table does not exist raises when that table
  is described (`_name_to_index` runs a query). So the model gives a
  `QueryFault` there, not a `KeyError`. Only a missing referenced column or
  a missing local column gives a `LookupFault`.
- After a match, the search resumes at `match.end()` itself, not one
  character later. A match always spans at least one character, so the scan
  still moves forward. A match overlapping an earlier one is not reported.

In `get_indexes` a later `SHOW INDEX` row overwrites the flags an earlier row
wrote for the same column. A primary-key column that a later row lists in a
non-unique index therefore ends up flagged neither primary nor unique
(`LaterIndexRowOverrides`). The model keeps this behaviour of the code.

## Model

| member | source | states |
|---|---|---|
| Dicts.DictOf | build/lib/mysql/django/introspection.py:24 | `dict(pairs)`: every key of a pair is present, and each key holds the value of the last pair with that key |
| Dicts.DictOfAppend | build/lib/mysql/django/introspection.py:60 | a proof step for the loops, not a separate model: the item assignment `d[k] = v` on the dictionary of the pairs so far gives the dictionary of those pairs plus the new one |
| Dicts.DictOfLastWins | build/lib/mysql/django/introspection.py:74 | the value a key ends with is the one written by the last pair with that key |
| ForeignKeyPattern.MatchAtSound | build/lib/mysql/django/introspection.py:7 | every match `MatchAt` reports spans whitespace followed by `CONSTRAINT` `` `name` `` `FOREIGN KEY (`` `` `a` `` ``) REFERENCES`` `` `b` `` ``(`` `` `c` `` ``)`` refilled with the captured groups, and no group holds a backtick |
| ForeignKeyPattern.MatchAtComplete | build/lib/mysql/django/introspection.py:7 | every match of the pattern is the one `MatchAt` reports at its start, with the same groups (a render/parse round trip; the match at a position is unique) |
| ForeignKeyPattern.Search | build/lib/mysql/django/introspection.py:51 | `re.search(text, pos)`: a result is a non-empty match starting at or after `pos`, no match starts between `pos` and it, and no result means no match at or after `pos` |
| ForeignKeyPattern.Scan | build/lib/mysql/django/introspection.py:48-55 | the matches the loop collects: each is a real match inside the text, they are in left-to-right order, and each starts at or after the end of the previous one (no overlap) |
| ForeignKeyPattern.ScanDefinition | build/lib/mysql/django/introspection.py:48-55 | the `while True` loop over one definition (search, stop on no match, resume at `match.end()`, keep the groups) returns exactly the groups of `Scan` from position 0 and terminates, since `pos` strictly increases |
| ForeignKeyPattern.ScanMissesNothing | build/lib/mysql/django/introspection.py:48-55 | no match is skipped: every position at or after `pos` where the pattern matches lies inside some collected match |
| ForeignKeyPattern.SearchSkips | build/lib/mysql/django/introspection.py:51 | the search from `pos` passes over a stretch where the pattern matches nowhere: it finds what the search from the stretch's end finds |
| ForeignKeyPattern.GapQuiet | build/lib/mysql/django/introspection.py:7 | no match starts inside text that does not contain ``CONSTRAINT ` `` when what follows it is the end of the text or, as at a clause, whitespace and then `C` |
| ForeignKeyPattern.ScanOfDefinition | build/lib/mysql/django/introspection.py:48-55 | a table definition whose foreign-key clauses stand among column and key lines that never contain ``CONSTRAINT ` `` scans back to exactly the clauses' constraints, one per clause, in order |
| Introspection.GetTableList | build/lib/mysql/django/introspection.py:9-12 | one name per `SHOW TABLES` row, in the server's order, each the row's first column |
| Introspection.GetTableDescription | build/lib/mysql/django/introspection.py:14-17 | the description is the table's columns when the table exists, and the query faults with the table's name exactly when it does not |
| Introspection.NameToIndex | build/lib/mysql/django/introspection.py:19-24 | the keys are exactly the column names; each name maps to a 0-based position below the column count holding that name, and no later column has that name (the later position wins) |
| Introspection.NameToIndexOf | build/lib/mysql/django/introspection.py:19-24 | `_name_to_index(cursor, table)` succeeds exactly when the table exists, with `NameToIndex` of its columns, and otherwise raises the table's query fault |
| Introspection.ResolveOne | build/lib/mysql/django/introspection.py:58-60 | one constraint resolves exactly when the referenced table exists, has the referenced column, and the local column is known. A missing referenced table raises its query fault first, then a missing referenced column its `KeyError`, then a missing local column its `KeyError`. On success the key is the local column's position, the table is the referenced table, and the index is the last position of the referenced column in it |
| Introspection.TryMapOk | build/lib/mysql/django/introspection.py:57-60 | a loop whose body may raise completes exactly when no step raises |
| Introspection.TryMapEntries | build/lib/mysql/django/introspection.py:57-60 | when the loop completes, result `i` is what step `i` returned |
| Introspection.TryMapFirstFault | build/lib/mysql/django/introspection.py:57-60 | when the loop raises, it raises the fault of the first step that raises, and every earlier step succeeded |
| Introspection.TryMapStopsAt | build/lib/mysql/django/introspection.py:57-60 | once a prefix completes and the next step raises, the loop raises that step's fault |
| Introspection.TryMapPointwise | build/lib/mysql/django/introspection.py:57-60 | two loops whose steps agree on every element give the same outcome |
| Introspection.ScanRowsConcat | build/lib/mysql/django/introspection.py:48-55 | the constraints of several `SHOW CREATE TABLE` rows are those of the first rows followed by those of the rest, in row order |
| Introspection.ScanSingleRow | build/lib/mysql/django/introspection.py:48-55 | a proof step, the one-row case of `ScanRowsConcat`: one `SHOW CREATE TABLE` row yields the constraints scanned from its definition |
| Introspection.CollectConstraints | build/lib/mysql/django/introspection.py:34-55 | the constraints collected are the `information_schema` rows whenever that query works, even when there are none, and otherwise the definitions of the `SHOW CREATE TABLE` rows scanned in row order |
| Introspection.Relations | build/lib/mysql/django/introspection.py:26-62 | a missing table raises its query fault before anything else, and a result is only returned for a table that exists |
| Introspection.GetRelations | build/lib/mysql/django/introspection.py:26-62 | the method (describe, collect, resolve in a loop writing `relations[i] = (j, t)`) returns exactly `Relations`, including which fault it raises |
| Introspection.RelationsMeaning | build/lib/mysql/django/introspection.py:57-62 | the keys of the result are exactly the local positions of the constraints' columns. Each entry `(j, t)` records the last constraint on its column: `t` is its referenced table, and `j` is the last position in `t` of its referenced column. No constraints gives an empty dictionary |
| Introspection.RelationsFailure | build/lib/mysql/django/introspection.py:57-60 | `get_relations` completes exactly when every collected constraint resolves, and otherwise raises the fault of the first constraint that does not, in `ResolveOne`'s order |
| Introspection.PrimaryPathIgnoresCreateTable | build/lib/mysql/django/introspection.py:34-47 | when the `information_schema` query works, the relations do not depend on the `SHOW CREATE TABLE` rows (or the index rows) at all |
| Introspection.FallbackAgreesWhenScanMatches | build/lib/mysql/django/introspection.py:34-55 | a proof step: when the scan of the one `SHOW CREATE TABLE` definition equals the `information_schema` rows, both paths give the same relations |
| Introspection.FallbackAgreesWithPrimary | build/lib/mysql/django/introspection.py:34-55 | the two discovery paths agree: for a definition whose foreign-key clauses stand among column and key lines that never contain ``CONSTRAINT ` ``, and `information_schema` rows that are exactly those clauses' constraints in order, the fallback gives the same relations as the primary query |
| Introspection.IndexMap | build/lib/mysql/django/introspection.py:71-75 | the keys are exactly the column names of the `SHOW INDEX` rows, and each column's flags come from the last row naming it: primary key when its key is `PRIMARY`, unique when its `Non_unique` is 0 |
| Introspection.LaterIndexRowOverrides | build/lib/mysql/django/introspection.py:73-74 | an example of `IndexMap`'s last-row rule, not a separate model: a primary-key row followed by a non-unique index row on the same column leaves the column flagged neither primary nor unique |
| Introspection.Indexes | build/lib/mysql/django/introspection.py:64-75 | `get_indexes` succeeds exactly when the table exists, with `IndexMap` of its rows, and otherwise raises the table's query fault |
| Introspection.GetIndexes | build/lib/mysql/django/introspection.py:64-75 | the loop writing `indexes[row[4]] = {...}` row by row returns exactly `Indexes` |
| Introspection.DataTypesReverseKeys | build/lib/mysql/django/introspection.py:77-96 | the table is defined on exactly the seventeen listed type codes and nowhere else, and the duplicated `STRING` key maps to `CharField` |
| Introspection.DataTypesReverseValues | build/lib/mysql/django/introspection.py:77-96 | the table's values are exactly the seven field classes `TextField`, `CharField`, `DecimalField`, `DateField`, `DateTimeField`, `FloatField`, `IntegerField` |

## Left out

- Executing SQL. The SQL text, `cursor.execute`, `fetchall` and
  `cursor.description` are replaced by the `Database` value. Faults other
  than a query on a missing table are not modelled.
- `quote_name` (line 6). It is a call into `mysql/django/base.py`, which is
  not part of this model. Table names are opaque strings.
- The seven-field DB-API descriptor. Only the column name and the type code
  are kept, because nothing here reads the other five fields.
- Why the `information_schema` query raises. A server older than MySQL 5.0
  (`ProgrammingError` or `OperationalError`) is one boolean on the database,
  `hasKeyColumnUsage`, for all tables.
- General regular-expression semantics. Only the one fixed pattern is
  modelled, as a hand-written matcher. `\s` is the ASCII whitespace set;
  Unicode whitespace is not considered.
- The `FieldType` codes are an enumeration. Their numeric driver values are
  not modelled.
- FallbackAgreesWithPrimary: stated for a table whose `SHOW CREATE TABLE`
  answer is a single row, which is what the server returns for a table, and
  for a definition whose text outside the clauses never contains
  ``CONSTRAINT ` `` (a column comment holding those words can make the scan
  report a clause that does not exist, and then the paths may disagree).
- `mysql/django/base.py` (connection handling, the driver version check,
  operators) and `setup.py` (packaging) are not part of this model.
