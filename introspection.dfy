/** Schema introspection for the MySQL backend: the table list, a table's
    column description, the column-name index, the foreign-key relations
    of a table, its index flags and the reverse type table. The cursor is
    replaced by a `Database` value that holds what each catalogue query
    returns; a query about a table the server does not have raises, which
    is the `QueryFault` of the model. */
module Introspection {
  import opened Dicts
  import opened ForeignKeyPattern

  /** Why an operation stops: a query the server refuses for a missing
      table, or a Python `KeyError` for a missing dictionary key. */
  datatype Fault = QueryFault(table: string) | LookupFault(key: string)

  datatype Result<T> = Ok(value: T) | Err(fault: Fault)

  /** The driver's MySQL column type codes. */
  datatype FieldType =
    | Decimal | Tiny | Short | Long | Float | Double | Null | Timestamp
    | LongLong | Int24 | Date | Time | DateTime | Year | NewDate | VarChar
    | Bit | NewDecimal | Enum | Set | TinyBlob | MediumBlob | LongBlob
    | Blob | VarString | String | Geometry

  /** One entry of `cursor.description`: the column's name and type code
      (the other five descriptor fields are not used here). */
  datatype Column = Column(name: string, typeCode: FieldType)

  /** A row of `SHOW TABLES`. */
  datatype TableNameRow = TableNameRow(name: string)

  /** A row of `SHOW CREATE TABLE`: the table and its definition. */
  datatype CreateTableRow = CreateTableRow(table: string, definition: string)

  /** A row of `SHOW INDEX`, columns 0 to 4: `Table`, `Non_unique`,
      `Key_name`, `Seq_in_index`, `Column_name`. */
  datatype IndexRow = IndexRow(table: string, nonUnique: int, keyName: string, seqInIndex: int, columnName: string)

  /** What the server answers about one table: its description, its rows
      in `information_schema.key_column_usage` with a referenced table and
      column, its `SHOW CREATE TABLE` rows and its `SHOW INDEX` rows. */
  datatype Table = Table(
    columns: seq<Column>,
    keyColumnUsage: seq<Constraint>,
    createTable: seq<CreateTableRow>,
    indexRows: seq<IndexRow>)

  /** The database behind the cursor. `hasKeyColumnUsage` is false for a
      server older than MySQL 5.0, where the `information_schema` query
      raises `ProgrammingError` or `OperationalError`. */
  datatype Database = Database(
    tableNames: seq<TableNameRow>,
    tables: map<string, Table>,
    hasKeyColumnUsage: bool)

  /** `get_table_list`: the first column of each `SHOW TABLES` row, in the
      server's order. */
  function GetTableList(db: Database): (names: seq<string>)
    ensures |names| == |db.tableNames|
    ensures forall i :: 0 <= i < |names| ==> names[i] == db.tableNames[i].name
  {
    seq(|db.tableNames|, i requires 0 <= i < |db.tableNames| => db.tableNames[i].name)
  }

  /** `get_table_description`: the columns of a table, or the fault of
      selecting from a table that does not exist. */
  function GetTableDescription(tables: map<string, Table>, table: string): (r: Result<seq<Column>>)
    ensures r.Ok? <==> table in tables
    ensures r.Ok? ==> r.value == tables[table].columns
    ensures r.Err? ==> r.fault == QueryFault(table)
  {
    if table in tables then Ok(tables[table].columns) else Err(QueryFault(table))
  }

  /** Each column's name paired with its 0-based position. */
  function NamePairs(columns: seq<Column>): (pairs: seq<(string, nat)>)
    ensures |pairs| == |columns|
    ensures forall i :: 0 <= i < |columns| ==> pairs[i] == (columns[i].name, i)
  {
    seq(|columns|, i requires 0 <= i < |columns| => (columns[i].name, i as nat))
  }

  /** `k` is the last position of a column named `n`. */
  predicate LastPosition(columns: seq<Column>, n: string, k: nat)
  {
    k < |columns| && columns[k].name == n &&
    forall j :: k < j < |columns| ==> columns[j].name != n
  }

  /** Some column is named `n`. */
  predicate HasColumn(columns: seq<Column>, n: string)
  {
    exists k :: 0 <= k < |columns| && columns[k].name == n
  }

  /** The dictionary `_name_to_index` builds from a description: its keys
      are exactly the column names, and each maps to the last position
      holding that name. */
  function NameToIndex(columns: seq<Column>): (m: map<string, nat>)
    ensures forall i :: 0 <= i < |columns| ==> columns[i].name in m
    ensures forall n :: n in m <==> HasColumn(columns, n)
    ensures forall n :: n in m ==> LastPosition(columns, n, m[n])
  {
    NamePairsLast(columns, DictOf(NamePairs(columns)));
    DictOf(NamePairs(columns))
  }

  lemma NamePairsLast(columns: seq<Column>, m: map<string, nat>)
    requires m == DictOf(NamePairs(columns))
    ensures forall i :: 0 <= i < |columns| ==> columns[i].name in m
    ensures forall n :: n in m <==> HasColumn(columns, n)
    ensures forall n :: n in m ==> LastPosition(columns, n, m[n])
  {
    var pairs := NamePairs(columns);
    forall i | 0 <= i < |columns| ensures columns[i].name in m {
      assert pairs[i].0 == columns[i].name;
    }
    forall n | n in m
      ensures LastPosition(columns, n, m[n])
    {
      var i :| IsLastFor(pairs, n, i) && m[n] == pairs[i].1;
      assert pairs[i] == (columns[i].name, i);
      forall j | i < j < |columns| ensures columns[j].name != n {
        assert pairs[j] == (columns[j].name, j);
      }
    }
  }

  /** `_name_to_index(cursor, table)`. */
  function NameToIndexOf(tables: map<string, Table>, table: string): (r: Result<map<string, nat>>)
    ensures r.Ok? <==> table in tables
    ensures r.Ok? ==> r.value == NameToIndex(tables[table].columns)
    ensures r.Err? ==> r.fault == QueryFault(table)
  {
    match GetTableDescription(tables, table)
    case Err(f) => Err(f)
    case Ok(columns) => Ok(NameToIndex(columns))
  }

  /** A relation: the referenced column's index and the referenced table. */
  type Relation = (nat, string)

  /** `c` can be resolved: the referenced table exists and has the
      referenced column, and the local column is in `myFields`. */
  predicate Resolvable(tables: map<string, Table>, myFields: map<string, nat>, c: Constraint)
  {
    c.refTable in tables && HasColumn(tables[c.refTable].columns, c.refColumn) &&
    c.column in myFields
  }

  /** One step of the resolution loop of `get_relations`: the referenced
      table is described first, then the referenced column and then the
      local column are looked up; the first of these that fails decides
      the fault. */
  function ResolveOne(tables: map<string, Table>, myFields: map<string, nat>, c: Constraint): (r: Result<(nat, Relation)>)
    ensures r.Ok? <==> Resolvable(tables, myFields, c)
    ensures c.refTable !in tables ==> r == Err(QueryFault(c.refTable))
    ensures c.refTable in tables && !HasColumn(tables[c.refTable].columns, c.refColumn) ==>
      r == Err(LookupFault(c.refColumn))
    ensures (c.refTable in tables && HasColumn(tables[c.refTable].columns, c.refColumn) &&
      c.column !in myFields) ==> r == Err(LookupFault(c.column))
    ensures r.Ok? ==> (r.value.0 == myFields[c.column] && r.value.1.1 == c.refTable &&
      LastPosition(tables[c.refTable].columns, c.refColumn, r.value.1.0))
  {
    match NameToIndexOf(tables, c.refTable)
    case Err(f) => Err(f)
    case Ok(other) =>
      if c.refColumn !in other then Err(LookupFault(c.refColumn))
      else if c.column !in myFields then Err(LookupFault(c.column))
      else Ok((myFields[c.column], (other[c.refColumn], c.refTable)))
  }

  /** `f` applied to each element in order, stopping at the first
      fault: a Python loop whose body may raise. */
  function TryMap<A, B>(f: A -> Result<B>, xs: seq<A>): (r: Result<seq<B>>)
    ensures r.Ok? ==> |r.value| == |xs|
  {
    if xs == [] then Ok([])
    else
      match TryMap(f, xs[..|xs| - 1])
      case Err(e) => Err(e)
      case Ok(ys) =>
        match f(xs[|xs| - 1])
        case Err(e) => Err(e)
        case Ok(y) => Ok(ys + [y])
  }

  /** The loop completes exactly when no step raises. */
  lemma {:induction false} TryMapOk<A, B>(f: A -> Result<B>, xs: seq<A>)
    ensures TryMap(f, xs).Ok? <==> forall i :: 0 <= i < |xs| ==> f(xs[i]).Ok?
  {
    if xs != [] {
      var init := xs[..|xs| - 1];
      TryMapOk(f, init);
      assert forall i :: 0 <= i < |init| ==> xs[i] == init[i];
    }
  }

  /** When the loop completes, result `i` is what step `i` returned. */
  lemma {:induction false} TryMapEntries<A, B>(f: A -> Result<B>, xs: seq<A>)
    requires TryMap(f, xs).Ok?
    ensures forall i :: 0 <= i < |xs| ==> f(xs[i]) == Ok(TryMap(f, xs).value[i])
  {
    if xs != [] {
      var init := xs[..|xs| - 1];
      TryMapEntries(f, init);
      var ys := TryMap(f, init).value;
      var r := TryMap(f, xs).value;
      assert forall i :: 0 <= i < |init| ==> xs[i] == init[i] && r[i] == ys[i];
    }
  }

  /** When the loop raises, it raises the fault of the first step that
      does. */
  lemma {:induction false} TryMapFirstFault<A, B>(f: A -> Result<B>, xs: seq<A>)
    requires TryMap(f, xs).Err?
    ensures exists i :: (0 <= i < |xs| && f(xs[i]) == Err(TryMap(f, xs).fault) &&
      forall j :: 0 <= j < i ==> f(xs[j]).Ok?)
  {
    var init := xs[..|xs| - 1];
    assert forall i :: 0 <= i < |init| ==> xs[i] == init[i];
    if TryMap(f, init).Err? {
      TryMapFirstFault(f, init);
      var i :| 0 <= i < |init| && f(init[i]) == Err(TryMap(f, init).fault) &&
        (forall j :: 0 <= j < i ==> f(init[j]).Ok?);
      assert f(xs[i]) == Err(TryMap(f, xs).fault);
    } else {
      TryMapOk(f, init);
      assert f(xs[|xs| - 1]) == Err(TryMap(f, xs).fault);
    }
  }

  /** Once a prefix completes and the next step raises, the whole loop
      raises that step's fault. */
  lemma {:induction false} TryMapStopsAt<A, B>(f: A -> Result<B>, xs: seq<A>, k: nat)
    requires k < |xs| && TryMap(f, xs[..k]).Ok? && f(xs[k]).Err?
    ensures TryMap(f, xs) == Err(f(xs[k]).fault)
    decreases |xs|
  {
    var init := xs[..|xs| - 1];
    if k < |init| {
      assert init[..k] == xs[..k] && init[k] == xs[k];
      TryMapStopsAt(f, init, k);
    } else {
      assert init == xs[..k];
    }
  }

  /** One more completed step appends its result. */
  lemma TryMapAppend<A, B>(f: A -> Result<B>, xs: seq<A>, k: nat, ys: seq<B>, y: B)
    requires k < |xs| && TryMap(f, xs[..k]) == Ok(ys) && f(xs[k]) == Ok(y)
    ensures TryMap(f, xs[..k + 1]) == Ok(ys + [y])
  {
    assert xs[..k + 1][..k] == xs[..k];
  }

  /** `ResolveOne` as the step of the resolution loop. */
  function Resolver(tables: map<string, Table>, myFields: map<string, nat>): Constraint -> Result<(nat, Relation)>
  {
    c => ResolveOne(tables, myFields, c)
  }

  /** The concatenation of `f` applied to each element in order. */
  function ConcatMap<A, B>(f: A -> seq<B>, xs: seq<A>): seq<B>
  {
    if xs == [] then [] else ConcatMap(f, xs[..|xs| - 1]) + f(xs[|xs| - 1])
  }

  /** Two row sets are processed as the first, then the second. */
  lemma {:induction false} ConcatMapConcat<A, B>(f: A -> seq<B>, a: seq<A>, b: seq<A>)
    ensures ConcatMap(f, a + b) == ConcatMap(f, a) + ConcatMap(f, b)
    decreases |b|
  {
    if b == [] {
      assert a + b == a;
    } else {
      var init := b[..|b| - 1];
      assert (a + b)[..|a + b| - 1] == a + init;
      ConcatMapConcat(f, a, init);
    }
  }

  /** The constraints a `SHOW CREATE TABLE` row declares. */
  function RowForeignKeys(row: CreateTableRow): seq<Constraint>
  {
    ForeignKeysIn(row.definition)
  }

  /** The constraints the `SHOW CREATE TABLE` rows declare: each row's
      definition scanned in turn, appended in row order. */
  function ScanRows(rows: seq<CreateTableRow>): seq<Constraint>
  {
    ConcatMap(RowForeignKeys, rows)
  }

  /** The results of several rows are appended in row order. */
  lemma ScanRowsConcat(a: seq<CreateTableRow>, b: seq<CreateTableRow>)
    ensures ScanRows(a + b) == ScanRows(a) + ScanRows(b)
  {
    ConcatMapConcat(RowForeignKeys, a, b);
  }

  /** The constraints `get_relations` collects: the `information_schema`
      rows when the server has them (even none), the scanned definitions
      otherwise. */
  function DiscoveredConstraints(db: Database, table: string): seq<Constraint>
    requires table in db.tables
  {
    if db.hasKeyColumnUsage then db.tables[table].keyColumnUsage
    else ScanRows(db.tables[table].createTable)
  }

  /** What `get_relations` returns or raises. Describing the table itself
      comes first, so a missing table raises before any constraint is
      read. */
  function Relations(db: Database, table: string): (r: Result<map<nat, Relation>>)
    ensures table !in db.tables ==> r == Err(QueryFault(table))
    ensures r.Ok? ==> table in db.tables
  {
    match NameToIndexOf(db.tables, table)
    case Err(f) => Err(f)
    case Ok(myFields) =>
      match TryMap(Resolver(db.tables, myFields), DiscoveredConstraints(db, table))
      case Err(f) => Err(f)
      case Ok(ps) => Ok(DictOf(ps))
  }

  /** Lines 32-55 of `get_relations`: the constraints of `table`, from
      `information_schema` or, when that query raises, from the
      `SHOW CREATE TABLE` rows. */
  method CollectConstraints(db: Database, table: string) returns (constraints: seq<Constraint>)
    requires table in db.tables
    ensures constraints == DiscoveredConstraints(db, table)
  {
    constraints := [];
    if db.hasKeyColumnUsage {
      constraints := constraints + db.tables[table].keyColumnUsage;
    } else {
      var rows := db.tables[table].createTable;
      for i := 0 to |rows|
        invariant constraints == ScanRows(rows[..i])
      {
        var found := ScanDefinition(ForeignKeyRe, rows[i].definition);
        assert rows[..i + 1][..i] == rows[..i];
        constraints := constraints + found;
      }
      assert rows[..|rows|] == rows;
    }
  }

  /** `get_relations`: the constraints are collected, then each one is
      resolved and written into the dictionary. */
  method GetRelations(db: Database, table: string) returns (r: Result<map<nat, Relation>>)
    ensures r == Relations(db, table)
  {
    var described := NameToIndexOf(db.tables, table);
    if described.Err? {
      return Err(described.fault);
    }
    var myFieldDict := described.value;
    var constraints := CollectConstraints(db, table);
    var relations: map<nat, Relation> := map[];
    ghost var resolve := Resolver(db.tables, myFieldDict);
    ghost var resolved: seq<(nat, Relation)> := [];
    for k := 0 to |constraints|
      invariant TryMap(resolve, constraints[..k]) == Ok(resolved)
      invariant relations == DictOf(resolved)
    {
      var c := constraints[k];
      var other := NameToIndexOf(db.tables, c.refTable);
      if other.Err? {
        TryMapStopsAt(resolve, constraints, k);
        return Err(other.fault);
      }
      if c.refColumn !in other.value {
        TryMapStopsAt(resolve, constraints, k);
        return Err(LookupFault(c.refColumn));
      }
      var otherFieldIndex := other.value[c.refColumn];
      if c.column !in myFieldDict {
        TryMapStopsAt(resolve, constraints, k);
        return Err(LookupFault(c.column));
      }
      var myFieldIndex := myFieldDict[c.column];
      ghost var entry := (myFieldIndex, (otherFieldIndex, c.refTable));
      TryMapAppend(resolve, constraints, k, resolved, entry);
      DictOfAppend(resolved, entry);
      relations := relations[myFieldIndex := (otherFieldIndex, c.refTable)];
      resolved := resolved + [entry];
    }
    assert constraints[..|constraints|] == constraints;
    return Ok(relations);
  }

  /** Key `k` and value `rel` of the relations of `table` record
      constraint `c`: `k` is the last position of the local column, and
      `rel` names the referenced table and the last position of the
      referenced column in it. */
  predicate Links(tables: map<string, Table>, table: string, k: nat, rel: Relation, c: Constraint)
    requires table in tables
  {
    LastPosition(tables[table].columns, c.column, k) && rel.1 == c.refTable &&
    c.refTable in tables && LastPosition(tables[c.refTable].columns, c.refColumn, rel.0)
  }

  /** A name has at most one last position. */
  lemma LastPositionUnique(columns: seq<Column>, n: string, k1: nat, k2: nat)
    requires LastPosition(columns, n, k1) && LastPosition(columns, n, k2)
    ensures k1 == k2
  {
  }

  /** Every constraint's local column, at its last position, is a key of
      `rel`. */
  predicate KeysCover(tables: map<string, Table>, table: string, cs: seq<Constraint>, rel: map<nat, Relation>)
    requires table in tables
  {
    forall i :: 0 <= i < |cs| ==>
      exists k :: k in rel && LastPosition(tables[table].columns, cs[i].column, k)
  }

  /** Every entry of `rel` records the last constraint in `cs` on its
      local column. */
  predicate EntriesRecordLast(tables: map<string, Table>, table: string, cs: seq<Constraint>, rel: map<nat, Relation>)
    requires table in tables
  {
    forall k :: k in rel ==>
      exists i :: 0 <= i < |cs| && Links(tables, table, k, rel[k], cs[i]) &&
        (forall j :: i < j < |cs| ==> cs[j].column != cs[i].column)
  }

  /** Pair `i` of `ps` records constraint `i` of `cs`. */
  predicate PairsLink(tables: map<string, Table>, table: string, cs: seq<Constraint>, ps: seq<(nat, Relation)>)
    requires table in tables
  {
    |ps| == |cs| && forall i :: 0 <= i < |cs| ==> Links(tables, table, ps[i].0, ps[i].1, cs[i])
  }

  /** The dictionary the resolution loop builds has a key for every
      constraint. */
  lemma ResolvedDictKeys(tables: map<string, Table>, table: string, cs: seq<Constraint>,
                         ps: seq<(nat, Relation)>, rel: map<nat, Relation>)
    requires table in tables && rel == DictOf(ps) && PairsLink(tables, table, cs, ps)
    ensures KeysCover(tables, table, cs, rel)
  {
    forall i | 0 <= i < |cs|
      ensures exists k :: k in rel && LastPosition(tables[table].columns, cs[i].column, k)
    {
      assert ps[i].0 in rel;
    }
  }

  /** Each entry of the dictionary the resolution loop builds records the
      last constraint on its column. */
  lemma ResolvedDictEntries(tables: map<string, Table>, table: string, cs: seq<Constraint>,
                            ps: seq<(nat, Relation)>, rel: map<nat, Relation>)
    requires table in tables && rel == DictOf(ps) && PairsLink(tables, table, cs, ps)
    ensures EntriesRecordLast(tables, table, cs, rel)
  {
    forall k | k in rel
      ensures exists i :: (0 <= i < |cs| && Links(tables, table, k, rel[k], cs[i]) &&
        (forall j :: i < j < |cs| ==> cs[j].column != cs[i].column))
    {
      var i :| IsLastFor(ps, k, i) && rel[k] == ps[i].1;
      forall j | i < j < |cs| ensures cs[j].column != cs[i].column {
        if cs[j].column == cs[i].column {
          LastPositionUnique(tables[table].columns, cs[i].column, ps[i].0, ps[j].0);
        }
      }
    }
  }

  /** When the resolution loop completes, pair `i` records constraint `i`. */
  lemma ResolvedLinks(db: Database, table: string, cs: seq<Constraint>, ps: seq<(nat, Relation)>)
    requires table in db.tables
    requires TryMap(Resolver(db.tables, NameToIndex(db.tables[table].columns)), cs) == Ok(ps)
    ensures PairsLink(db.tables, table, cs, ps)
  {
    var myFields := NameToIndex(db.tables[table].columns);
    var f := Resolver(db.tables, myFields);
    TryMapEntries(f, cs);
    forall i | 0 <= i < |cs| ensures Links(db.tables, table, ps[i].0, ps[i].1, cs[i]) {
      assert f(cs[i]) == Ok(ps[i]);
    }
  }

  /** The dictionary `get_relations` returns has a key for every
      constraint's local column, and each entry records the last
      constraint on that column. */
  lemma RelationsMeaning(db: Database, table: string, cs: seq<Constraint>, rel: map<nat, Relation>)
    requires table in db.tables && cs == DiscoveredConstraints(db, table)
    requires Relations(db, table) == Ok(rel)
    ensures KeysCover(db.tables, table, cs, rel)
    ensures EntriesRecordLast(db.tables, table, cs, rel)
    ensures cs == [] ==> rel == map[]
  {
    var myFields := NameToIndex(db.tables[table].columns);
    assert NameToIndexOf(db.tables, table) == Ok(myFields);
    var ps := TryMap(Resolver(db.tables, myFields), cs).value;
    assert rel == DictOf(ps);
    ResolvedLinks(db, table, cs, ps);
    ResolvedDictKeys(db.tables, table, cs, ps, rel);
    ResolvedDictEntries(db.tables, table, cs, ps, rel);
    if cs == [] {
      assert rel.Keys == {};
    }
  }

  /** `get_relations` completes exactly when every constraint resolves;
      otherwise it raises the fault of the first constraint that does
      not. */
  lemma RelationsFailure(db: Database, table: string, cs: seq<Constraint>, myFields: map<string, nat>)
    requires table in db.tables && cs == DiscoveredConstraints(db, table)
    requires myFields == NameToIndex(db.tables[table].columns)
    ensures Relations(db, table).Ok? <==> forall i :: 0 <= i < |cs| ==> Resolvable(db.tables, myFields, cs[i])
    ensures Relations(db, table).Err? ==>
      exists i :: 0 <= i < |cs| && !Resolvable(db.tables, myFields, cs[i]) &&
        Err(Relations(db, table).fault) == ResolveOne(db.tables, myFields, cs[i]) &&
        (forall j :: 0 <= j < i ==> Resolvable(db.tables, myFields, cs[j]))
  {
    var f := Resolver(db.tables, myFields);
    assert NameToIndexOf(db.tables, table) == Ok(myFields);
    assert forall c :: f(c) == ResolveOne(db.tables, myFields, c);
    TryMapOk(f, cs);
    if TryMap(f, cs).Err? {
      TryMapFirstFault(f, cs);
    }
  }

  /** Steps that agree on every element give the same loop. */
  lemma {:induction false} TryMapPointwise<A, B>(f: A -> Result<B>, g: A -> Result<B>, xs: seq<A>)
    requires forall i :: 0 <= i < |xs| ==> f(xs[i]) == g(xs[i])
    ensures TryMap(f, xs) == TryMap(g, xs)
  {
    if xs != [] {
      var init := xs[..|xs| - 1];
      assert forall i :: 0 <= i < |init| ==> init[i] == xs[i];
      TryMapPointwise(f, g, init);
    }
  }

  /** `db2` differs from `db` at most in the `SHOW CREATE TABLE` rows and
      the `SHOW INDEX` rows. */
  predicate SameRelationSources(db: Database, db2: Database)
  {
    db.hasKeyColumnUsage == db2.hasKeyColumnUsage &&
    db.tables.Keys == db2.tables.Keys &&
    forall t :: t in db.tables ==>
      db.tables[t].columns == db2.tables[t].columns &&
      db.tables[t].keyColumnUsage == db2.tables[t].keyColumnUsage
  }

  /** When `information_schema` answers, `SHOW CREATE TABLE` is never
      consulted: the relations do not depend on it. */
  lemma PrimaryPathIgnoresCreateTable(db: Database, db2: Database, table: string)
    requires db.hasKeyColumnUsage && SameRelationSources(db, db2)
    ensures Relations(db, table) == Relations(db2, table)
  {
    if table in db.tables {
      var myFields := NameToIndex(db.tables[table].columns);
      assert NameToIndexOf(db.tables, table) == Ok(myFields);
      assert NameToIndexOf(db2.tables, table) == Ok(myFields);
      var cs := DiscoveredConstraints(db, table);
      assert cs == DiscoveredConstraints(db2, table);
      forall i | 0 <= i < |cs|
        ensures Resolver(db.tables, myFields)(cs[i]) == Resolver(db2.tables, myFields)(cs[i])
      {
        var c := cs[i];
        if c.refTable in db.tables {
          assert NameToIndexOf(db.tables, c.refTable) == NameToIndexOf(db2.tables, c.refTable);
        }
      }
      TryMapPointwise(Resolver(db.tables, myFields), Resolver(db2.tables, myFields), cs);
    } else {
      assert table !in db2.tables;
    }
  }

  /** A single `SHOW CREATE TABLE` row yields the constraints its
      definition declares. */
  lemma ScanSingleRow(row: CreateTableRow)
    ensures ScanRows([row]) == ForeignKeysIn(row.definition)
  {
    assert [row][..0] == [];
    assert ConcatMap(RowForeignKeys, [row]) == ConcatMap(RowForeignKeys, []) + RowForeignKeys(row);
  }

  /** When scanning the definition `SHOW CREATE TABLE` returns finds
      exactly the constraints `information_schema` lists, the fallback
      and the primary query give the same relations. */
  lemma FallbackAgreesWhenScanMatches(db: Database, table: string, definition: string)
    requires table in db.tables && !db.hasKeyColumnUsage
    requires db.tables[table].createTable == [CreateTableRow(table, definition)]
    requires ForeignKeysIn(definition) == db.tables[table].keyColumnUsage
    ensures Relations(db, table) == Relations(db.(hasKeyColumnUsage := true), table)
  {
    ScanSingleRow(CreateTableRow(table, definition));
    var myFields := NameToIndex(db.tables[table].columns);
    var primary := db.(hasKeyColumnUsage := true);
    assert NameToIndexOf(primary.tables, table) == Ok(myFields) == NameToIndexOf(db.tables, table);
    assert DiscoveredConstraints(primary, table) == DiscoveredConstraints(db, table);
  }

  /** The two discovery paths agree: when the table's definition holds
      foreign-key clauses among column and key lines that never say
      `CONSTRAINT` followed by a space and a backtick, and
      `information_schema` lists exactly those clauses' constraints in
      the same order, the fallback scan gives the same relations as the
      primary query. */
  lemma FallbackAgreesWithPrimary(db: Database, table: string, ks: seq<ForeignKeyClause>, tail: string)
    requires table in db.tables && !db.hasKeyColumnUsage
    requires db.tables[table].createTable == [CreateTableRow(table, DefinitionText(ks, tail))]
    requires AllPrintable(ks) && PlainGaps(ks, tail)
    requires Declared(db.tables[table].keyColumnUsage, ks)
    ensures Relations(db, table) == Relations(db.(hasKeyColumnUsage := true), table)
  {
    var definition := DefinitionText(ks, tail);
    ScanOfDefinition(definition, ks, tail);
    DeclaredUnique(ForeignKeysIn(definition), db.tables[table].keyColumnUsage, ks);
    FallbackAgreesWhenScanMatches(db, table, definition);
  }

  /** The flags `get_indexes` records for a column. */
  datatype IndexInfo = IndexInfo(primaryKey: bool, unique: bool)

  /** The flags one `SHOW INDEX` row gives its column: a primary key when
      the key is named `PRIMARY`, unique when `Non_unique` is 0. */
  function InfoOf(row: IndexRow): IndexInfo
  {
    IndexInfo(row.keyName == "PRIMARY", row.nonUnique == 0)
  }

  /** The entry one `SHOW INDEX` row writes. */
  function IndexEntry(row: IndexRow): (string, IndexInfo)
  {
    (row.columnName, InfoOf(row))
  }

  function IndexPairs(rows: seq<IndexRow>): (pairs: seq<(string, IndexInfo)>)
    ensures |pairs| == |rows|
    ensures forall i :: 0 <= i < |rows| ==> pairs[i] == IndexEntry(rows[i])
  {
    seq(|rows|, i requires 0 <= i < |rows| => IndexEntry(rows[i]))
  }

  /** One more row appends its entry. */
  lemma IndexPairsAppend(rows: seq<IndexRow>, i: nat)
    requires i < |rows|
    ensures IndexPairs(rows[..i + 1]) == IndexPairs(rows[..i]) + [IndexEntry(rows[i])]
  {
  }

  /** Row `i` is the last `SHOW INDEX` row naming column `n`. */
  predicate LastIndexRow(rows: seq<IndexRow>, n: string, i: int)
  {
    0 <= i < |rows| && rows[i].columnName == n &&
    forall j :: i < j < |rows| ==> rows[j].columnName != n
  }

  /** The dictionary `get_indexes` builds: a key for every indexed
      column, whose flags are those of the last row naming it. */
  function IndexMap(rows: seq<IndexRow>): (m: map<string, IndexInfo>)
    ensures forall i :: 0 <= i < |rows| ==> rows[i].columnName in m
    ensures forall n :: n in m ==> exists i :: LastIndexRow(rows, n, i) && m[n] == InfoOf(rows[i])
  {
    IndexPairsLast(rows, DictOf(IndexPairs(rows)));
    DictOf(IndexPairs(rows))
  }

  lemma IndexPairsLast(rows: seq<IndexRow>, m: map<string, IndexInfo>)
    requires m == DictOf(IndexPairs(rows))
    ensures forall i :: 0 <= i < |rows| ==> rows[i].columnName in m
    ensures forall n :: n in m ==> exists i :: LastIndexRow(rows, n, i) && m[n] == InfoOf(rows[i])
  {
    var pairs := IndexPairs(rows);
    forall i | 0 <= i < |rows| ensures rows[i].columnName in m {
      assert pairs[i].0 == rows[i].columnName;
    }
    forall n | n in m
      ensures exists i :: LastIndexRow(rows, n, i) && m[n] == InfoOf(rows[i])
    {
      var i :| IsLastFor(pairs, n, i) && m[n] == pairs[i].1;
      forall j | i < j < |rows| ensures rows[j].columnName != n {
        assert pairs[j] == IndexEntry(rows[j]);
      }
      assert LastIndexRow(rows, n, i);
    }
  }

  /** A column in the primary key that a later row lists in a second,
      non-unique index ends up flagged as neither primary nor unique: the
      later row overwrites the entry. */
  lemma LaterIndexRowOverrides(table: string, column: string, other: string)
    requires other != "PRIMARY"
    ensures IndexMap([IndexRow(table, 0, "PRIMARY", 1, column), IndexRow(table, 1, other, 1, column)])[column] ==
      IndexInfo(false, false)
  {
    var rows := [IndexRow(table, 0, "PRIMARY", 1, column), IndexRow(table, 1, other, 1, column)];
    var i :| LastIndexRow(rows, column, i) && IndexMap(rows)[column] == InfoOf(rows[i]);
    assert rows[1].columnName == column;
  }

  /** What `get_indexes` returns or raises. */
  function Indexes(db: Database, table: string): (r: Result<map<string, IndexInfo>>)
    ensures r.Ok? <==> table in db.tables
    ensures r.Err? ==> r.fault == QueryFault(table)
    ensures r.Ok? ==> r.value == IndexMap(db.tables[table].indexRows)
  {
    if table in db.tables then Ok(IndexMap(db.tables[table].indexRows))
    else Err(QueryFault(table))
  }

  /** `get_indexes`: each `SHOW INDEX` row overwrites the entry of its
      column. */
  method GetIndexes(db: Database, table: string) returns (r: Result<map<string, IndexInfo>>)
    ensures r == Indexes(db, table)
  {
    if table !in db.tables {
      return Err(QueryFault(table));
    }
    var rows := db.tables[table].indexRows;
    var indexes: map<string, IndexInfo> := map[];
    for i := 0 to |rows|
      invariant indexes == DictOf(IndexPairs(rows[..i]))
    {
      IndexPairsAppend(rows, i);
      DictOfAppend(IndexPairs(rows[..i]), IndexEntry(rows[i]));
      indexes := indexes[rows[i].columnName := InfoOf(rows[i])];
    }
    assert rows[..|rows|] == rows;
    return Ok(indexes);
  }

  /** `DATA_TYPES_REVERSE`: the Django field class for a MySQL type code.
      The source lists `STRING` twice with the same class. */
  const DataTypesReverse: map<FieldType, string> := map[
    Blob := "TextField",
    String := "CharField",
    Decimal := "DecimalField",
    Date := "DateField",
    DateTime := "DateTimeField",
    Double := "FloatField",
    Float := "FloatField",
    Int24 := "IntegerField",
    Long := "IntegerField",
    LongLong := "IntegerField",
    Short := "IntegerField",
    String := "CharField",
    Timestamp := "DateTimeField",
    Tiny := "IntegerField",
    TinyBlob := "TextField",
    MediumBlob := "TextField",
    LongBlob := "TextField",
    VarString := "CharField"]

  /** The table covers exactly seventeen type codes. */
  lemma DataTypesReverseKeys()
    ensures DataTypesReverse.Keys == {
      Blob, String, Decimal, Date, DateTime, Double, Float, Int24, Long,
      LongLong, Short, Timestamp, Tiny, TinyBlob, MediumBlob, LongBlob, VarString}
    ensures DataTypesReverse[String] == "CharField"
  {
  }

  /** The table maps onto seven field classes. */
  lemma DataTypesReverseValues()
    ensures DataTypesReverse.Values == {
      "TextField", "CharField", "DecimalField", "DateField", "DateTimeField",
      "FloatField", "IntegerField"}
  {
    var classes := {
      "TextField", "CharField", "DecimalField", "DateField", "DateTimeField",
      "FloatField", "IntegerField"};
    forall v | v in DataTypesReverse.Values ensures v in classes {
      var t :| t in DataTypesReverse && DataTypesReverse[t] == v;
    }
    assert DataTypesReverse[Blob] == "TextField" && DataTypesReverse[String] == "CharField";
    assert DataTypesReverse[Decimal] == "DecimalField" && DataTypesReverse[Date] == "DateField";
    assert DataTypesReverse[DateTime] == "DateTimeField" && DataTypesReverse[Float] == "FloatField";
    assert DataTypesReverse[Long] == "IntegerField";
  }
}
