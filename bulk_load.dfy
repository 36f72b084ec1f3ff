/**
  Pipeline B: loading the chunk files into a database table described by a
  schema document.

  The dataset name is the first key of the schema document and names the
  table; its value lists the columns in order. Loading drops and creates the
  table, truncates it, issues one bulk LOAD per matching file of the output
  directory, adds up the row counts the database reports, fails when that
  total is zero and otherwise commits once.

  The database is a statement log plus a committed flag. Two oracles stand
  for the server: `fails(s)` says whether executing statement `s` raises a
  database error, and `rowCount(path)` is the row count a successful LOAD
  of `path` reports.
*/
module BulkLoad {
  import opened Wrappers
  import opened Text
  import opened Paths
  import SplitChunk

  // ---------------------------------------------------------------------
  // Schema
  // ---------------------------------------------------------------------

  datatype Column = Column(name: string, sqlType: string)

  /** A table's columns, in the order of the schema document. */
  type Schema = seq<Column>

  datatype Entry = Entry(key: string, columns: Schema)

  predicate DistinctKeys(entries: seq<Entry>) {
    forall i, j | 0 <= i < j < |entries| :: entries[i].key != entries[j].key
  }

  /** A parsed schema document: a mapping, so its keys are distinct, kept in document order. */
  type SchemaDocument = d: seq<Entry> | DistinctKeys(d)

  datatype LoadError =
    | EmptySchemaDocument          // the document has no first key
    | SchemaNotFound(name: string) // the table name is not a key of the document
    | DatabaseError(statement: Statement)
    | NoDataImported

  /** `Config.get_dataset_name`: the first key of the document; an empty document has none. */
  function GetDatasetName(doc: SchemaDocument): (r: Result<string, LoadError>)
    ensures r.Ok? <==> |doc| > 0
    ensures r.Ok? ==> exists i :: 0 <= i < |doc| && doc[i].key == r.value
    ensures r.Err? ==> r.error == EmptySchemaDocument
  {
    if |doc| == 0 then Err(EmptySchemaDocument) else Ok(doc[0].key)
  }

  /** `schema[name]`: the columns stored under `name`. */
  function SchemaFor(doc: SchemaDocument, name: string): (r: Result<Schema, LoadError>)
    ensures r.Ok? <==> exists i :: 0 <= i < |doc| && doc[i].key == name
    ensures r.Ok? ==> exists i :: 0 <= i < |doc| && doc[i].key == name && doc[i].columns == r.value
    ensures r.Err? ==> r.error == SchemaNotFound(name)
    decreases |doc|
  {
    if |doc| == 0 then Err(SchemaNotFound(name))
    else if doc[0].key == name then Ok(doc[0].columns)
    else SchemaFor(doc[1..], name)
  }

  /**
    The dataset name always finds its schema: the columns of the first
    entry, which no later entry can shadow.
  */
  lemma DatasetSchema(doc: SchemaDocument)
    requires |doc| > 0
    ensures GetDatasetName(doc) == Ok(doc[0].key)
    ensures SchemaFor(doc, GetDatasetName(doc).value) == Ok(doc[0].columns)
  {
  }

  /** One entry of the CREATE column clause. */
  function ColumnDefinition(c: Column): string {
    c.name + " " + c.sqlType + " NOT NULL"
  }

  function ColumnDefinitions(schema: Schema): (r: seq<string>)
    ensures |r| == |schema|
  {
    seq(|schema|, i requires 0 <= i < |schema| => ColumnDefinition(schema[i]))
  }

  function ColumnNames(schema: Schema): (r: seq<string>)
    ensures |r| == |schema|
  {
    seq(|schema|, i requires 0 <= i < |schema| => schema[i].name)
  }

  /** The column clause of CREATE TABLE: `name type NOT NULL` per column, joined by `, `. */
  function ColumnClause(schema: Schema): string {
    JoinWith(", ", ColumnDefinitions(schema))
  }

  /** The column list of LOAD DATA: the schema's column names joined by `, `. */
  function LoadColumnList(schema: Schema): string {
    JoinWith(", ", ColumnNames(schema))
  }

  /**
    The column clause holds exactly one definition per column, in schema
    order: splitting it at `, ` gives the definitions back, provided no
    definition itself contains `, `.
  */
  lemma ColumnClauseSplits(schema: Schema)
    requires |schema| > 0
    requires forall i | 0 <= i < |schema| :: FreeOf(ColumnDefinition(schema[i]), ", ")
    ensures Split(ColumnClause(schema), ", ") == ColumnDefinitions(schema)
  {
    SplitJoin(ColumnDefinitions(schema), ", ");
  }

  /**
    The LOAD column list names the columns in the order the CREATE clause
    defines them: its i-th piece is the name that starts the clause's i-th
    definition.
  */
  lemma LoadColumnsMatchCreate(schema: Schema)
    requires |schema| > 0
    requires forall i | 0 <= i < |schema| :: FreeOf(ColumnDefinition(schema[i]), ", ")
    requires forall i | 0 <= i < |schema| :: FreeOf(schema[i].name, ", ")
    ensures var names := Split(LoadColumnList(schema), ", ");
            var defs := Split(ColumnClause(schema), ", ");
            |names| == |defs| == |schema|
            && forall i | 0 <= i < |schema| :: IsPrefix(names[i] + " ", defs[i])
  {
    ColumnClauseSplits(schema);
    SplitJoin(ColumnNames(schema), ", ");
    var defs := ColumnDefinitions(schema);
    forall i | 0 <= i < |schema|
      ensures IsPrefix(ColumnNames(schema)[i] + " ", defs[i])
    {
      var prefix := schema[i].name + " ";
      assert defs[i] == prefix + schema[i].sqlType + " NOT NULL";
      assert defs[i][..|prefix|] == prefix;
    }
  }

  // ---------------------------------------------------------------------
  // Paths in LOAD statements
  // ---------------------------------------------------------------------

  /** `s.replace('\\', '\\\\')`: every backslash doubled. */
  function EscapeBackslashes(s: string): string {
    if |s| == 0 then "" else EscapeChar(s[0]) + EscapeBackslashes(s[1..])
  }

  function EscapeChar(c: char): (r: string)
    ensures |r| > 0 && r[0] == c
  {
    if c == '\\' then "\\\\" else [c]
  }

  /** Reads an escaped string back: a doubled backslash stands for one. */
  function UnescapeBackslashes(s: string): string
    decreases |s|
  {
    if |s| == 0 then ""
    else if |s| >= 2 && s[0] == '\\' && s[1] == '\\' then "\\" + UnescapeBackslashes(s[2..])
    else [s[0]] + UnescapeBackslashes(s[1..])
  }

  function CountBackslashes(s: string): nat {
    if |s| == 0 then 0 else (if s[0] == '\\' then 1 else 0) + CountBackslashes(s[1..])
  }

  /** Escaping loses nothing and lengthens the string by one character per backslash. */
  lemma {:induction false} EscapeRoundTrip(s: string)
    ensures UnescapeBackslashes(EscapeBackslashes(s)) == s
    ensures |EscapeBackslashes(s)| == |s| + CountBackslashes(s)
  {
    if |s| > 0 {
      EscapeRoundTrip(s[1..]);
      UnescapeAfterEscape(s, "");
      assert EscapeBackslashes(s) + "" == EscapeBackslashes(s);
    }
  }

  /** Escaping distributes over concatenation. */
  lemma {:induction false} EscapeAppend(a: string, b: string)
    ensures EscapeBackslashes(a + b) == EscapeBackslashes(a) + EscapeBackslashes(b)
  {
    if |a| > 0 {
      EscapeAppend(a[1..], b);
      var h := EscapeChar(a[0]);
      assert EscapeBackslashes(a + b) == h + EscapeBackslashes(a[1..] + b) by {
        assert (a + b)[1..] == a[1..] + b;
        assert (a + b)[0] == a[0];
      }
      assert EscapeBackslashes(a) == h + EscapeBackslashes(a[1..]);
    } else {
      assert a + b == b;
    }
  }

  /** An escaped prefix reads back as itself, whatever follows it. */
  lemma {:induction false} UnescapeAfterEscape(a: string, b: string)
    ensures UnescapeBackslashes(EscapeBackslashes(a) + b) == a + UnescapeBackslashes(b)
  {
    if |a| > 0 {
      UnescapeAfterEscape(a[1..], b);
      var rest := EscapeBackslashes(a[1..]) + b;
      var h := EscapeChar(a[0]);
      var s := EscapeBackslashes(a) + b;
      assert s == h + rest;
      assert UnescapeBackslashes(s) == [a[0]] + UnescapeBackslashes(rest) by {
        assert s[|h|..] == rest;
      }
      assert a == [a[0]] + a[1..];
    } else {
      assert EscapeBackslashes(a) + b == b;
    }
  }

  /** A string without backslashes reads back unchanged. */
  lemma {:induction false} UnescapePlain(s: string)
    requires forall i | 0 <= i < |s| :: s[i] != '\\'
    ensures UnescapeBackslashes(s) == s
  {
    if |s| > 0 {
      UnescapePlain(s[1..]);
      assert s == [s[0]] + s[1..];
    }
  }

  /** Escaping keeps the last character. */
  lemma EscapeLast(s: string)
    requires |s| > 0
    ensures |EscapeBackslashes(s)| > 0
    ensures EscapeBackslashes(s)[|EscapeBackslashes(s)| - 1] == s[|s| - 1]
  {
    var init := s[..|s| - 1];
    assert s == init + [s[|s| - 1]];
    EscapeAppend(init, [s[|s| - 1]]);
  }

  // ---------------------------------------------------------------------
  // Statements and the database
  // ---------------------------------------------------------------------

  datatype Statement =
    | Drop(table: string)
    | Create(table: string, columns: string)
    | Truncate(table: string)
    | LoadInfile(path: string, table: string, columns: string)
    | Commit

  /** The abstract database: every statement issued, in order, and whether a commit went through. */
  class Database {
    var log: seq<Statement>
    var committed: bool
    const fails: Statement -> bool
    const rowCount: string -> nat

    constructor (fails: Statement -> bool, rowCount: string -> nat)
      ensures log == [] && !committed
      ensures this.fails == fails && this.rowCount == rowCount
    {
      log := [];
      committed := false;
      this.fails := fails;
      this.rowCount := rowCount;
    }

    /** Executes one statement; `rows` is the row count the cursor reports. */
    method Execute(s: Statement) returns (ok: bool, rows: nat)
      modifies this
      ensures log == old(log) + [s]
      ensures ok == !fails(s)
      ensures rows == (if ok && s.LoadInfile? then rowCount(s.path) else 0)
      ensures committed == (old(committed) || (ok && s == Commit))
    {
      log := log + [s];
      ok := !fails(s);
      rows := if ok && s.LoadInfile? then rowCount(s.path) else 0;
      committed := committed || (ok && s == Commit);
    }
  }

  // ---------------------------------------------------------------------
  // The load run as a function of its inputs
  // ---------------------------------------------------------------------

  /** The file filter: a plain prefix test on the table name and a `.csv` suffix. */
  predicate Matches(filename: string, table: string) {
    IsPrefix(table, filename) && IsSuffix(".csv", filename)
  }

  /** The prefix test also accepts files of another table whose name extends this one. */
  lemma PrefixAlsoMatchesLongerNames()
    ensures Matches("accidentxyz_1.csv", "accident")
    ensures Matches("accident_1.csv", "accident")
    ensures !Matches("accident_1.parquet", "accident")
  {
  }

  /**
    Every chunk file the splitter writes for an input whose base name
    starts with the table name passes the loader's filter.
  */
  lemma ChunkFilesMatch(table: string, base: string, number: nat)
    requires IsPrefix(table, base)
    ensures Matches(SplitChunk.ChunkFileName(base, number), table)
  {
    var name := SplitChunk.ChunkFileName(base, number);
    var rest := "_" + Decimal(number);
    assert name == base + rest + ".csv";
    assert name[..|table|] == base[..|table|];
    assert name[|name| - 4..] == ".csv";
  }

  /** The path a LOAD names: the directory with its backslashes doubled, joined with the file name. */
  function LoadPath(style: PathStyle, csvDir: string, filename: string): string {
    JoinPath(style, EscapeBackslashes(csvDir), filename)
  }

  /**
    The path as the server reads it, once the string literal's doubled
    backslashes are read back as single ones, is the directory joined with
    the file name: the escaping changes only how the path is spelled.
  */
  lemma LoadPathReadBack(style: PathStyle, csvDir: string, filename: string)
    requires |filename| > 0 && !IsSep(style, filename[0])
    requires forall i | 0 <= i < |filename| :: filename[i] != '\\'
    ensures UnescapeBackslashes(LoadPath(style, csvDir, filename)) == JoinPath(style, csvDir, filename)
  {
    var e := EscapeBackslashes(csvDir);
    var glue := JoinGlue(style, csvDir);
    if |csvDir| > 0 {
      EscapeLast(csvDir);
    } else {
      assert e == "";
    }
    assert JoinGlue(style, e) == glue;
    JoinPathGlue(style, e, filename);
    JoinPathGlue(style, csvDir, filename);
    assert LoadPath(style, csvDir, filename) == e + (glue + filename);
    UnescapeAfterEscape(csvDir, glue + filename);
    UnescapeGlued(glue, filename);
  }

  /** What `join` puts between a directory and a relative name: nothing, or one separator. */
  function JoinGlue(style: PathStyle, dir: string): (g: string)
    ensures |g| <= 1
  {
    if |dir| == 0 || IsSep(style, dir[|dir| - 1]) then "" else [PreferredSep(style)]
  }

  lemma JoinPathGlue(style: PathStyle, dir: string, name: string)
    requires |name| > 0 && !IsSep(style, name[0])
    ensures JoinPath(style, dir, name) == dir + (JoinGlue(style, dir) + name)
  {
  }

  lemma UnescapeGlued(glue: string, name: string)
    requires |glue| <= 1 && |name| > 0
    requires forall i | 0 <= i < |name| :: name[i] != '\\'
    ensures UnescapeBackslashes(glue + name) == glue + name
  {
    UnescapePlain(name);
    if |glue| == 1 {
      var s := glue + name;
      assert s[1..] == name;
      assert s[1] != '\\' by {
        assert s[1] == name[0];
      }
      assert UnescapeBackslashes(s) == [s[0]] + UnescapeBackslashes(s[1..]);
      assert s == [s[0]] + name;
    } else {
      assert glue + name == name;
    }
  }

  function LoadStatement(style: PathStyle, csvDir: string, table: string, schema: Schema, filename: string): Statement {
    LoadInfile(LoadPath(style, csvDir, filename), table, LoadColumnList(schema))
  }

  /** One LOAD per matching directory entry, in listing order. */
  function Loads(style: PathStyle, csvDir: string, table: string, schema: Schema, entries: seq<string>): seq<Statement> {
    if |entries| == 0 then []
    else
      (if Matches(entries[0], table) then [LoadStatement(style, csvDir, table, schema, entries[0])] else [])
      + Loads(style, csvDir, table, schema, entries[1..])
  }

  /** The LOADs of two runs of entries are those of the first run, then those of the second. */
  lemma {:induction false} LoadsAppend(style: PathStyle, csvDir: string, table: string, schema: Schema,
                                       a: seq<string>, b: seq<string>)
    ensures Loads(style, csvDir, table, schema, a + b)
         == Loads(style, csvDir, table, schema, a) + Loads(style, csvDir, table, schema, b)
  {
    if |a| > 0 {
      var head := if Matches(a[0], table) then [LoadStatement(style, csvDir, table, schema, a[0])] else [];
      LoadsAppend(style, csvDir, table, schema, a[1..], b);
      assert Loads(style, csvDir, table, schema, a + b) == head + Loads(style, csvDir, table, schema, a[1..] + b) by {
        assert (a + b)[0] == a[0];
        assert (a + b)[1..] == a[1..] + b;
      }
      assert Loads(style, csvDir, table, schema, a) == head + Loads(style, csvDir, table, schema, a[1..]);
    } else {
      assert a + b == b;
    }
  }

  /**
    Every LOAD is for this table with the schema's column list, and a
    LOAD is issued for a file exactly when the file matches the filter.
  */
  lemma {:induction false} LoadsExactly(style: PathStyle, csvDir: string, table: string, schema: Schema,
                                        entries: seq<string>, s: Statement)
    ensures s in Loads(style, csvDir, table, schema, entries)
        <==> exists e :: e in entries && Matches(e, table) && s == LoadStatement(style, csvDir, table, schema, e)
    ensures s in Loads(style, csvDir, table, schema, entries)
        ==> s.LoadInfile? && s.table == table && s.columns == LoadColumnList(schema)
  {
    if |entries| > 0 {
      LoadsExactly(style, csvDir, table, schema, entries[1..], s);
      assert forall e :: e in entries <==> e == entries[0] || e in entries[1..];
    }
  }

  /** Every LOAD statement of a listing is a LOAD into this table. */
  lemma {:induction false} LoadsAreLoads(style: PathStyle, csvDir: string, table: string, schema: Schema,
                                         entries: seq<string>)
    ensures forall s | s in Loads(style, csvDir, table, schema, entries) :: s.LoadInfile? && s.table == table
  {
    if |entries| > 0 {
      LoadsAreLoads(style, csvDir, table, schema, entries[1..]);
    }
  }

  /** Peeling one entry off the front of a listing. */
  lemma LoadsStep(style: PathStyle, csvDir: string, table: string, schema: Schema, entries: seq<string>, i: nat)
    requires i < |entries|
    ensures Loads(style, csvDir, table, schema, entries[i..])
         == (if Matches(entries[i], table) then [LoadStatement(style, csvDir, table, schema, entries[i])] else [])
            + Loads(style, csvDir, table, schema, entries[i + 1..])
  {
    assert entries[i..][1..] == entries[i + 1..];
  }

  /** What issuing a sequence of statements one by one yields, stopping at the first that fails. */
  datatype Trace = Trace(issued: seq<Statement>, failure: Option<Statement>, total: nat)

  function RunStatements(stmts: seq<Statement>, fails: Statement -> bool, rowCount: string -> nat): Trace {
    if |stmts| == 0 then Trace([], None, 0)
    else if fails(stmts[0]) then Trace([stmts[0]], Some(stmts[0]), 0)
    else
      var rest := RunStatements(stmts[1..], fails, rowCount);
      var rows := if stmts[0].LoadInfile? then rowCount(stmts[0].path) else 0;
      Trace([stmts[0]] + rest.issued, rest.failure, rows + rest.total)
  }

  /** Issuing a list that starts with `s`. */
  lemma RunStatementsCons(s: Statement, rest: seq<Statement>, fails: Statement -> bool, rowCount: string -> nat)
    ensures var t := RunStatements([s] + rest, fails, rowCount);
            var u := RunStatements(rest, fails, rowCount);
            if fails(s) then t == Trace([s], Some(s), 0)
            else t.issued == [s] + u.issued && t.failure == u.failure
                 && t.total == (if s.LoadInfile? then rowCount(s.path) else 0) + u.total
  {
    assert ([s] + rest)[0] == s;
    assert ([s] + rest)[1..] == rest;
  }

  /**
    The loop of `extract_from_csv` as a function of the listing: a LOAD for
    each matching entry, in listing order, stopping at the first that
    fails and adding up the row counts the others report.
  */
  function Import(style: PathStyle, csvDir: string, table: string, schema: Schema, entries: seq<string>,
                  fails: Statement -> bool, rowCount: string -> nat): Trace
  {
    if |entries| == 0 then Trace([], None, 0)
    else
      var rest := Import(style, csvDir, table, schema, entries[1..], fails, rowCount);
      var load := LoadStatement(style, csvDir, table, schema, entries[0]);
      if !Matches(entries[0], table) then rest
      else if fails(load) then Trace([load], Some(load), 0)
      else Trace([load] + rest.issued, rest.failure, rowCount(load.path) + rest.total)
  }

  /** The loop issues exactly the listing's LOAD statements, one by one. */
  lemma {:induction false} ImportIsRunOfLoads(style: PathStyle, csvDir: string, table: string, schema: Schema,
                                              entries: seq<string>, fails: Statement -> bool, rowCount: string -> nat)
    ensures Import(style, csvDir, table, schema, entries, fails, rowCount)
         == RunStatements(Loads(style, csvDir, table, schema, entries), fails, rowCount)
  {
    if |entries| > 0 {
      ImportIsRunOfLoads(style, csvDir, table, schema, entries[1..], fails, rowCount);
      var rest := Loads(style, csvDir, table, schema, entries[1..]);
      if Matches(entries[0], table) {
        RunStatementsCons(LoadStatement(style, csvDir, table, schema, entries[0]), rest, fails, rowCount);
      } else {
        assert Loads(style, csvDir, table, schema, entries) == rest;
      }
    }
  }

  /** Consuming entry `i` of the listing. */
  lemma ImportStep(style: PathStyle, csvDir: string, table: string, schema: Schema, entries: seq<string>, i: nat,
                   fails: Statement -> bool, rowCount: string -> nat)
    requires i < |entries|
    ensures var cur := Import(style, csvDir, table, schema, entries[i..], fails, rowCount);
            var next := Import(style, csvDir, table, schema, entries[i + 1..], fails, rowCount);
            var load := LoadStatement(style, csvDir, table, schema, entries[i]);
            if !Matches(entries[i], table) then cur == next
            else if fails(load) then cur == Trace([load], Some(load), 0)
            else cur == Trace([load] + next.issued, next.failure, rowCount(load.path) + next.total)
  {
    assert entries[i..][0] == entries[i];
    assert entries[i..][1..] == entries[i + 1..];
  }

  /** The sum of the row counts the LOADs among `stmts` report. */
  function TotalRows(stmts: seq<Statement>, rowCount: string -> nat): nat {
    if |stmts| == 0 then 0
    else (if stmts[0].LoadInfile? then rowCount(stmts[0].path) else 0) + TotalRows(stmts[1..], rowCount)
  }

  /** The position of the first statement that fails, or the length when none does. */
  function FirstFailure(stmts: seq<Statement>, fails: Statement -> bool): (f: nat)
    ensures f <= |stmts|
    ensures forall i | 0 <= i < f :: !fails(stmts[i])
    ensures f < |stmts| ==> fails(stmts[f])
  {
    if |stmts| == 0 then 0
    else if fails(stmts[0]) then 0
    else 1 + FirstFailure(stmts[1..], fails)
  }

  /**
    Issuing stops right after the first failing statement and issues
    nothing past it; without a failure every statement is issued and the
    total is the sum of the row counts.
  */
  lemma {:induction false} RunStatementsSpec(stmts: seq<Statement>, fails: Statement -> bool, rowCount: string -> nat)
    ensures var t := RunStatements(stmts, fails, rowCount);
            var f := FirstFailure(stmts, fails);
            && (t.failure.None? <==> f == |stmts|)
            && (f < |stmts| ==> t.issued == stmts[..f + 1] && t.failure == Some(stmts[f]))
            && (f == |stmts| ==> t.issued == stmts && t.total == TotalRows(stmts, rowCount))
  {
    RunUntilFailure(stmts, fails, rowCount);
    RunWithoutFailure(stmts, fails, rowCount);
  }

  /** A failing statement ends the run: it is the last issued and it is reported. */
  lemma {:induction false} RunUntilFailure(stmts: seq<Statement>, fails: Statement -> bool, rowCount: string -> nat)
    ensures var t := RunStatements(stmts, fails, rowCount);
            var f := FirstFailure(stmts, fails);
            f < |stmts| ==> t.issued == stmts[..f + 1] && t.failure == Some(stmts[f])
  {
    if |stmts| > 0 && !fails(stmts[0]) {
      RunUntilFailure(stmts[1..], fails, rowCount);
      var f := FirstFailure(stmts[1..], fails);
      if f < |stmts[1..]| {
        assert [stmts[0]] + stmts[1..][..f + 1] == stmts[..f + 2];
      }
    } else if |stmts| > 0 {
      assert stmts[..1] == [stmts[0]];
    }
  }

  /** Without a failing statement every statement is issued and every row count added up. */
  lemma {:induction false} RunWithoutFailure(stmts: seq<Statement>, fails: Statement -> bool, rowCount: string -> nat)
    ensures var t := RunStatements(stmts, fails, rowCount);
            (t.failure.None? <==> FirstFailure(stmts, fails) == |stmts|)
            && (t.failure.None? ==> t.issued == stmts && t.total == TotalRows(stmts, rowCount))
  {
    if |stmts| > 0 && !fails(stmts[0]) {
      RunWithoutFailure(stmts[1..], fails, rowCount);
      assert [stmts[0]] + stmts[1..] == stmts;
    }
  }

  /** The statements issued are a prefix of those asked for. */
  lemma {:induction false} IssuedPrefix(stmts: seq<Statement>, fails: Statement -> bool, rowCount: string -> nat)
    ensures RunStatements(stmts, fails, rowCount).issued <= stmts
  {
    if |stmts| > 0 && !fails(stmts[0]) {
      IssuedPrefix(stmts[1..], fails, rowCount);
      assert stmts == [stmts[0]] + stmts[1..];
    }
  }

  /** The total is zero exactly when every LOAD reports zero rows; in particular when there is no LOAD. */
  lemma {:induction false} TotalRowsZero(stmts: seq<Statement>, rowCount: string -> nat)
    ensures TotalRows(stmts, rowCount) == 0
        <==> forall i | 0 <= i < |stmts| :: stmts[i].LoadInfile? ==> rowCount(stmts[i].path) == 0
  {
    if |stmts| > 0 {
      TotalRowsZero(stmts[1..], rowCount);
      assert forall i | 1 <= i < |stmts| :: stmts[i] == stmts[1..][i - 1];
    }
  }

  /** The statements an extraction issues, in order, and how it ends. */
  datatype Run = Run(issued: seq<Statement>, result: Result<nat, LoadError>)

  /**
    `extract_from_csv` as a function of the directory listing and the
    server's answers: TRUNCATE, the LOADs until one fails, then, when all
    went through, either the zero-rows failure or a COMMIT.
  */
  function ExtractRun(style: PathStyle, csvDir: string, table: string, schema: Schema, entries: seq<string>,
                      fails: Statement -> bool, rowCount: string -> nat): (r: Run)
    ensures |r.issued| > 0 && r.issued[0] == Truncate(table)
    ensures r.result.Ok? ==> r.result.value > 0 && r.issued[|r.issued| - 1] == Commit
  {
    var truncate := Truncate(table);
    if fails(truncate) then Run([truncate], Err(DatabaseError(truncate)))
    else
      var t := Import(style, csvDir, table, schema, entries, fails, rowCount);
      var end := Conclusion(t.failure, t.total, fails);
      Run([truncate] + t.issued + end.issued, end.result)
  }

  /**
    How an extraction ends once its LOADs have been issued: the failing
    LOAD's error, the zero-rows failure, or a COMMIT, which may fail too.
  */
  function Conclusion(failure: Option<Statement>, total: nat, fails: Statement -> bool): (r: Run)
    ensures r.result.Ok? <==> failure.None? && total > 0 && !fails(Commit)
    ensures r.result.Ok? ==> r.result.value == total && r.issued == [Commit]
    ensures r.issued == [] || r.issued == [Commit]
    ensures r.issued == [Commit] <==> failure.None? && total > 0
    ensures failure.Some? ==> r.result == Err(DatabaseError(failure.value))
    ensures failure.None? && total == 0 ==> r.result == Err(NoDataImported)
  {
    if failure.Some? then Run([], Err(DatabaseError(failure.value)))
    else if total == 0 then Run([], Err(NoDataImported))
    else if fails(Commit) then Run([Commit], Err(DatabaseError(Commit)))
    else Run([Commit], Ok(total))
  }

  /**
    The order of an extraction: TRUNCATE first; then LOADs in listing
    order, none skipped; then at most one COMMIT, as the last statement,
    and a successful run always ends with it.
  */
  lemma ExtractOrder(style: PathStyle, csvDir: string, table: string, schema: Schema, entries: seq<string>,
                     fails: Statement -> bool, rowCount: string -> nat)
    ensures var run := ExtractRun(style, csvDir, table, schema, entries, fails, rowCount);
            exists loadsIssued: seq<Statement>, tail: seq<Statement> ::
              && run.issued == [Truncate(table)] + loadsIssued + tail
              && loadsIssued <= Loads(style, csvDir, table, schema, entries)
              && (forall s | s in loadsIssued :: s.LoadInfile? && s.table == table)
              && (tail == [] || tail == [Commit])
              && (run.result.Ok? ==> tail == [Commit])
  {
    var loads := Loads(style, csvDir, table, schema, entries);
    var t := RunStatements(loads, fails, rowCount);
    ImportIsRunOfLoads(style, csvDir, table, schema, entries, fails, rowCount);
    IssuedPrefix(loads, fails, rowCount);
    LoadsAreLoads(style, csvDir, table, schema, entries);
    assert forall s | s in t.issued :: s in loads;
    var run := ExtractRun(style, csvDir, table, schema, entries, fails, rowCount);
    if fails(Truncate(table)) {
      assert run.issued == [Truncate(table)] + [] + [];
    } else if t.failure.Some? || t.total == 0 {
      assert run.issued == [Truncate(table)] + t.issued + [];
    } else {
      assert run.issued == [Truncate(table)] + t.issued + [Commit];
    }
  }

  /**
    How an extraction ends: it succeeds exactly when no statement fails
    and the LOADs report a non-zero total, and then returns that total,
    the sum of the per-file row counts; it fails with "no data imported"
    exactly when nothing failed and every matching file loaded zero rows.
  */
  lemma ExtractResult(style: PathStyle, csvDir: string, table: string, schema: Schema, entries: seq<string>,
                      fails: Statement -> bool, rowCount: string -> nat)
    ensures var loads := Loads(style, csvDir, table, schema, entries);
            var run := ExtractRun(style, csvDir, table, schema, entries, fails, rowCount);
            var noFailure := !fails(Truncate(table)) && forall i | 0 <= i < |loads| :: !fails(loads[i]);
            && (run.result.Ok? <==> noFailure && TotalRows(loads, rowCount) > 0 && !fails(Commit))
            && (run.result.Ok? ==> run.result.value == TotalRows(loads, rowCount))
            && (run.result == Err(NoDataImported)
                <==> noFailure && forall e | e in entries && Matches(e, table) :: rowCount(LoadPath(style, csvDir, e)) == 0)
  {
    var loads := Loads(style, csvDir, table, schema, entries);
    ImportIsRunOfLoads(style, csvDir, table, schema, entries, fails, rowCount);
    RunStatementsSpec(loads, fails, rowCount);
    TotalRowsZero(loads, rowCount);
    var allZero := forall e | e in entries && Matches(e, table) :: rowCount(LoadPath(style, csvDir, e)) == 0;
    var loadsZero := forall i | 0 <= i < |loads| :: loads[i].LoadInfile? ==> rowCount(loads[i].path) == 0;
    assert allZero <==> loadsZero by {
      if allZero {
        forall i | 0 <= i < |loads| ensures loads[i].LoadInfile? ==> rowCount(loads[i].path) == 0 {
          LoadsExactly(style, csvDir, table, schema, entries, loads[i]);
        }
      }
      if loadsZero {
        forall e | e in entries && Matches(e, table) ensures rowCount(LoadPath(style, csvDir, e)) == 0 {
          var s := LoadStatement(style, csvDir, table, schema, e);
          LoadsExactly(style, csvDir, table, schema, entries, s);
          var i :| 0 <= i < |loads| && loads[i] == s;
        }
      }
    }
  }

  /**
    A COMMIT is issued exactly when TRUNCATE and every LOAD went through and
    the LOADs imported at least one row; a failed statement or a zero total
    ends the extraction without one.
  */
  lemma ExtractCommits(style: PathStyle, csvDir: string, table: string, schema: Schema, entries: seq<string>,
                       fails: Statement -> bool, rowCount: string -> nat)
    ensures var loads := Loads(style, csvDir, table, schema, entries);
            var run := ExtractRun(style, csvDir, table, schema, entries, fails, rowCount);
            var noFailure := !fails(Truncate(table)) && forall i | 0 <= i < |loads| :: !fails(loads[i]);
            Commit in run.issued <==> noFailure && TotalRows(loads, rowCount) > 0
  {
    var loads := Loads(style, csvDir, table, schema, entries);
    var run := ExtractRun(style, csvDir, table, schema, entries, fails, rowCount);
    if !fails(Truncate(table)) {
      var t := Import(style, csvDir, table, schema, entries, fails, rowCount);
      ImportIsRunOfLoads(style, csvDir, table, schema, entries, fails, rowCount);
      RunStatementsSpec(loads, fails, rowCount);
      IssuedPrefix(loads, fails, rowCount);
      LoadsAreLoads(style, csvDir, table, schema, entries);
      assert Commit !in t.issued;
      var end := Conclusion(t.failure, t.total, fails);
      assert run.issued == [Truncate(table)] + t.issued + end.issued;
      assert Commit in run.issued <==> Commit in end.issued;
    }
  }

  /** With no matching file the run imports nothing and fails, once TRUNCATE has gone through. */
  lemma NoMatchingFiles(style: PathStyle, csvDir: string, table: string, schema: Schema, entries: seq<string>,
                        fails: Statement -> bool, rowCount: string -> nat)
    requires forall i | 0 <= i < |entries| :: !Matches(entries[i], table)
    requires !fails(Truncate(table))
    ensures ExtractRun(style, csvDir, table, schema, entries, fails, rowCount)
         == Run([Truncate(table)], Err(NoDataImported))
  {
    var loads := Loads(style, csvDir, table, schema, entries);
    if |loads| > 0 {
      LoadsExactly(style, csvDir, table, schema, entries, loads[0]);
    }
    assert loads == [];
    ImportIsRunOfLoads(style, csvDir, table, schema, entries, fails, rowCount);
  }
  // ---------------------------------------------------------------------
  // The loader
  // ---------------------------------------------------------------------

  class CsvToMySql {
    const csvDir: string
    const tableName: string
    const schema: Schema
    const style: PathStyle
    const db: Database

    constructor (csvDir: string, tableName: string, schema: Schema, style: PathStyle, db: Database)
      ensures this.csvDir == csvDir && this.tableName == tableName && this.schema == schema
      ensures this.style == style && this.db == db
    {
      this.csvDir := csvDir;
      this.tableName := tableName;
      this.schema := schema;
      this.style := style;
      this.db := db;
    }

    /**
      `create_table`: DROP, then CREATE with the column clause. A database
      error stops at the failing statement and is passed on.
    */
    method CreateTable() returns (r: Outcome<LoadError>)
      modifies db
      ensures db.committed == old(db.committed)
      ensures var drop := Drop(tableName);
              var create := Create(tableName, ColumnClause(schema));
              if db.fails(drop) then db.log == old(db.log) + [drop] && r == Fail(DatabaseError(drop))
              else && db.log == old(db.log) + [drop, create]
                   && r == (if db.fails(create) then Fail(DatabaseError(create)) else Pass)
    {
      var drop := Drop(tableName);
      var create := Create(tableName, ColumnClause(schema));
      var ok, _ := db.Execute(drop);
      if !ok {
        return Fail(DatabaseError(drop));
      }
      var rows;
      ok, rows := db.Execute(create);
      r := if ok then Pass else Fail(DatabaseError(create));
    }

    /**
      The loop of `extract_from_csv`: one LOAD per matching entry, in
      listing order, adding up the row counts the server reports and
      stopping at the first LOAD that fails.
    */
    method ImportFiles(entries: seq<string>) returns (failure: Option<Statement>, totalRowsImported: nat)
      modifies db
      ensures var t := Import(style, csvDir, tableName, schema, entries, db.fails, db.rowCount);
              db.log == old(db.log) + t.issued && failure == t.failure && totalRowsImported == t.total
      ensures db.committed == old(db.committed)
    {
      ghost var full := Import(style, csvDir, tableName, schema, entries, db.fails, db.rowCount);
      ghost var rest := full;
      totalRowsImported := 0;
      var i := 0;
      assert entries[i..] == entries;
      while i < |entries|
        invariant 0 <= i <= |entries|
        invariant db.committed == old(db.committed)
        invariant rest == Import(style, csvDir, tableName, schema, entries[i..], db.fails, db.rowCount)
        invariant db.log + rest.issued == old(db.log) + full.issued
        invariant full.failure == rest.failure
        invariant full.total == totalRowsImported + rest.total
      {
        var filename := entries[i];
        ImportStep(style, csvDir, tableName, schema, entries, i, db.fails, db.rowCount);
        ghost var next := Import(style, csvDir, tableName, schema, entries[i + 1..], db.fails, db.rowCount);
        if Matches(filename, tableName) {
          var load := LoadStatement(style, csvDir, tableName, schema, filename);
          var ok, rowCount := db.Execute(load);
          if !ok {
            return Some(load), totalRowsImported;
          }
          totalRowsImported := totalRowsImported + rowCount;
        }
        rest := next;
        i := i + 1;
      }
      assert entries[i..] == [];
      failure := None;
    }

    /**
      `extract_from_csv` over a directory listing: TRUNCATE, the LOADs,
      then the zero-rows failure or the single COMMIT. A database error
      ends the run with the statement that raised it.
    */
    method ExtractFromCsv(entries: seq<string>) returns (r: Result<nat, LoadError>)
      modifies db
      ensures var run := ExtractRun(style, csvDir, tableName, schema, entries, db.fails, db.rowCount);
              db.log == old(db.log) + run.issued && r == run.result
      ensures db.committed == (old(db.committed) || r.Ok?)
    {
      var truncate := Truncate(tableName);
      var ok, _ := db.Execute(truncate);
      if !ok {
        return Err(DatabaseError(truncate));
      }
      var failure, totalRowsImported := ImportFiles(entries);
      r := Conclude(failure, totalRowsImported);
    }

    /**
      The end of `extract_from_csv`: pass on a failed LOAD, fail when no
      rows were imported, and otherwise COMMIT.
    */
    method Conclude(failure: Option<Statement>, totalRowsImported: nat) returns (r: Result<nat, LoadError>)
      modifies db
      ensures var end := Conclusion(failure, totalRowsImported, db.fails);
              db.log == old(db.log) + end.issued && r == end.result
      ensures db.committed == (old(db.committed) || r.Ok?)
    {
      if failure.Some? {
        return Err(DatabaseError(failure.value));
      }
      if totalRowsImported == 0 {
        return Err(NoDataImported);
      }
      var ok, _ := db.Execute(Commit);
      r := if ok then Ok(totalRowsImported) else Err(DatabaseError(Commit));
    }
  }

  /** The script's CSV directory: the configured output directory followed by two backslashes. */
  function MainCsvDir(outdir: string): (d: string)
    ensures |d| == |outdir| + 2 && d[..|outdir|] == outdir
    ensures d[|d| - 1] == '\\' && d[|d| - 2] == '\\'
  {
    outdir + "\\\\"
  }

  /**
    With the script's directory and Windows paths, the LOAD path spells
    four backslashes between the escaped output directory and the file
    name, and reads back as the output directory, two backslashes and the
    file name.
  */
  lemma MainLoadPath(outdir: string, filename: string)
    requires |filename| > 0 && NoSep(Windows, filename)
    ensures LoadPath(Windows, MainCsvDir(outdir), filename) == EscapeBackslashes(outdir) + "\\\\\\\\" + filename
    ensures UnescapeBackslashes(LoadPath(Windows, MainCsvDir(outdir), filename)) == outdir + "\\\\" + filename
  {
    var d := MainCsvDir(outdir);
    EscapeAppend(outdir, "\\\\");
    assert EscapeBackslashes("\\\\") == "\\\\\\\\" by {
      assert "\\\\"[1..] == "\\";
      assert "\\"[1..] == "";
    }
    LoadPathReadBack(Windows, d, filename);
  }

  /**
    The script's main sequence: the dataset name from the schema document,
    its columns, then table creation and, if that succeeded, extraction
    from the output directory of the splitter.
  */
  method LoadDataset(doc: SchemaDocument, outdir: string, style: PathStyle, db: Database, entries: seq<string>)
    returns (r: Result<nat, LoadError>)
    modifies db
    ensures |doc| == 0 ==> r == Err(EmptySchemaDocument) && db.log == old(db.log)
    ensures |doc| > 0 ==>
              var csvDir := MainCsvDir(outdir);
              var table := doc[0].key;
              var schema := doc[0].columns;
              var drop := Drop(table);
              var create := Create(table, ColumnClause(schema));
              var run := ExtractRun(style, csvDir, table, schema, entries, db.fails, db.rowCount);
              if db.fails(drop) then db.log == old(db.log) + [drop] && r == Err(DatabaseError(drop))
              else if db.fails(create) then db.log == old(db.log) + [drop, create] && r == Err(DatabaseError(create))
              else db.log == old(db.log) + [drop, create] + run.issued && r == run.result
    ensures db.committed == (old(db.committed) || r.Ok?)
  {
    var name := GetDatasetName(doc);
    if name.Err? {
      return Err(name.error);
    }
    DatasetSchema(doc);
    var schema := SchemaFor(doc, name.value);
    var loader := new CsvToMySql(MainCsvDir(outdir), name.value, schema.value, style, db);
    var created := loader.CreateTable();
    if created.Fail? {
      return Err(created.error);
    }
    r := loader.ExtractFromCsv(entries);
  }
}
