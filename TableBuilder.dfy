/**
 * `TechniciansTableBuilder`: the additive schema reconciler. For each database it
 * creates the Technicians table when absent, adds every catalog column that is
 * missing, and seeds two rows into an empty table; the tenant loop runs it on
 * every registered tenant database and keeps going past failures.
 *
 * A run is described by the list of SQL commands it issues. A failure is the
 * position of the command that throws (`failAt`); a statement that throws changes
 * nothing, and the statements before it stay applied.
 */
module Initializers {
  import opened Primitives
  import opened Text
  import opened Technicians
  import opened Store

  /** One entry of the column catalog: a name and an uninterpreted SQL definition. */
  datatype Column = Column(name: string, definition: string)

  /** The columns of a freshly created Technicians table. */
  const PrimaryColumns: set<string> := {"Id", "Active", "IsDeleted", "Created", "CreatedBy", "Name", "DisplayOrder"}

  /** The expected columns, in dictionary order. */
  const Catalog: seq<Column> := [
      Column("ParentId", "BIGINT NULL"),
      Column("ParentKey", "NVARCHAR(255) NULL"),
      Column("CreatedBy", "NVARCHAR(255) NULL"),
      Column("Created", "DATETIMEOFFSET NULL DEFAULT SYSDATETIMEOFFSET()"),
      Column("ModifiedBy", "NVARCHAR(255) NULL"),
      Column("Modified", "DATETIMEOFFSET NULL"),
      Column("Name", "NVARCHAR(255) NULL"),
      Column("PostDate", "DATETIME NULL DEFAULT GETDATE()"),
      Column("PostIp", "NVARCHAR(20) NULL"),
      Column("Title", "NVARCHAR(512) NULL"),
      Column("Content", "NTEXT NULL"),
      Column("Category", "NVARCHAR(255) DEFAULT('Free') NULL"),
      Column("Email", "NVARCHAR(255) NULL"),
      Column("Password", "NVARCHAR(255) NULL"),
      Column("ReadCount", "INT DEFAULT 0 NULL"),
      Column("Encoding", "NVARCHAR(20) DEFAULT('HTML') NULL"),
      Column("Homepage", "NVARCHAR(100) NULL"),
      Column("ModifyDate", "DATETIME NULL"),
      Column("ModifyIp", "NVARCHAR(15) NULL"),
      Column("CommentCount", "INT DEFAULT 0 NULL"),
      Column("IsPinned", "BIT DEFAULT 0 NULL"),
      Column("FileName", "NVARCHAR(255) NULL"),
      Column("FileSize", "INT DEFAULT 0 NULL"),
      Column("DownCount", "INT DEFAULT 0 NULL"),
      Column("Ref", "INT DEFAULT 0 NULL"),
      Column("Step", "INT DEFAULT 0 NULL"),
      Column("RefOrder", "INT DEFAULT 0 NULL"),
      Column("AnswerNum", "INT DEFAULT 0 NULL"),
      Column("ParentNum", "INT DEFAULT 0 NULL"),
      Column("Status", "NVARCHAR(255) NULL"),
      Column("TenantId", "BIGINT DEFAULT 0 NULL"),
      Column("TenantName", "NVARCHAR(255) NULL"),
      Column("AppId", "INT DEFAULT 0 NULL"),
      Column("AppName", "NVARCHAR(255) NULL"),
      Column("ModuleId", "INT DEFAULT 0 NULL"),
      Column("ModuleName", "NVARCHAR(255) NULL"),
      Column("IsLocked", "BIT DEFAULT 0 NULL"),
      Column("Vote", "INT DEFAULT 0 NULL"),
      Column("Weather", "TINYINT DEFAULT 0 NULL"),
      Column("ReplyEmail", "BIT DEFAULT 0 NULL"),
      Column("Published", "BIT DEFAULT 0 NULL"),
      Column("BoardType", "NVARCHAR(100) NULL"),
      Column("BoardName", "NVARCHAR(255) NULL"),
      Column("NickName", "NVARCHAR(255) NULL"),
      Column("IconName", "NVARCHAR(100) NULL"),
      Column("Price", "DECIMAL(18,2) DEFAULT 0.00 NULL"),
      Column("Community", "NVARCHAR(255) NULL"),
      Column("StartDate", "DATETIMEOFFSET(7) NULL"),
      Column("EndDate", "DATETIMEOFFSET(7) NULL"),
      Column("Video", "NVARCHAR(1024) NULL"),
      Column("SecurityLevel", "NVARCHAR(10) NULL"),
      Column("AvailableCustomerLevel", "NVARCHAR(10) NULL"),
      Column("Num", "INT DEFAULT 0 NULL"),
      Column("UID", "INT DEFAULT 0 NULL"),
      Column("UserId", "NVARCHAR(255) NULL"),
      Column("UserName", "NVARCHAR(255) NULL"),
      Column("DivisionId", "INT DEFAULT 0 NULL"),
      Column("CategoryId", "INT DEFAULT 0 NULL"),
      Column("BoardId", "INT DEFAULT 0 NULL"),
      Column("ApplicationId", "INT DEFAULT 0 NULL"),
      Column("IsDeleted", "BIT DEFAULT 0 NULL"),
      Column("DeletedBy", "NVARCHAR(255) NULL"),
      Column("Deleted", "DATETIMEOFFSET NULL"),
      Column("ApprovalStatus", "NVARCHAR(50) NULL"),
      Column("ApprovalBy", "NVARCHAR(255) NULL"),
      Column("ApprovalDate", "DATETIMEOFFSET NULL"),
      Column("UserAgent", "NVARCHAR(512) NULL"),
      Column("Referer", "NVARCHAR(512) NULL"),
      Column("SessionId", "NVARCHAR(255) NULL"),
      Column("DisplayOrder", "INT DEFAULT 0 NULL"),
      Column("ViewRoles", "NVARCHAR(255) NULL"),
      Column("Tags", "NVARCHAR(255) NULL"),
      Column("LikeCount", "INT DEFAULT 0 NULL"),
      Column("DislikeCount", "INT DEFAULT 0 NULL"),
      Column("Rating", "DECIMAL(3,2) DEFAULT 0.0 NULL"),
      Column("Culture", "NVARCHAR(10) NULL"),
      Column("IsSystem", "BIT DEFAULT 0 NULL"),
      Column("SearchKeywords", "NVARCHAR(1024) NULL"),
      Column("SortKey", "NVARCHAR(255) NULL"),
      Column("Version", "INT DEFAULT 1 NULL"),
      Column("HistoryGroupId", "UNIQUEIDENTIFIER NULL"),
      Column("IsNotified", "BIT DEFAULT 0 NULL"),
      Column("IsSubscribed", "BIT DEFAULT 0 NULL"),
      Column("ExternalId", "NVARCHAR(255) NULL"),
      Column("ExternalUrl", "NVARCHAR(1024) NULL"),
      Column("SourceType", "NVARCHAR(50) NULL"),
      Column("IsMobile", "BIT DEFAULT 0 NULL")
    ]

  /** The names a catalog mentions, and nothing else. */
  function Names(cat: seq<Column>): (r: set<string>)
    ensures forall c :: c in cat ==> c.name in r
    ensures forall n :: n in r ==> exists c :: c in cat && c.name == n
  {
    if cat == [] then {} else {cat[0].name} + Names(cat[1..])
  }

  /** The two rows the seed INSERT adds, keyed from the next identity value. */
  function SeedRows(firstId: int, at: Timestamp): seq<Technician> {
    [ Technician(firstId, Some(true), false, at, Some("System"), Some("Initial Technician 1"), 1),
      Technician(firstId + 1, Some(true), false, at, Some("System"), Some("Initial Technician 2"), 2) ]
  }

  /** The seed rows are live, pass the entity's validation, and come in DisplayOrder 1, 2. */
  lemma SeedRowsAreValid(firstId: int, at: Timestamp)
    ensures |SeedRows(firstId, at)| == 2
    ensures forall t :: t in SeedRows(firstId, at) ==> IsValid(t) && !t.isDeleted && t.active == Some(true)
    ensures SeedRows(firstId, at)[0].displayOrder == 1 && SeedRows(firstId, at)[1].displayOrder == 2
    ensures forall t :: t in SeedRows(firstId, at) ==> t.createdBy == Some("System")
    ensures SeedRows(firstId, at)[0].name == Some("Initial Technician 1")
    ensures SeedRows(firstId, at)[1].name == Some("Initial Technician 2")
  {
    var rows := SeedRows(firstId, at);
    assert !IsWhiteSpace(rows[0].name.value[0]) && !IsWhiteSpace(rows[1].name.value[0]);
  }

  /** The statements that change a database. */
  datatype Action = CreateTable | AddColumn(column: Column) | InsertSeedRows(at: Timestamp)

  /** The SQL commands a run issues, in order. */
  datatype Command =
    | Connect                  // connection.Open()
    | CheckTable               // SELECT COUNT(*) FROM INFORMATION_SCHEMA.TABLES ...
    | CheckColumn(name: string) // SELECT COUNT(*) FROM INFORMATION_SCHEMA.COLUMNS ...
    | CountRows                // SELECT COUNT(*) FROM [dbo].[Technicians]
    | Execute(action: Action)  // CREATE TABLE, ALTER TABLE ... ADD, INSERT

  /**
   * The effect of one statement. SQL Server rejects a CREATE of an existing table
   * and an ALTER or INSERT on a missing one; a rejected statement changes nothing.
   */
  function ApplyAction(st: DbState, a: Action): DbState {
    match a
    case CreateTable =>
      if st.tableExists then st else DbState(true, PrimaryColumns, [], 1)
    case AddColumn(c) =>
      if st.tableExists then st.(columns := st.columns + {c.name}) else st
    case InsertSeedRows(at) =>
      if st.tableExists then st.(rows := st.rows + SeedRows(st.nextId, at), nextId := st.nextId + 2) else st
  }

  /** The effect of a sequence of statements, applied in order. */
  function Apply(st: DbState, acts: seq<Action>): DbState
    decreases |acts|
  {
    if acts == [] then st else ApplyAction(Apply(st, acts[..|acts| - 1]), acts[|acts| - 1])
  }

  /** The statements among the commands, in order. */
  function Actions(cmds: seq<Command>): seq<Action>
    decreases |cmds|
  {
    if cmds == [] then []
    else
      var last := cmds[|cmds| - 1];
      Actions(cmds[..|cmds| - 1]) + (if last.Execute? then [last.action] else [])
  }

  /** `b` grew from `a` without losing anything: the table, its columns and its existing rows are kept. */
  predicate Extends(a: DbState, b: DbState) {
    (a.tableExists ==> b.tableExists) && a.columns <= b.columns && a.rows <= b.rows
  }

  lemma ExtendsTransitive(a: DbState, b: DbState, c: DbState)
    requires Extends(a, b) && Extends(b, c)
    ensures Extends(a, c)
  {
  }

  /** Every database of `a` is still there in `b` and grew. */
  predicate Grew(a: map<string, DbState>, b: map<string, DbState>) {
    a.Keys == b.Keys && forall cs :: cs in a ==> Extends(a[cs], b[cs])
  }

  lemma GrewTransitive(a: map<string, DbState>, b: map<string, DbState>, c: map<string, DbState>)
    requires Grew(a, b) && Grew(b, c)
    ensures Grew(a, c)
  {
  }

  /** A reconciled database: the table exists with every catalog column and holds at least one row. */
  predicate Reconciled(st: DbState, cat: seq<Column>) {
    st.tableExists && Names(cat) <= st.columns && st.rows != []
  }

  /** Growing keeps a database reconciled. */
  lemma ReconciledPersists(a: DbState, b: DbState, cat: seq<Column>)
    requires Reconciled(a, cat) && Extends(a, b)
    ensures Reconciled(b, cat)
  {
    assert a.rows[0] == b.rows[0];
  }

  // ---------------------------------------------------------------------------
  // The command script of one run

  /** The column phase: a check per catalog entry, and an ALTER for each one missing. */
  function ColumnScript(cols: set<string>, cat: seq<Column>): seq<Command>
    decreases |cat|
  {
    if cat == [] then []
    else
      [CheckColumn(cat[0].name)]
      + (if cat[0].name in cols then [] else [Execute(AddColumn(cat[0]))])
      + ColumnScript(cols + {cat[0].name}, cat[1..])
  }

  /** The seed phase: a row count, and the INSERT when the table is empty. */
  function SeedScript(rows: seq<Technician>, now: Timestamp): seq<Command> {
    [CountRows] + (if rows == [] then [Execute(InsertSeedRows(now))] else [])
  }

  /** The state the column phase starts from: the table as it was, or as CREATE left it. */
  function AfterCreate(s: DbState): DbState {
    ApplyAction(s, CreateTable)
  }

  /** The create phase: CREATE TABLE when the table is absent. */
  function CreateScript(s: DbState): seq<Command> {
    if s.tableExists then [] else [Execute(CreateTable)]
  }

  /** Every command `EnsureTechniciansTable` issues on `s` when none of them fails. */
  function Script(s: DbState, cat: seq<Column>, now: Timestamp): seq<Command> {
    [Connect, CheckTable]
    + CreateScript(s)
    + ColumnScript(AfterCreate(s).columns, cat)
    + SeedScript(AfterCreate(s).rows, now)
  }

  /** The database after a complete run. */
  function Run(s: DbState, cat: seq<Column>, now: Timestamp): DbState {
    Apply(s, Actions(Script(s, cat, now)))
  }

  // ---------------------------------------------------------------------------
  // Facts about statements

  lemma {:induction false} ActionsConcat(a: seq<Command>, b: seq<Command>)
    ensures Actions(a + b) == Actions(a) + Actions(b)
    decreases |b|
  {
    if b != [] {
      var n := |b| - 1;
      assert (a + b)[..|a + b| - 1] == a + b[..n];
      ActionsConcat(a, b[..n]);
    } else {
      assert a + b == a;
    }
  }

  lemma {:induction false} ApplyConcat(s: DbState, a: seq<Action>, b: seq<Action>)
    ensures Apply(s, a + b) == Apply(Apply(s, a), b)
    decreases |b|
  {
    if b != [] {
      var n := |b| - 1;
      assert (a + b)[..|a + b| - 1] == a + b[..n];
      ApplyConcat(s, a, b[..n]);
    } else {
      assert a + b == a;
    }
  }

  /** Issuing one more command adds its statement, if it is one. */
  lemma ActionsSnoc(cmds: seq<Command>, cmd: Command)
    ensures Actions(cmds + [cmd]) == Actions(cmds) + (if cmd.Execute? then [cmd.action] else [])
  {
    assert (cmds + [cmd])[..|cmds|] == cmds;
  }

  /** The state after one more command: it changes only if it is a statement. */
  lemma Step(s0: DbState, cmds: seq<Command>, cmd: Command)
    ensures Actions(cmds + [cmd]) == Actions(cmds) + (if cmd.Execute? then [cmd.action] else [])
    ensures Apply(s0, Actions(cmds + [cmd])) ==
      if cmd.Execute? then ApplyAction(Apply(s0, Actions(cmds)), cmd.action) else Apply(s0, Actions(cmds))
  {
    ActionsSnoc(cmds, cmd);
    if cmd.Execute? {
      var acts := Actions(cmds) + [cmd.action];
      assert acts[..|acts| - 1] == Actions(cmds) && acts[|acts| - 1] == cmd.action;
      assert Apply(s0, acts) == ApplyAction(Apply(s0, Actions(cmds)), cmd.action);
    } else {
      assert Actions(cmds + [cmd]) == Actions(cmds);
    }
  }

  /** No statement, or one. */
  lemma ApplyAtMostOne(s: DbState, acts: seq<Action>)
    requires |acts| <= 1
    ensures Apply(s, acts) == if acts == [] then s else ApplyAction(s, acts[0])
  {
    if acts != [] {
      assert acts[..0] == [];
    }
  }

  /** Commands that are not statements leave the database as it is. */
  lemma {:induction false} QueriesChangeNothing(s: DbState, q: seq<Command>)
    requires forall c :: c in q ==> !c.Execute?
    ensures Apply(s, Actions(q)) == s
    decreases |q|
  {
    if q != [] {
      var n := |q| - 1;
      assert q == q[..n] + [q[n]];
      QueriesChangeNothing(s, q[..n]);
      Step(s, q[..n], q[n]);
    }
  }

  /** Queries followed by one statement: only the statement takes effect. */
  lemma QueriesThen(s: DbState, q: seq<Command>, a: Action)
    requires forall c :: c in q ==> !c.Execute?
    ensures Apply(s, Actions(q + [Execute(a)])) == ApplyAction(s, a)
  {
    QueriesChangeNothing(s, q);
    Step(s, q, Execute(a));
  }

  /** The column phase for one entry: its check, and its ALTER when the name is missing. */
  lemma ColumnScriptOne(cols: set<string>, c: Column)
    ensures ColumnScript(cols, [c]) ==
      [CheckColumn(c.name)] + (if c.name in cols then [] else [Execute(AddColumn(c))])
  {
    assert [c][1..] == [];
  }

  /** Every statement keeps the table well formed and only adds. */
  lemma ActionOnlyAdds(st: DbState, a: Action)
    requires WellFormed(st)
    ensures WellFormed(ApplyAction(st, a)) && Extends(st, ApplyAction(st, a))
  {
  }

  /**
   * Whatever prefix of statements has run — a complete run, or one cut short by a
   * failing command — the table is well formed and nothing was removed: no column
   * is dropped and no existing row changes.
   */
  lemma {:induction false} ApplyOnlyAdds(s: DbState, acts: seq<Action>)
    requires WellFormed(s)
    ensures WellFormed(Apply(s, acts)) && Extends(s, Apply(s, acts))
    decreases |acts|
  {
    if acts != [] {
      var prev := Apply(s, acts[..|acts| - 1]);
      ApplyOnlyAdds(s, acts[..|acts| - 1]);
      ActionOnlyAdds(prev, acts[|acts| - 1]);
      ExtendsTransitive(s, prev, Apply(s, acts));
    }
  }

  /** The column phase issues only ALTERs. */
  lemma {:induction false} ColumnScriptOnlyAlters(cols: set<string>, cat: seq<Column>)
    ensures forall a :: a in Actions(ColumnScript(cols, cat)) ==> a.AddColumn?
    decreases |cat|
  {
    if cat != [] {
      var head := [CheckColumn(cat[0].name)] + (if cat[0].name in cols then [] else [Execute(AddColumn(cat[0]))]);
      ActionsConcat(head, ColumnScript(cols + {cat[0].name}, cat[1..]));
      ActionsConcat([CheckColumn(cat[0].name)], head[1..]);
      assert head == [CheckColumn(cat[0].name)] + head[1..];
      ColumnScriptOnlyAlters(cols + {cat[0].name}, cat[1..]);
    }
  }

  /** The ALTERs the column phase issues, one per missing name. */
  lemma {:induction false} ColumnScriptActions(cols: set<string>, cat: seq<Column>)
    ensures cat != [] ==>
      Actions(ColumnScript(cols, cat)) ==
        (if cat[0].name in cols then [] else [AddColumn(cat[0])]) + Actions(ColumnScript(cols + {cat[0].name}, cat[1..]))
  {
    if cat != [] {
      var check := [CheckColumn(cat[0].name)];
      var alter := if cat[0].name in cols then [] else [Execute(AddColumn(cat[0]))];
      var rest := ColumnScript(cols + {cat[0].name}, cat[1..]);
      ActionsConcat(check + alter, rest);
      ActionsConcat(check, alter);
      assert Actions(check) == [] by { assert check[..0] == []; }
      assert Actions(alter) == (if cat[0].name in cols then [] else [AddColumn(cat[0])]) by {
        if alter != [] { assert alter[..0] == []; }
      }
    }
  }

  /**
   * After the column phase every catalog name is a column, and nothing else changed:
   * exactly the missing names were added.
   */
  lemma {:induction false} ColumnPhaseAddsAll(st: DbState, cat: seq<Column>)
    requires st.tableExists
    ensures Apply(st, Actions(ColumnScript(st.columns, cat))) == st.(columns := st.columns + Names(cat))
    decreases |cat|
  {
    if cat != [] {
      var c := cat[0];
      var mid := st.(columns := st.columns + {c.name});
      var alter := if c.name in st.columns then [] else [AddColumn(c)];
      ColumnScriptActions(st.columns, cat);
      ApplyConcat(st, alter, Actions(ColumnScript(mid.columns, cat[1..])));
      assert Apply(st, alter) == mid by {
        if alter != [] { assert alter[..0] == []; }
        else { assert st.columns + {c.name} == st.columns; }
      }
      ColumnPhaseAddsAll(mid, cat[1..]);
    }
  }

  /** When every catalog name is present the column phase issues no ALTER. */
  lemma {:induction false} ColumnScriptQuiet(cols: set<string>, cat: seq<Column>)
    requires Names(cat) <= cols
    ensures Actions(ColumnScript(cols, cat)) == []
    decreases |cat|
  {
    if cat != [] {
      ColumnScriptActions(cols, cat);
      assert cols + {cat[0].name} == cols;
      ColumnScriptQuiet(cols, cat[1..]);
    }
  }

  /** One check per catalog entry, and at most one ALTER after each. */
  lemma {:induction false} ColumnScriptLength(cols: set<string>, cat: seq<Column>)
    ensures |cat| <= |ColumnScript(cols, cat)| <= 2 * |cat|
    decreases |cat|
  {
    if cat != [] {
      ColumnScriptLength(cols + {cat[0].name}, cat[1..]);
    }
  }

  /**
   * A run issues at least the connection, the table check, one check per catalog
   * entry and the row count, and at most a CREATE, an ALTER per entry and the INSERT more.
   */
  lemma ScriptLength(s: DbState, cat: seq<Column>, now: Timestamp)
    ensures |cat| + 3 <= |Script(s, cat, now)| <= 2 * |cat| + 5
  {
    ColumnScriptLength(AfterCreate(s).columns, cat);
  }

  /** The statements of a complete run, phase by phase. */
  lemma ScriptActions(s: DbState, cat: seq<Column>, now: Timestamp)
    ensures Actions(Script(s, cat, now)) ==
      (if s.tableExists then [] else [CreateTable])
      + Actions(ColumnScript(AfterCreate(s).columns, cat))
      + (if AfterCreate(s).rows == [] then [InsertSeedRows(now)] else [])
  {
    var create := CreateScript(s);
    var cols := ColumnScript(AfterCreate(s).columns, cat);
    var seed := SeedScript(AfterCreate(s).rows, now);
    assert Script(s, cat, now) == [Connect, CheckTable] + create + cols + seed;
    ActionsConcat([Connect, CheckTable] + create + cols, seed);
    ActionsConcat([Connect, CheckTable] + create, cols);
    ActionsConcat([Connect, CheckTable], create);
    assert Actions([Connect, CheckTable]) == [] by {
      assert [Connect, CheckTable][..1] == [Connect];
      assert [Connect][..0] == [];
    }
    assert Actions(create) == (if s.tableExists then [] else [CreateTable]) by {
      if create != [] { assert create[..0] == []; }
    }
    ActionsConcat([CountRows], seed[1..]);
    assert seed == [CountRows] + seed[1..];
    assert Actions([CountRows]) == [] by { assert [CountRows][..0] == []; }
    assert Actions(seed[1..]) == (if AfterCreate(s).rows == [] then [InsertSeedRows(now)] else []) by {
      if seed[1..] != [] { assert seed[1..][..0] == []; }
    }
  }

  /**
   * A complete run on a well-formed database: the table is created when absent
   * (with exactly the primary columns), every missing catalog column is added, and
   * an empty table receives the two seed rows; nothing else changes.
   */
  lemma ScriptResult(s: DbState, cat: seq<Column>, now: Timestamp)
    requires WellFormed(s)
    ensures var base := AfterCreate(s);
            var cols := base.(columns := base.columns + Names(cat));
            && (!s.tableExists ==> base.columns == PrimaryColumns && base.rows == [] && base.nextId == 1)
            && (s.tableExists ==> base == s)
            && Run(s, cat, now) ==
                 if base.rows == [] then cols.(rows := SeedRows(base.nextId, now), nextId := base.nextId + 2)
                 else cols
  {
    var base := AfterCreate(s);
    var create := if s.tableExists then [] else [CreateTable];
    var alters := Actions(ColumnScript(base.columns, cat));
    var seed := if base.rows == [] then [InsertSeedRows(now)] else [];
    var cols := base.(columns := base.columns + Names(cat));
    assert Run(s, cat, now) == Apply(cols, seed) by {
      ScriptActions(s, cat, now);
      ApplyConcat(s, create + alters, seed);
      ApplyConcat(s, create, alters);
      ApplyAtMostOne(s, create);
      ColumnPhaseAddsAll(base, cat);
    }
    ApplyAtMostOne(cols, seed);
  }

  /** A complete run leaves the database reconciled, having only added to it. */
  lemma ScriptReconciles(s: DbState, cat: seq<Column>, now: Timestamp)
    requires WellFormed(s)
    ensures Reconciled(Run(s, cat, now), cat)
    ensures WellFormed(Run(s, cat, now)) && Extends(s, Run(s, cat, now))
  {
    ScriptResult(s, cat, now);
    ApplyOnlyAdds(s, Actions(Script(s, cat, now)));
  }

  /** On a reconciled database a run issues no CREATE, ALTER or INSERT and changes nothing. */
  lemma ReconciledScriptIsQuiet(s: DbState, cat: seq<Column>, now: Timestamp)
    requires Reconciled(s, cat)
    ensures Actions(Script(s, cat, now)) == []
    ensures Run(s, cat, now) == s
  {
    ScriptActions(s, cat, now);
    ColumnScriptQuiet(s.columns, cat);
  }

  /** Running twice is the same as running once: the second run issues no CREATE, ALTER or INSERT. */
  lemma RunTwiceIdempotent(s: DbState, cat: seq<Column>, now1: Timestamp, now2: Timestamp)
    requires WellFormed(s)
    ensures Actions(Script(Run(s, cat, now1), cat, now2)) == []
    ensures Run(Run(s, cat, now1), cat, now2) == Run(s, cat, now1)
  {
    ScriptReconciles(s, cat, now1);
    ReconciledScriptIsQuiet(Run(s, cat, now1), cat, now2);
  }

  /** CREATE TABLE is issued exactly when the table does not exist. */
  lemma CreateOnlyIfAbsent(s: DbState, cat: seq<Column>, now: Timestamp)
    ensures CreateTable in Actions(Script(s, cat, now)) <==> !s.tableExists
  {
    ScriptActions(s, cat, now);
    ColumnScriptOnlyAlters(AfterCreate(s).columns, cat);
  }

  /** The seed INSERT is issued exactly when the table is missing or has no rows. */
  lemma SeedOnlyWhenEmpty(s: DbState, cat: seq<Column>, now: Timestamp)
    requires WellFormed(s)
    ensures InsertSeedRows(now) in Actions(Script(s, cat, now)) <==> s.rows == []
  {
    ScriptActions(s, cat, now);
    ColumnScriptOnlyAlters(AfterCreate(s).columns, cat);
  }

  /** The failure position as seen by a phase that starts after `done` commands. */
  function Shift(failAt: Option<nat>, done: nat): Option<nat> {
    if failAt.Some? && failAt.value >= done then Some(failAt.value - done) else None
  }

  /**
   * A phase meant to issue `phase` from state `s` ended with `ok`, having issued
   * `issued` and reached `t`: it completes unless the failing command lies within
   * it, it stops right before that command, and only the issued statements took
   * effect.
   */
  ghost predicate PhaseDone(s: DbState, phase: seq<Command>, failAt: Option<nat>, ok: bool, issued: seq<Command>, t: DbState) {
    && (ok <==> failAt.None? || failAt.value >= |phase|)
    && issued == (if ok then phase else phase[..failAt.value])
    && t == Apply(s, Actions(issued))
  }

  /** A completed phase followed by another is a phase of their concatenation. */
  lemma ComposePhases(s: DbState, p1: seq<Command>, p2: seq<Command>, failAt: Option<nat>,
                      ok2: bool, i2: seq<Command>, t2: DbState)
    requires failAt.None? || failAt.value >= |p1|
    requires PhaseDone(Apply(s, Actions(p1)), p2, Shift(failAt, |p1|), ok2, i2, t2)
    ensures PhaseDone(s, p1 + p2, failAt, ok2, p1 + i2, t2)
  {
    ActionsConcat(p1, i2);
    ApplyConcat(s, Actions(p1), Actions(i2));
    if !ok2 {
      assert (p1 + p2)[..failAt.value] == p1 + p2[..failAt.value - |p1|];
    }
  }

  /** A phase that failed is a failed run of any script it begins. */
  lemma FailedPhaseExtends(s: DbState, p1: seq<Command>, p2: seq<Command>, failAt: Option<nat>,
                           i1: seq<Command>, t1: DbState)
    requires PhaseDone(s, p1, failAt, false, i1, t1)
    ensures PhaseDone(s, p1 + p2, failAt, false, i1, t1)
  {
    assert (p1 + p2)[..failAt.value] == p1[..failAt.value];
  }

  /** The column phase from entry `i` on: entry `i` alone, then the rest with its name added. */
  lemma ColumnSuffixStep(cols: set<string>, cat: seq<Column>, i: nat)
    requires i < |cat|
    ensures ColumnScript(cols, cat[i..]) ==
      ColumnScript(cols, [cat[i]]) + ColumnScript(cols + {cat[i].name}, cat[i + 1..])
  {
    assert cat[i..][1..] == cat[i + 1..];
    assert [cat[i]][1..] == [];
  }

  /** Moving the next commands from the pending part of a script to the issued part. */
  lemma Regroup(script: seq<Command>, issued: seq<Command>, next: seq<Command>, rest: seq<Command>)
    requires script == issued + (next + rest)
    ensures script == (issued + next) + rest
  {
  }

  /**
   * A run cut short after any number of commands has only added: the columns
   * already added by a failed run stay, and no existing row changed.
   */
  lemma PartialRunOnlyAdds(s: DbState, cat: seq<Column>, now: Timestamp, n: nat)
    requires WellFormed(s) && n <= |Script(s, cat, now)|
    ensures WellFormed(Apply(s, Actions(Script(s, cat, now)[..n])))
    ensures Extends(s, Apply(s, Actions(Script(s, cat, now)[..n])))
  {
    ApplyOnlyAdds(s, Actions(Script(s, cat, now)[..n]));
  }

  /** The connection strings in the order the registry returns them, without null or empty ones. */
  function KeepNonEmpty(registry: seq<Option<string>>): (r: seq<string>)
    ensures |r| <= |registry|
    ensures forall cs :: cs in r <==> cs != "" && Some(cs) in registry
    decreases |registry|
  {
    if registry == [] then []
    else
      var n := |registry| - 1;
      var last := registry[n];
      assert registry == registry[..n] + [last];
      KeepNonEmpty(registry[..n]) + (if last.Some? && last.value != "" then [last.value] else [])
  }

  /**
   * Reading more registry rows appends what they keep: the strings come out in read
   * order, repeats included.
   */
  lemma {:induction false} KeepNonEmptyConcat(a: seq<Option<string>>, b: seq<Option<string>>)
    ensures KeepNonEmpty(a + b) == KeepNonEmpty(a) + KeepNonEmpty(b)
    decreases |b|
  {
    if b == [] {
      assert a + b == a;
    } else {
      var n := |b| - 1;
      assert (a + b)[..|a + b| - 1] == a + b[..n];
      assert (a + b)[|a + b| - 1] == b[n];
      KeepNonEmptyConcat(a, b[..n]);
    }
  }

  /** One registry row: its string is kept exactly when it is neither null nor empty. */
  lemma KeepNonEmptyOne(x: Option<string>)
    ensures KeepNonEmpty([x]) == if x.Some? && x.value != "" then [x.value] else []
  {
    assert [x][..0] == [];
  }

  /** What the tenant loop did with one connection string. */
  datatype TenantOutcome = TenantOutcome(connectionString: string, processed: bool)

  /**
   * What the loop reports for one connection string: a string that reaches no
   * database is never processed, a run with no failure always is, and a failure
   * within the commands every run issues always aborts it.
   */
  predicate Reports(o: TenantOutcome, connectionString: string, reachable: bool, fault: Option<nat>, cat: seq<Column>) {
    && o.connectionString == connectionString
    && (!reachable ==> !o.processed)
    && (reachable && fault.None? ==> o.processed)
    && (fault.Some? && fault.value < |cat| + 3 ==> !o.processed)
  }

  /** The outcomes so far report the first `|outs|` connection strings in order. */
  predicate ReportsAll(outs: seq<TenantOutcome>, strings: seq<string>, reachable: set<string>,
                       faults: nat -> Option<nat>, cat: seq<Column>) {
    |outs| <= |strings| &&
    forall j :: 0 <= j < |outs| ==> Reports(outs[j], strings[j], strings[j] in reachable, faults(j), cat)
  }

  lemma ReportNext(outs: seq<TenantOutcome>, o: TenantOutcome, strings: seq<string>, reachable: set<string>,
                   faults: nat -> Option<nat>, cat: seq<Column>)
    requires ReportsAll(outs, strings, reachable, faults, cat) && |outs| < |strings|
    requires Reports(o, strings[|outs|], strings[|outs|] in reachable, faults(|outs|), cat)
    ensures ReportsAll(outs + [o], strings, reachable, faults, cat)
  {
  }

  /** Every database reported as processed is reconciled in `states`. */
  predicate ProcessedAreReconciled(outs: seq<TenantOutcome>, states: map<string, DbState>, cat: seq<Column>) {
    forall j :: 0 <= j < |outs| && outs[j].processed ==>
      outs[j].connectionString in states && Reconciled(states[outs[j].connectionString], cat)
  }

  /** Databases that only grow stay reconciled. */
  lemma StayReconciled(outs: seq<TenantOutcome>, a: map<string, DbState>, b: map<string, DbState>, cat: seq<Column>)
    requires ProcessedAreReconciled(outs, a, cat) && Grew(a, b)
    ensures ProcessedAreReconciled(outs, b, cat)
  {
    forall j | 0 <= j < |outs| && outs[j].processed
      ensures Reconciled(b[outs[j].connectionString], cat)
    {
      ReconciledPersists(a[outs[j].connectionString], b[outs[j].connectionString], cat);
    }
  }

  lemma ReportProcessed(outs: seq<TenantOutcome>, o: TenantOutcome, states: map<string, DbState>, cat: seq<Column>)
    requires ProcessedAreReconciled(outs, states, cat)
    requires o.processed ==> o.connectionString in states && Reconciled(states[o.connectionString], cat)
    ensures ProcessedAreReconciled(outs + [o], states, cat)
  {
  }

  class TechniciansTableBuilder {
    /** The master database. */
    const master: TechniciansDb
    /** The `ConnectionString` column of `dbo.Tenants`, row by row, as read from the master database. */
    const registry: seq<Option<string>>
    /** The databases the tenant connection strings reach; a string missing here fails to connect. */
    const tenants: map<string, TechniciansDb>
    /** The expected-columns dictionary the reconciler works through. */
    const catalog: seq<Column>

    constructor (master: TechniciansDb, registry: seq<Option<string>>, tenants: map<string, TechniciansDb>)
      ensures this.master == master && this.registry == registry && this.tenants == tenants
      ensures catalog == Catalog
    {
      this.catalog := Catalog;
      this.master := master;
      this.registry := registry;
      this.tenants := tenants;
    }

    /**
     * `EnsureTechniciansTable`: create the table if absent, add each missing catalog
     * column, seed an empty table. `failAt` is the position of the command that
     * throws, if any; the run stops there and everything before it stays applied.
     * `ok` is false exactly when a command threw.
     */
    method EnsureTechniciansTable(db: TechniciansDb, failAt: Option<nat>, now: Timestamp)
      returns (ok: bool, issued: seq<Command>)
      requires db.Valid()
      modifies db
      ensures db.Valid()
      ensures ok <==> failAt.None? || failAt.value >= |Script(old(db.State()), catalog, now)|
      ensures ok ==> issued == Script(old(db.State()), catalog, now)
      ensures !ok ==> issued == Script(old(db.State()), catalog, now)[..failAt.value]
      ensures db.State() == Apply(old(db.State()), Actions(issued))
      ensures Extends(old(db.State()), db.State())
      ensures ok ==> db.State() == Run(old(db.State()), catalog, now) && Reconciled(db.State(), catalog)
    {
      ghost var s0 := db.State();
      ghost var create := [Connect, CheckTable] + CreateScript(s0);
      ghost var columns := ColumnScript(AfterCreate(s0).columns, catalog);
      ghost var seed := SeedScript(AfterCreate(s0).rows, now);
      ScriptReconciles(s0, catalog, now);

      ok, issued := CreatePhase(db, failAt);
      ApplyOnlyAdds(s0, Actions(issued));
      if !ok {
        FailedPhaseExtends(s0, create, columns + seed, failAt, issued, db.State());
        assert create + (columns + seed) == Script(s0, catalog, now);
        return;
      }

      var columnsOk, columnsIssued := ColumnPhase(db, Shift(failAt, |issued|));
      ComposePhases(s0, create, columns, failAt, columnsOk, columnsIssued, db.State());
      issued := issued + columnsIssued;
      ApplyOnlyAdds(s0, Actions(issued));
      if !columnsOk {
        FailedPhaseExtends(s0, create + columns, seed, failAt, issued, db.State());
        ok := false;
        return;
      }

      var seedOk, seedIssued := SeedPhase(db, Shift(failAt, |issued|), now);
      ComposePhases(s0, create + columns, seed, failAt, seedOk, seedIssued, db.State());
      issued := issued + seedIssued;
      ApplyOnlyAdds(s0, Actions(issued));
      ok := seedOk;
    }

    /** Open the connection, look the table up, and create it when it is absent. */
    method CreatePhase(db: TechniciansDb, failAt: Option<nat>) returns (ok: bool, issued: seq<Command>)
      requires db.Valid()
      modifies db
      ensures PhaseDone(old(db.State()), [Connect, CheckTable] + CreateScript(old(db.State())), failAt, ok, issued, db.State())
      ensures ok ==> db.State() == AfterCreate(old(db.State()))
    {
      ghost var s0 := db.State();
      ghost var phase := [Connect, CheckTable] + CreateScript(s0);
      if failAt == Some(0) {
        ok, issued := false, [];
        assert phase[..0] == issued;
        QueriesChangeNothing(s0, issued);
      } else if failAt == Some(1) {
        ok, issued := false, [Connect];
        assert phase[..1] == issued;
        QueriesChangeNothing(s0, issued);
      } else {
        var tableCount := if db.tableExists then 1 else 0;
        if tableCount != 0 {
          ok, issued := true, [Connect, CheckTable];
          assert phase == issued;
          QueriesChangeNothing(s0, issued);
        } else if failAt == Some(2) {
          ok, issued := false, [Connect, CheckTable];
          assert phase[..2] == issued;
          QueriesChangeNothing(s0, issued);
        } else {
          db.tableExists, db.columns, db.rows, db.nextId := true, PrimaryColumns, [], 1;
          ok, issued := true, [Connect, CheckTable] + [Execute(CreateTable)];
          assert phase == issued;
          QueriesThen(s0, [Connect, CheckTable], CreateTable);
        }
      }
    }

    /** For each catalog entry in order, make sure its column exists. */
    method ColumnPhase(db: TechniciansDb, failAt: Option<nat>) returns (ok: bool, issued: seq<Command>)
      requires db.tableExists
      modifies db
      ensures db.tableExists && db.rows == old(db.rows) && db.nextId == old(db.nextId)
      ensures PhaseDone(old(db.State()), ColumnScript(old(db.columns), catalog), failAt, ok, issued, db.State())
    {
      ghost var s0 := db.State();
      ghost var phase := ColumnScript(db.columns, catalog);
      issued := [];
      assert catalog[0..] == catalog;

      var i := 0;
      while i < |catalog|
        invariant 0 <= i <= |catalog|
        invariant db.tableExists && db.rows == s0.rows && db.nextId == s0.nextId
        invariant phase == issued + ColumnScript(db.columns, catalog[i..])
        invariant db.State() == Apply(s0, Actions(issued))
        invariant failAt.None? || failAt.value >= |issued|
      {
        ghost var step := ColumnScript(db.columns, [catalog[i]]);
        ghost var rest := ColumnScript(db.columns + {catalog[i].name}, catalog[i + 1..]);
        ColumnSuffixStep(db.columns, catalog, i);
        Regroup(phase, issued, step, rest);
        var stepOk, stepIssued := EnsureColumn(db, catalog[i], Shift(failAt, |issued|));
        ComposePhases(s0, issued, step, failAt, stepOk, stepIssued, db.State());
        if !stepOk {
          FailedPhaseExtends(s0, issued + step, rest, failAt, issued + stepIssued, db.State());
          return false, issued + stepIssued;
        }
        issued := issued + stepIssued;
        i := i + 1;
      }
      assert issued == phase;
      ok := true;
    }

    /** Check whether `column` exists and add it when it does not. */
    method EnsureColumn(db: TechniciansDb, column: Column, failAt: Option<nat>) returns (ok: bool, issued: seq<Command>)
      requires db.tableExists
      modifies db
      ensures db.tableExists && db.rows == old(db.rows) && db.nextId == old(db.nextId)
      ensures ok ==> db.columns == old(db.columns) + {column.name}
      ensures PhaseDone(old(db.State()), ColumnScript(old(db.columns), [column]), failAt, ok, issued, db.State())
    {
      ghost var s0 := db.State();
      ghost var phase := ColumnScript(db.columns, [column]);
      ColumnScriptOne(db.columns, column);
      if failAt == Some(0) {
        ok, issued := false, [];
        assert phase[..0] == issued;
        QueriesChangeNothing(s0, issued);
      } else {
        var columnExists := if column.name in db.columns then 1 else 0;
        if columnExists != 0 {
          ok, issued := true, [CheckColumn(column.name)];
          assert phase == issued;
          assert db.columns + {column.name} == db.columns;
          QueriesChangeNothing(s0, issued);
        } else if failAt == Some(1) {
          ok, issued := false, [CheckColumn(column.name)];
          assert phase[..1] == issued;
          QueriesChangeNothing(s0, issued);
        } else {
          db.columns := db.columns + {column.name};
          ok, issued := true, [CheckColumn(column.name)] + [Execute(AddColumn(column))];
          assert phase == issued;
          QueriesThen(s0, [CheckColumn(column.name)], AddColumn(column));
        }
      }
    }

    /** Count the rows and insert the two seed rows into an empty table. */
    method SeedPhase(db: TechniciansDb, failAt: Option<nat>, now: Timestamp) returns (ok: bool, issued: seq<Command>)
      requires db.tableExists
      modifies db
      ensures PhaseDone(old(db.State()), SeedScript(old(db.rows), now), failAt, ok, issued, db.State())
    {
      ghost var s0 := db.State();
      ghost var phase := SeedScript(db.rows, now);
      if failAt == Some(0) {
        ok, issued := false, [];
        assert phase[..0] == issued;
        QueriesChangeNothing(s0, issued);
      } else {
        var rowCount := |db.rows|;
        if rowCount != 0 {
          ok, issued := true, [CountRows];
          assert phase == issued;
          QueriesChangeNothing(s0, issued);
        } else if failAt == Some(1) {
          ok, issued := false, [CountRows];
          assert phase[..1] == issued;
          QueriesChangeNothing(s0, issued);
        } else {
          db.rows, db.nextId := db.rows + SeedRows(db.nextId, now), db.nextId + 2;
          ok, issued := true, [CountRows] + [Execute(InsertSeedRows(now))];
          assert phase == issued;
          QueriesThen(s0, [CountRows], InsertSeedRows(now));
        }
      }
    }

    /** Every tenant database. */
    ghost function Databases(): set<TechniciansDb> {
      set cs | cs in tenants :: tenants[cs]
    }

    /** The state of each tenant database, by connection string. */
    ghost function States(): map<string, DbState>
      reads Databases()
    {
      map cs | cs in tenants :: tenants[cs].State()
    }

    ghost predicate TenantsValid()
      reads Databases()
    {
      forall cs :: cs in tenants ==> tenants[cs].Valid()
    }

    /** The tenant databases some non-empty registry entry reaches. */
    ghost function Registered(): set<TechniciansDb> {
      set cs | cs in tenants && cs != "" && Some(cs) in registry :: tenants[cs]
    }

    /**
     * `GetTenantConnectionStrings`: read the registry row by row and keep each
     * connection string that is neither null nor empty. Opening the master database
     * or running the query may throw, and the exception escapes.
     */
    method GetTenantConnectionStrings(registryFails: bool) returns (r: Outcome<seq<string>>)
      ensures registryFails ==> r == Threw(SqlError)
      ensures !registryFails ==> r == Returned(KeepNonEmpty(registry))
    {
      if registryFails {
        return Threw(SqlError);
      }
      var result: seq<string> := [];
      var i := 0;
      while i < |registry|
        invariant 0 <= i <= |registry|
        invariant result == KeepNonEmpty(registry[..i])
      {
        assert registry[..i + 1][..i] == registry[..i];
        var connectionString := registry[i];
        if connectionString.Some? && connectionString.value != "" {
          result := result + [connectionString.value];
        }
        i := i + 1;
      }
      assert registry[..i] == registry;
      r := Returned(result);
    }

    /**
     * `BuildTenantDatabases`: reconcile every registered tenant database in turn. A
     * failure in one tenant (`faults(k)` is where the run for the `k`-th string
     * throws) is caught and the loop moves on; a failure to read the registry escapes.
     * `processed` records which branch of the try block was taken.
     */
    method BuildTenantDatabases(registryFails: bool, faults: nat -> Option<nat>, now: Timestamp)
      returns (r: Outcome<seq<TenantOutcome>>)
      requires TenantsValid()
      modifies Registered()
      ensures TenantsValid() && Grew(old(States()), States())
      ensures registryFails <==> r.Threw?
      ensures r.Threw? ==> r.fault == SqlError && States() == old(States())
      ensures r.Returned? ==>
        var strings := KeepNonEmpty(registry);
        && |r.value| == |strings|
        && ReportsAll(r.value, strings, tenants.Keys, faults, catalog)
        && ProcessedAreReconciled(r.value, States(), catalog)
    {
      var listed := GetTenantConnectionStrings(registryFails);
      if listed.Threw? {
        return Threw(listed.fault);
      }
      var strings := listed.value;
      var outcomes: seq<TenantOutcome> := [];
      var k := 0;
      while k < |strings|
        invariant 0 <= k <= |strings| && |outcomes| == k
        invariant TenantsValid() && Grew(old(States()), States())
        invariant ReportsAll(outcomes, strings, tenants.Keys, faults, catalog)
        invariant ProcessedAreReconciled(outcomes, States(), catalog)
      {
        var connectionString := strings[k];
        if connectionString in tenants {
          assert connectionString in KeepNonEmpty(registry);
          assert tenants[connectionString] in Registered();
        }
        ghost var before := States();
        var processed := BuildTenant(connectionString, faults(k), now);
        GrewTransitive(old(States()), before, States());
        StayReconciled(outcomes, before, States(), catalog);
        ReportProcessed(outcomes, TenantOutcome(connectionString, processed), States(), catalog);
        ReportNext(outcomes, TenantOutcome(connectionString, processed), strings, tenants.Keys, faults, catalog);
        outcomes := outcomes + [TenantOutcome(connectionString, processed)];
        k := k + 1;
      }
      r := Returned(outcomes);
    }

    /**
     * `BuildMasterDatabase`: reconcile the master database; a failure is caught and
     * logged, so `processed` is all the caller can tell.
     */
    method BuildMasterDatabase(failAt: Option<nat>, now: Timestamp) returns (processed: bool)
      requires master.Valid()
      modifies master
      ensures master.Valid() && Extends(old(master.State()), master.State())
      ensures processed <==> failAt.None? || failAt.value >= |Script(old(master.State()), catalog, now)|
      ensures processed ==> master.State() == Run(old(master.State()), catalog, now) && Reconciled(master.State(), catalog)
      ensures !processed ==> master.State() == Apply(old(master.State()), Actions(Script(old(master.State()), catalog, now)[..failAt.value]))
    {
      var issued;
      processed, issued := EnsureTechniciansTable(master, failAt, now);
    }

    /** One iteration of the tenant loop: reconcile the database `connectionString` reaches, catching any failure. */
    method BuildTenant(connectionString: string, fault: Option<nat>, now: Timestamp) returns (processed: bool)
      requires TenantsValid()
      modifies if connectionString in tenants then {tenants[connectionString]} else {}
      ensures TenantsValid() && Grew(old(States()), States())
      ensures processed ==> connectionString in tenants && Reconciled(States()[connectionString], catalog)
      ensures Reports(TenantOutcome(connectionString, processed), connectionString, connectionString in tenants, fault, catalog)
    {
      processed := false;
      if connectionString in tenants {
        var db := tenants[connectionString];
        ScriptLength(db.State(), catalog, now);
        var issued;
        processed, issued := EnsureTechniciansTable(db, fault, now);
        forall cs | cs in tenants
          ensures tenants[cs].Valid() && Extends(old(States())[cs], States()[cs])
        {
          if tenants[cs] != db {
            assert tenants[cs].State() == old(tenants[cs].State());
          }
        }
      }
    }
  }
}
