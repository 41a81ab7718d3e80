/** Migrations against engines that refuse some statements. */
module SchemaEngines {
  import opened Options
  import opened SchemaDiff

  datatype Engine = MySql | Postgres

  function PrimaryKeys(columns: seq<Column>): nat {
    if columns == [] then 0
    else PrimaryKeys(columns[..|columns| - 1]) + if columns[|columns| - 1].primaryKey then 1 else 0
  }

  /** A table cannot have two inline primary keys; MySQL does not let it have no column at all. */
  predicate Creatable(e: Engine, columns: seq<Column>) {
    PrimaryKeys(columns) <= 1 && (e.MySql? ==> columns != [])
  }

  lemma {:induction false} CountKeys(columns: seq<Column>)
    ensures PrimaryKeys(columns) == 0 <==> forall i :: 0 <= i < |columns| ==> !columns[i].primaryKey
    ensures PrimaryKeys(columns) <= 1
            <==> forall i, j :: 0 <= i < j < |columns| ==> !columns[i].primaryKey || !columns[j].primaryKey
    decreases |columns|
  {
    if columns != [] {
      var front := columns[..|columns| - 1];
      CountKeys(front);
      assert forall i :: 0 <= i < |front| ==> front[i] == columns[i];
    }
  }

  /** PostgreSQL refuses a table with two primary key columns and nothing else, MySQL also one without columns. */
  lemma CreatableExactly(e: Engine, columns: seq<Column>)
    ensures !Creatable(e, columns)
            <==> || (exists i, j :: 0 <= i < j < |columns| && columns[i].primaryKey && columns[j].primaryKey)
                 || (e.MySql? && columns == [])
  {
    CountKeys(columns);
  }

  predicate Refuses(e: Engine, ddl: Ddl, l: Layout) {
    match ddl
    case CreateTable(_, columns) => !Creatable(e, columns)
    case DropColumn(t, name) => e.MySql? && t in l && l[t].Keys == {name}
    case _ => false
  }

  ghost function Exec(e: Engine, ddl: Ddl, l: Layout): Option<Layout> {
    if Refuses(e, ddl, l) then None else Apply(ddl, l)
  }

  ghost function ExecAll(e: Engine, ddls: seq<Ddl>, l: Layout): Option<Layout>
    decreases |ddls|
  {
    if ddls == [] then Some(l)
    else
      match Exec(e, ddls[0], l)
      case None => None
      case Some(next) => ExecAll(e, ddls[1..], next)
  }

  /** The statement is one that can be accepted on the way to the target: what it creates can be created, and a table
      it takes a column from has columns in the end. */
  ghost predicate Acceptable(e: Engine, ddl: Ddl, target: Layout) {
    match ddl
    case CreateTable(_, columns) => Creatable(e, columns)
    case DropColumn(t, _) => e.MySql? && t in target ==> target[t] != map[]
    case _ => true
  }

  ghost predicate AllAcceptable(e: Engine, ddls: seq<Ddl>, target: Layout) {
    forall ddl :: ddl in ddls ==> Acceptable(e, ddl, target)
  }

  /** A column that is there now and should not be is dropped sooner or later. */
  lemma DropAwaits(l: Layout, target: Layout, ddls: seq<Ddl>, t: string, c: string)
    requires Leads(l, target, ddls) && t in l && t in target && c in l[t] && c !in target[t]
    ensures DropColumn(t, c) in ddls
  {
    assert !Settled(l, target, t, c);
    var ddl :| ddl in ddls && (SpotOf(ddl) == Spot(t, None) || SpotOf(ddl) == Spot(t, Some(c)));
    assert Helps(l, target, ddl);
  }

  /** A column that is not there now and should be is added sooner or later. */
  lemma AddAwaits(l: Layout, target: Layout, ddls: seq<Ddl>, t: string, c: string)
    requires Leads(l, target, ddls) && t in l && t in target && c !in l[t] && c in target[t]
    ensures exists ddl :: ddl in ddls && ddl.AddColumn? && ddl.table == t
  {
    assert !Settled(l, target, t, c);
    var ddl :| ddl in ddls && (SpotOf(ddl) == Spot(t, None) || SpotOf(ddl) == Spot(t, Some(c)));
    assert Helps(l, target, ddl);
  }

  lemma NoAdditionLater(ddls: seq<Ddl>, t: string)
    requires AddsFirst(ddls) && ddls != [] && ddls[0].DropColumn? && ddls[0].table == t
    ensures forall ddl :: ddl in ddls ==> !(ddl.AddColumn? && ddl.table == t)
  {
    forall ddl | ddl in ddls
      ensures !(ddl.AddColumn? && ddl.table == t)
    {
      var j :| 0 <= j < |ddls| && ddls[j] == ddl;
    }
  }

  /** Dropping a column of a table that keeps some is never dropping its last one, once all its additions are in. */
  lemma KeepsAColumn(l: Layout, target: Layout, ddls: seq<Ddl>, t: string, name: string)
    requires Leads(l, target, ddls) && AddsFirst(ddls) && ddls != [] && ddls[0] == DropColumn(t, name)
    requires t in l && t in target && target[t] != map[] && name in l[t] && name !in target[t]
    ensures l[t].Keys != {name}
  {
    NoAdditionLater(ddls, t);
    var c :| c in target[t];
    if c !in l[t] {
      AddAwaits(l, target, ddls, t, c);
    }
  }

  lemma AcceptableSplit(e: Engine, ddls: seq<Ddl>, target: Layout)
    requires ddls != []
    ensures AllAcceptable(e, ddls, target)
            <==> Acceptable(e, ddls[0], target) && AllAcceptable(e, ddls[1..], target)
  {
    assert forall ddl :: ddl in ddls <==> ddl == ddls[0] || ddl in ddls[1..];
  }

  /** Statements that lead to the target, additions first, run through exactly if each of them is acceptable. */
  lemma {:induction false} RunsExactly(e: Engine, l: Layout, target: Layout, ddls: seq<Ddl>)
    requires Leads(l, target, ddls) && AddsFirst(ddls)
    ensures ExecAll(e, ddls, l) == if AllAcceptable(e, ddls, target) then Some(target) else None
    decreases |ddls|
  {
    if ddls == [] {
      LeadsThere(l, target, ddls);
    } else {
      AfterFirst(l, target, ddls);
      var next, rest := Apply(ddls[0], l).value, ddls[1..];
      assert forall j :: 0 <= j < |rest| ==> rest[j] == ddls[j + 1];
      RunsExactly(e, next, target, rest);
      AcceptableSplit(e, ddls, target);
      FirstRefused(e, l, target, ddls);
    }
  }

  /** The first statement is refused, or one after it is going to be, if it is not acceptable; and only then. */
  lemma FirstRefused(e: Engine, l: Layout, target: Layout, ddls: seq<Ddl>)
    requires Leads(l, target, ddls) && AddsFirst(ddls) && ddls != [] && Apply(ddls[0], l).Some?
    requires Leads(Apply(ddls[0], l).value, target, ddls[1..])
    ensures Acceptable(e, ddls[0], target) ==> !Refuses(e, ddls[0], l)
    ensures !Acceptable(e, ddls[0], target) ==> Refuses(e, ddls[0], l) || !AllAcceptable(e, ddls[1..], target)
  {
    assert Helps(l, target, ddls[0]);
    if ddls[0].DropColumn? && e.MySql? {
      var t, name := ddls[0].table, ddls[0].name;
      if target[t] != map[] {
        KeepsAColumn(l, target, ddls, t, name);
      } else if l[t].Keys != {name} {
        var next := Apply(ddls[0], l).value;
        var c := AnotherKey(l[t].Keys, name);
        DropAwaits(next, target, ddls[1..], t, c);
      }
    }
  }

  lemma AnotherKey(keys: set<string>, name: string) returns (c: string)
    requires name in keys && keys != {name}
    ensures c in keys && c != name
  {
    assert keys - {name} != {};
    c :| c in keys - {name};
  }

  // ---------------------------------------------------------------- Up

  /** What a migration needs to be accepted: created tables that can be created, and, on MySQL, columns left in every
      table that loses some. */
  ghost predicate Accepted(e: Engine, target: Schema, changes: seq<Change>) {
    forall change :: change in changes ==> Acceptable(e, change.sql, LayoutOf(target))
  }

  /** The changes that Diff returns, in its order: they run through exactly if nothing in them has to be refused, and
      then give the target's tables, columns and types. */
  lemma UpTheorem(e: Engine, current: Schema, target: Schema, changes: seq<Change>)
    requires WellFormed(current) && WellFormed(target) && IsDiff(current, target, changes)
    requires AddsFirst(Statements(changes))
    ensures ExecAll(e, Statements(changes), LayoutOf(current))
         == if Accepted(e, target, changes) then Some(LayoutOf(target)) else None
  {
    DiffLeads(current, target, changes);
    RunsExactly(e, LayoutOf(current), LayoutOf(target), Statements(changes));
    forall ddl
      ensures ddl in Statements(changes) <==> exists change :: change in changes && change.sql == ddl
    {
      StatementsOf(changes, ddl);
    }
  }

  // ---------------------------------------------------------------- Down

  /** The table has a column by the same name before and after. */
  ghost predicate SharesAColumn(current: Schema, target: Schema, t: string) {
    exists c :: t in LayoutOf(current) && t in LayoutOf(target) && c in LayoutOf(current)[t] && c in LayoutOf(target)[t]
  }

  /** On MySQL, every table that got a column had one that it kept. */
  ghost predicate Undoable(e: Engine, current: Schema, target: Schema, changes: seq<Change>) {
    e.MySql? ==>
      forall change :: change in changes && change.sql.AddColumn? ==> SharesAColumn(current, target, change.sql.table)
  }

  /** The generated Down after Up runs through exactly if it never takes a last column; then it restores the tables,
      columns and types there were exactly when no change dropped anything or changed a type, in particular when all
      changes are additions. */
  lemma DownTheorem(e: Engine, current: Schema, target: Schema, changes: seq<Change>)
    requires WellFormed(current) && WellFormed(target) && IsDiff(current, target, changes)
    ensures var undone := ExecAll(e, Down(changes), LayoutOf(target));
            && (undone.Some? <==> Undoable(e, current, target, changes))
            && (undone.Some? ==>
                  (undone.value == LayoutOf(current)
                   <==> forall change :: change in changes ==> !Loses(current, target, change)))
  {
    var goal := Common(LayoutOf(current), LayoutOf(target));
    DownLeads(current, target, changes);
    DownOnlyDrops(current, target, changes);
    RunsExactly(e, LayoutOf(target), goal, Down(changes));
    LeadsThere(LayoutOf(target), goal, Down(changes));
    DownReaches(current, target, changes);
    DownAcceptable(e, current, target, changes);
  }

  lemma DownOnlyDrops(current: Schema, target: Schema, changes: seq<Change>)
    requires WellFormed(current) && WellFormed(target) && IsDiff(current, target, changes)
    ensures forall ddl :: ddl in Down(changes) ==> ddl.DropTable? || ddl.DropColumn?
    ensures AddsFirst(Down(changes))
  {
    forall ddl | ddl in Down(changes)
      ensures ddl.DropTable? || ddl.DropColumn?
    {
      DownMembers(changes, ddl);
      var change :| change in changes && change.reversible && change.reverse == Some(ddl);
      WantedHelps(current, target, change);
    }
    forall j | 0 <= j < |Down(changes)|
      ensures !Down(changes)[j].AddColumn?
    {
      assert Down(changes)[j] in Down(changes);
    }
  }

  /** An added column is dropped again, which is acceptable exactly if the table has another to keep. */
  lemma AddIsDropped(e: Engine, current: Schema, target: Schema, changes: seq<Change>, change: Change)
    requires WellFormed(current) && WellFormed(target) && IsDiff(current, target, changes)
    requires change in changes && change.sql.AddColumn?
    ensures var drop := DropColumn(change.sql.table, change.sql.column.name);
            && drop in Down(changes)
            && (Acceptable(e, drop, Common(LayoutOf(current), LayoutOf(target)))
                <==> (e.MySql? ==> SharesAColumn(current, target, change.sql.table)))
  {
    AddIsReversed(current, target, change);
    DownMembers(changes, DropColumn(change.sql.table, change.sql.column.name));
    DropKeepsShared(e, current, target, change.sql.table, change.sql.column.name);
  }

  lemma DropKeepsShared(e: Engine, current: Schema, target: Schema, t: string, name: string)
    requires t in LayoutOf(current) && t in LayoutOf(target)
    ensures Acceptable(e, DropColumn(t, name), Common(LayoutOf(current), LayoutOf(target)))
            <==> (e.MySql? ==> SharesAColumn(current, target, t))
  {
    SharedIsCommon(current, target, t);
  }

  /** What Down drops was created or added by the migration. */
  lemma DropWasAdded(current: Schema, target: Schema, changes: seq<Change>, ddl: Ddl)
    requires WellFormed(current) && WellFormed(target) && IsDiff(current, target, changes) && ddl in Down(changes)
    ensures ddl.DropTable?
            || exists change :: change in changes && change.sql.AddColumn?
                                && ddl == DropColumn(change.sql.table, change.sql.column.name)
  {
    DownMembers(changes, ddl);
    var change :| change in changes && change.reversible && change.reverse == Some(ddl);
    WantedHelps(current, target, change);
  }

  lemma DownAcceptable(e: Engine, current: Schema, target: Schema, changes: seq<Change>)
    requires WellFormed(current) && WellFormed(target) && IsDiff(current, target, changes)
    ensures AllAcceptable(e, Down(changes), Common(LayoutOf(current), LayoutOf(target)))
            <==> Undoable(e, current, target, changes)
  {
    var goal := Common(LayoutOf(current), LayoutOf(target));
    if AllAcceptable(e, Down(changes), goal) {
      forall change | e.MySql? && change in changes && change.sql.AddColumn?
        ensures SharesAColumn(current, target, change.sql.table)
      {
        AddIsDropped(e, current, target, changes, change);
      }
    }
    if Undoable(e, current, target, changes) {
      forall ddl | ddl in Down(changes)
        ensures Acceptable(e, ddl, goal)
      {
        DropWasAdded(current, target, changes, ddl);
        if !ddl.DropTable? {
          var change :| change in changes && change.sql.AddColumn?
                        && ddl == DropColumn(change.sql.table, change.sql.column.name);
          AddIsDropped(e, current, target, changes, change);
        }
      }
    }
  }

  lemma AddIsReversed(current: Schema, target: Schema, change: Change)
    requires WellFormed(current) && WellFormed(target) && Wanted(current, target, change) && change.sql.AddColumn?
    ensures change.reversible && change.reverse == Some(DropColumn(change.sql.table, change.sql.column.name))
    ensures change.sql.table in LayoutOf(current) && change.sql.table in LayoutOf(target)
  {
    WantedHelps(current, target, change);
  }

  lemma SharedIsCommon(current: Schema, target: Schema, t: string)
    requires t in LayoutOf(current) && t in LayoutOf(target)
    ensures var goal := Common(LayoutOf(current), LayoutOf(target));
            t in goal && (goal[t] != map[] <==> SharesAColumn(current, target, t))
  {
    var shared := Common(LayoutOf(current), LayoutOf(target))[t];
    if shared != map[] {
      var c :| c in shared;
      assert c in LayoutOf(current)[t] && c in LayoutOf(target)[t];
    }
    if SharesAColumn(current, target, t) {
      var c :| c in LayoutOf(current)[t] && c in LayoutOf(target)[t];
      assert c in shared;
    }
  }

  // ---------------------------------------------------------------- A table whose columns are all replaced

  function OneTable(t: string, a: Column): Schema {
    map[t := Table(t, [a])]
  }

  lemma OneTableLayout(t: string, a: Column)
    ensures WellFormed(OneTable(t, a)) && LayoutOf(OneTable(t, a)).Keys == {t}
    ensures LayoutOf(OneTable(t, a))[t].Keys == {a.name}
  {
    OneColumn(a);
  }

  lemma ReplacementIsWanted(t: string, a: Column, b: Column)
    requires a.name != b.name
    ensures Wanted(OneTable(t, a), OneTable(t, b), AddColumnChange(t, b))
  {
    OneColumn(a);
    OneColumn(b);
    assert WantedInCommon(OneTable(t, a), OneTable(t, b), t, AddColumnChange(t, b));
  }

  /** The one column of a table replaced by another: on MySQL, Up runs through and the generated Down fails. */
  lemma ReplacedColumnCannotBeUndone(t: string, a: Column, b: Column, changes: seq<Change>)
    requires a.name != b.name
    requires IsDiff(OneTable(t, a), OneTable(t, b), changes) && AddsFirst(Statements(changes))
    ensures ExecAll(MySql, Statements(changes), LayoutOf(OneTable(t, a))) == Some(LayoutOf(OneTable(t, b)))
    ensures ExecAll(MySql, Down(changes), LayoutOf(OneTable(t, b))) == None
  {
    OneTableLayout(t, a);
    OneTableLayout(t, b);
    ReplacementIsAccepted(t, a, b, changes);
    ReplacementIsNotUndoable(t, a, b, changes);
    UpTheorem(MySql, OneTable(t, a), OneTable(t, b), changes);
    DownTheorem(MySql, OneTable(t, a), OneTable(t, b), changes);
  }

  lemma ReplacementIsAccepted(t: string, a: Column, b: Column, changes: seq<Change>)
    requires IsDiff(OneTable(t, a), OneTable(t, b), changes)
    ensures Accepted(MySql, OneTable(t, b), changes)
  {
    OneTableLayout(t, a);
    OneTableLayout(t, b);
    assert b.name in LayoutOf(OneTable(t, b))[t];
    CommonTablesAccepted(OneTable(t, a), OneTable(t, b), changes);
  }

  lemma ReplacementIsNotUndoable(t: string, a: Column, b: Column, changes: seq<Change>)
    requires a.name != b.name && IsDiff(OneTable(t, a), OneTable(t, b), changes)
    ensures !Undoable(MySql, OneTable(t, a), OneTable(t, b), changes)
  {
    OneTableLayout(t, a);
    OneTableLayout(t, b);
    ReplacementIsWanted(t, a, b);
    assert AddColumnChange(t, b) in changes && !SharesAColumn(OneTable(t, a), OneTable(t, b), t);
  }

  /** Between tables that are there before and after, and have columns after, every change is accepted. */
  lemma CommonTablesAccepted(current: Schema, target: Schema, changes: seq<Change>)
    requires WellFormed(current) && WellFormed(target) && IsDiff(current, target, changes)
    requires current.Keys == target.Keys && forall t :: t in target ==> LayoutOf(target)[t] != map[]
    ensures Accepted(MySql, target, changes)
  {
    forall change | change in changes
      ensures Acceptable(MySql, change.sql, LayoutOf(target))
    {
      WantedHelps(current, target, change);
    }
  }

  lemma OneColumn(a: Column)
    ensures ColumnMap([a]).Keys == {a.name} && ColumnMap([a])[a.name] == a
  {
    assert [a][..0] == [];
    assert ColumnMap([a][..0]) == map[];
  }
}
