/** Comparing two schemas, and running the resulting migration forward and backward. */
module SchemaDiff {
  import opened Options

  datatype Column = Column(name: string, kind: string, nullable: bool, default: string, primaryKey: bool,
                           autoIncrement: bool)

  datatype Table = Table(name: string, columns: seq<Column>)

  type Schema = map<string, Table>

  /** The statements of a migration. */
  datatype Ddl =
    | CreateTable(table: string, columns: seq<Column>)
    | DropTable(table: string)
    | AddColumn(table: string, column: Column)
    | DropColumn(table: string, name: string)
    | ModifyColumn(table: string, name: string, kind: string)

  datatype Change = Change(sql: Ddl, reversible: bool, reverse: Option<Ddl>)

  // ---------------------------------------------------------------- The database, by names and types

  /** Table name to column name to type. */
  type Layout = map<string, map<string, string>>

  /** Reading a column list into a map; of two columns with one name the later wins. */
  function ColumnMap(columns: seq<Column>): map<string, Column> {
    if columns == [] then map[]
    else
      var last := columns[|columns| - 1];
      ColumnMap(columns[..|columns| - 1])[last.name := last]
  }

  function Kinds(columns: map<string, Column>): map<string, string> {
    map n | n in columns :: columns[n].kind
  }

  ghost predicate DistinctNames(columns: seq<Column>) {
    forall i, j :: 0 <= i < j < |columns| ==> columns[i].name != columns[j].name
  }

  function LayoutOf(s: Schema): Layout {
    map n | n in s :: Kinds(ColumnMap(s[n].columns))
  }

  /** A statement fails when what it creates exists, or what it changes does not. */
  ghost function Apply(ddl: Ddl, l: Layout): Option<Layout> {
    match ddl
    case CreateTable(t, columns) =>
      if t in l || !DistinctNames(columns) then None else Some(l[t := Kinds(ColumnMap(columns))])
    case DropTable(t) =>
      if t !in l then None else Some(l - {t})
    case AddColumn(t, column) =>
      if t !in l || column.name in l[t] then None else Some(l[t := l[t][column.name := column.kind]])
    case DropColumn(t, name) =>
      if t !in l || name !in l[t] then None else Some(l[t := l[t] - {name}])
    case ModifyColumn(t, name, kind) =>
      if t !in l || name !in l[t] then None else Some(l[t := l[t][name := kind]])
  }

  ghost function ApplyAll(ddls: seq<Ddl>, l: Layout): Option<Layout>
    decreases |ddls|
  {
    if ddls == [] then Some(l)
    else
      match Apply(ddls[0], l)
      case None => None
      case Some(next) => ApplyAll(ddls[1..], next)
  }

  // ---------------------------------------------------------------- Statements that lead from one layout to another

  datatype Spot = Spot(table: string, column: Option<string>)

  function SpotOf(ddl: Ddl): Spot {
    match ddl
    case CreateTable(t, _) => Spot(t, None)
    case DropTable(t) => Spot(t, None)
    case AddColumn(t, column) => Spot(t, Some(column.name))
    case DropColumn(t, name) => Spot(t, Some(name))
    case ModifyColumn(t, name, _) => Spot(t, Some(name))
  }

  /** The statement moves the layout towards the target. */
  ghost predicate Helps(l: Layout, target: Layout, ddl: Ddl) {
    match ddl
    case CreateTable(t, columns) =>
      t !in l && t in target && DistinctNames(columns) && Kinds(ColumnMap(columns)) == target[t]
    case DropTable(t) =>
      t in l && t !in target
    case AddColumn(t, column) =>
      t in l && t in target && column.name !in l[t] && column.name in target[t] && column.kind == target[t][column.name]
    case DropColumn(t, name) =>
      t in l && t in target && name in l[t] && name !in target[t]
    case ModifyColumn(t, name, kind) =>
      t in l && t in target && name in l[t] && name in target[t] && kind == target[t][name]
  }

  ghost predicate Settled(l: Layout, target: Layout, t: string, c: string) {
    (t in l <==> t in target)
    && (t in l && t in target ==>
          (c in l[t] <==> c in target[t]) && (c in l[t] && c in target[t] ==> l[t][c] == target[t][c]))
  }

  ghost predicate Mentions(ddls: seq<Ddl>, t: string, c: string) {
    exists ddl :: ddl in ddls && (SpotOf(ddl) == Spot(t, None) || SpotOf(ddl) == Spot(t, Some(c)))
  }

  ghost predicate DistinctSpots(ddls: seq<Ddl>) {
    forall i, j :: 0 <= i < j < |ddls| ==> SpotOf(ddls[i]) != SpotOf(ddls[j])
  }

  /** Helpful statements in different places, one wherever the layout is not yet as it should be. */
  ghost predicate Leads(l: Layout, target: Layout, ddls: seq<Ddl>) {
    && DistinctSpots(ddls)
    && (forall ddl :: ddl in ddls ==> Helps(l, target, ddl))
    && (forall t, c :: !Settled(l, target, t, c) ==> Mentions(ddls, t, c))
  }

  /** A helpful statement succeeds and settles its own spot. */
  lemma HelpfulApplies(l: Layout, target: Layout, ddl: Ddl)
    requires Helps(l, target, ddl)
    ensures Apply(ddl, l).Some?
    ensures var next := Apply(ddl, l).value;
            forall t, c :: SpotOf(ddl) == Spot(t, None) || SpotOf(ddl) == Spot(t, Some(c)) ==>
              Settled(next, target, t, c)
  {
  }

  /** It leaves every other spot as it was. */
  lemma OtherSpots(l: Layout, target: Layout, ddl: Ddl, t: string, c: string)
    requires Helps(l, target, ddl) && Apply(ddl, l).Some?
    requires SpotOf(ddl) != Spot(t, None) && SpotOf(ddl) != Spot(t, Some(c))
    ensures Settled(Apply(ddl, l).value, target, t, c) <==> Settled(l, target, t, c)
  {
  }

  lemma OtherHelps(l: Layout, target: Layout, ddl: Ddl, other: Ddl)
    requires Helps(l, target, ddl) && Helps(l, target, other) && SpotOf(ddl) != SpotOf(other) && Apply(ddl, l).Some?
    ensures Helps(Apply(ddl, l).value, target, other)
  {
  }

  lemma AllSettled(l: Layout, target: Layout)
    requires forall t, c :: Settled(l, target, t, c)
    ensures l == target
  {
    forall t
      ensures t in l <==> t in target
    {
      assert Settled(l, target, t, "");
    }
    forall t | t in l
      ensures l[t] == target[t]
    {
      forall c
        ensures (c in l[t] <==> c in target[t]) && (c in l[t] ==> l[t][c] == target[t][c])
      {
        assert Settled(l, target, t, c);
      }
    }
  }

  lemma AfterFirst(l: Layout, target: Layout, ddls: seq<Ddl>)
    requires Leads(l, target, ddls) && ddls != []
    ensures Apply(ddls[0], l).Some? && Leads(Apply(ddls[0], l).value, target, ddls[1..])
  {
    assert ddls[0] in ddls;
    HelpfulApplies(l, target, ddls[0]);
    var next := Apply(ddls[0], l).value;
    forall ddl | ddl in ddls[1..]
      ensures Helps(next, target, ddl)
    {
      var i :| 1 <= i < |ddls| && ddls[i] == ddl;
      OtherHelps(l, target, ddls[0], ddl);
    }
    forall t, c | !Settled(next, target, t, c)
      ensures Mentions(ddls[1..], t, c)
    {
      OtherSpots(l, target, ddls[0], t, c);
      var ddl :| ddl in ddls && (SpotOf(ddl) == Spot(t, None) || SpotOf(ddl) == Spot(t, Some(c)));
      assert ddl != ddls[0];
      var i :| 0 <= i < |ddls| && ddls[i] == ddl;
      assert ddls[1..][i - 1] == ddl;
    }
  }

  /** In whatever order they come, such statements all succeed and reach the target. */
  lemma {:induction false} LeadsThere(l: Layout, target: Layout, ddls: seq<Ddl>)
    requires Leads(l, target, ddls)
    ensures ApplyAll(ddls, l) == Some(target)
    decreases |ddls|
  {
    if ddls == [] {
      forall t, c
        ensures Settled(l, target, t, c)
      {
        assert !Mentions(ddls, t, c);
      }
      AllSettled(l, target);
    } else {
      AfterFirst(l, target, ddls);
      LeadsThere(Apply(ddls[0], l).value, target, ddls[1..]);
    }
  }

  // ---------------------------------------------------------------- The changes

  function CreateTableChange(t: Table): Change {
    Change(CreateTable(t.name, t.columns), true, Some(DropTable(t.name)))
  }

  function DropTableChange(t: Table): Change {
    Change(DropTable(t.name), false, None)
  }

  function AddColumnChange(table: string, c: Column): Change {
    Change(AddColumn(table, c), true, Some(DropColumn(table, c.name)))
  }

  function DropColumnChange(table: string, c: Column): Change {
    Change(DropColumn(table, c.name), false, None)
  }

  /** Marked reversible, but no reverse statement is filled in. */
  function ModifyColumnChange(table: string, c: Column): Change {
    Change(ModifyColumn(table, c.name, c.kind), true, None)
  }

  predicate ColumnChanged(old_: Column, new_: Column) {
    old_.kind != new_.kind || old_.nullable != new_.nullable || old_.default != new_.default
  }

  ghost predicate WantedInTable(table: string, current: map<string, Column>, target: map<string, Column>,
                                change: Change)
  {
    || (exists n :: n in target && n !in current && change == AddColumnChange(table, target[n]))
    || (exists n :: n in current && n !in target && change == DropColumnChange(table, current[n]))
    || (exists n :: n in current && n in target && ColumnChanged(current[n], target[n])
                    && change == ModifyColumnChange(table, target[n]))
  }

  ghost predicate Wanted(current: Schema, target: Schema, change: Change) {
    || (exists n :: n in target && n !in current && change == CreateTableChange(target[n]))
    || (exists n :: n in current && n !in target && change == DropTableChange(current[n]))
    || (exists n :: WantedInCommon(current, target, n, change))
  }

  ghost predicate WantedInCommon(current: Schema, target: Schema, n: string, change: Change) {
    n in current && n in target
    && WantedInTable(target[n].name, ColumnMap(current[n].columns), ColumnMap(target[n].columns), change)
  }

  function Statements(changes: seq<Change>): seq<Ddl> {
    seq(|changes|, i requires 0 <= i < |changes| => changes[i].sql)
  }

  /** What Diff returns: every wanted change once, in some order. */
  ghost predicate IsDiff(current: Schema, target: Schema, changes: seq<Change>) {
    && (forall change :: change in changes <==> Wanted(current, target, change))
    && DistinctSpots(Statements(changes))
  }

  /** Of one table, columns are added before columns are dropped. */
  ghost predicate AddsFirst(ddls: seq<Ddl>) {
    forall i, j :: 0 <= i < j < |ddls| && ddls[i].DropColumn? && ddls[j].AddColumn? ==> ddls[i].table != ddls[j].table
  }

  /** Schemas as GetCurrentSchema produces them: keyed by name, no column twice. Reading the models gives such a schema
      too, unless an embedded struct and a field beside it name the same column. */
  ghost predicate WellFormed(s: Schema) {
    forall n :: n in s ==> s[n].name == n && DistinctNames(s[n].columns)
  }

  lemma {:induction false} ColumnMapNames(columns: seq<Column>, n: string)
    ensures n in ColumnMap(columns) ==> ColumnMap(columns)[n].name == n
    decreases |columns|
  {
    if columns != [] {
      ColumnMapNames(columns[..|columns| - 1], n);
    }
  }

  lemma StatementsOf(changes: seq<Change>, ddl: Ddl)
    ensures ddl in Statements(changes) <==> exists change :: change in changes && change.sql == ddl
  {
    if ddl in Statements(changes) {
      var i :| 0 <= i < |changes| && Statements(changes)[i] == ddl;
      assert changes[i] in changes;
    }
    if change :| change in changes && change.sql == ddl {
      var i :| 0 <= i < |changes| && changes[i] == change;
      assert Statements(changes)[i] == ddl;
    }
  }

  /** What a wanted change of a common table is about. */
  lemma WantedColumn(current: Schema, target: Schema, n: string, change: Change)
    requires WellFormed(current) && WellFormed(target) && n in current && n in target
    requires WantedInTable(n, ColumnMap(current[n].columns), ColumnMap(target[n].columns), change)
    ensures Helps(LayoutOf(current), LayoutOf(target), change.sql)
    ensures change.reverse.Some? ==>
      change.sql.AddColumn? && change.reverse.value == DropColumn(n, change.sql.column.name)
    ensures change.sql.AddColumn? || change.sql.DropColumn? || change.sql.ModifyColumn?
  {
    var cols, want := ColumnMap(current[n].columns), ColumnMap(target[n].columns);
    assert LayoutOf(current)[n] == Kinds(cols) && LayoutOf(target)[n] == Kinds(want);
    if c :| c in want && c !in cols && change == AddColumnChange(n, want[c]) {
      ColumnMapNames(target[n].columns, c);
    } else if c :| c in cols && c !in want && change == DropColumnChange(n, cols[c]) {
      ColumnMapNames(current[n].columns, c);
    } else {
      var c :| c in cols && c in want && ColumnChanged(cols[c], want[c]) && change == ModifyColumnChange(n, want[c]);
      ColumnMapNames(target[n].columns, c);
    }
  }

  lemma {:induction false} WantedHelps(current: Schema, target: Schema, change: Change)
    requires WellFormed(current) && WellFormed(target) && Wanted(current, target, change)
    ensures Helps(LayoutOf(current), LayoutOf(target), change.sql)
    ensures change.reverse.Some? ==>
              || (change.sql.CreateTable? && change.reverse.value == DropTable(change.sql.table))
              || (change.sql.AddColumn? && change.reverse.value == DropColumn(change.sql.table, change.sql.column.name))
  {
    if n :| n in target && n !in current && change == CreateTableChange(target[n]) {
      assert LayoutOf(target)[n] == Kinds(ColumnMap(target[n].columns));
    } else if n :| n in current && n !in target && change == DropTableChange(current[n]) {
      assert n in LayoutOf(current);
    } else {
      var n :| WantedInCommon(current, target, n, change);
      WantedColumn(current, target, n, change);
    }
  }

  /** Wherever the layouts differ, a change is wanted. */
  lemma DifferenceIsWanted(current: Schema, target: Schema, t: string, c: string)
    requires WellFormed(current) && WellFormed(target) && !Settled(LayoutOf(current), LayoutOf(target), t, c)
    ensures exists change :: Wanted(current, target, change)
              && (SpotOf(change.sql) == Spot(t, None) || SpotOf(change.sql) == Spot(t, Some(c)))
  {
    if t !in current {
      assert Wanted(current, target, CreateTableChange(target[t]));
    } else if t !in target {
      assert Wanted(current, target, DropTableChange(current[t]));
    } else {
      var cols, want := ColumnMap(current[t].columns), ColumnMap(target[t].columns);
      ColumnMapNames(current[t].columns, c);
      ColumnMapNames(target[t].columns, c);
      var change := if c !in cols then AddColumnChange(t, want[c])
                    else if c !in want then DropColumnChange(t, cols[c])
                    else ModifyColumnChange(t, want[c]);
      assert WantedInCommon(current, target, t, change);
      assert Wanted(current, target, change);
    }
  }

  lemma DiffLeads(current: Schema, target: Schema, changes: seq<Change>)
    requires WellFormed(current) && WellFormed(target) && IsDiff(current, target, changes)
    ensures Leads(LayoutOf(current), LayoutOf(target), Statements(changes))
  {
    var ddls := Statements(changes);
    forall ddl | ddl in ddls
      ensures Helps(LayoutOf(current), LayoutOf(target), ddl)
    {
      StatementsOf(changes, ddl);
      var change :| change in changes && change.sql == ddl;
      WantedHelps(current, target, change);
    }
    forall t, c | !Settled(LayoutOf(current), LayoutOf(target), t, c)
      ensures Mentions(ddls, t, c)
    {
      DifferenceIsWanted(current, target, t, c);
      var change :| Wanted(current, target, change)
                    && (SpotOf(change.sql) == Spot(t, None) || SpotOf(change.sql) == Spot(t, Some(c)));
      StatementsOf(changes, change.sql);
    }
  }

  /** In any order the maps yield, applying the changes gives the target's tables, columns and types. */
  lemma UpReaches(current: Schema, target: Schema, changes: seq<Change>)
    requires WellFormed(current) && WellFormed(target) && IsDiff(current, target, changes)
    ensures ApplyAll(Statements(changes), LayoutOf(current)) == Some(LayoutOf(target))
  {
    DiffLeads(current, target, changes);
    LeadsThere(LayoutOf(current), LayoutOf(target), Statements(changes));
  }

  /** Only drops are not marked reversible, and only creations and additions carry a reverse statement. */
  lemma ReversibleExactly(current: Schema, target: Schema, change: Change)
    requires Wanted(current, target, change)
    ensures change.reversible <==> !change.sql.DropTable? && !change.sql.DropColumn?
    ensures change.reverse.Some? <==> change.sql.CreateTable? || change.sql.AddColumn?
  {
  }

  // ---------------------------------------------------------------- When nothing has to change

  /** What the comparison looks at; primary keys and auto-increment are not compared. */
  ghost predicate Alike(a: Column, b: Column) {
    a.kind == b.kind && a.nullable == b.nullable && a.default == b.default
  }

  ghost predicate Modified(changes: seq<Change>, t: string, c: string) {
    exists change :: change in changes && change.sql.ModifyColumn? && change.sql.table == t && change.sql.name == c
  }

  /** A column of both schemas is modified exactly if its type, nullability or default differs. */
  lemma ModifiedExactly(current: Schema, target: Schema, changes: seq<Change>, t: string, c: string)
    requires WellFormed(current) && WellFormed(target) && IsDiff(current, target, changes)
    requires t in current && t in target
    requires c in ColumnMap(current[t].columns) && c in ColumnMap(target[t].columns)
    ensures Modified(changes, t, c)
            <==> !Alike(ColumnMap(current[t].columns)[c], ColumnMap(target[t].columns)[c])
  {
    var cols, want := ColumnMap(current[t].columns), ColumnMap(target[t].columns);
    ColumnMapNames(target[t].columns, c);
    if Modified(changes, t, c) {
      var change :| change in changes && change.sql.ModifyColumn? && change.sql.table == t && change.sql.name == c;
      assert Wanted(current, target, change);
      var n :| WantedInCommon(current, target, n, change);
      ModifiedColumn(current[n], target[n], change);
    }
    if !Alike(cols[c], want[c]) {
      var change := ModifyColumnChange(t, want[c]);
      assert WantedInTable(t, cols, want, change);
      assert WantedInCommon(current, target, t, change);
      assert Wanted(current, target, change);
    }
  }

  lemma ModifiedColumn(current: Table, target: Table, change: Change)
    requires WantedInTable(target.name, ColumnMap(current.columns), ColumnMap(target.columns), change)
    requires change.sql.ModifyColumn?
    ensures change.sql.table == target.name
    ensures var cols, want, c := ColumnMap(current.columns), ColumnMap(target.columns), change.sql.name;
            c in cols && c in want && !Alike(cols[c], want[c])
  {
    var cols, want := ColumnMap(current.columns), ColumnMap(target.columns);
    var n :| n in cols && n in want && ColumnChanged(cols[n], want[n])
             && change == ModifyColumnChange(target.name, want[n]);
    ColumnMapNames(target.columns, n);
  }

  ghost predicate SameColumns(a: Table, b: Table) {
    var cols, want := ColumnMap(a.columns), ColumnMap(b.columns);
    cols.Keys == want.Keys && forall c :: c in cols ==> Alike(cols[c], want[c])
  }

  /** There is nothing to do exactly if both schemas have the same tables, with alike columns; in particular between a
      schema and itself. */
  lemma NothingToDo(current: Schema, target: Schema, changes: seq<Change>)
    requires WellFormed(current) && WellFormed(target) && IsDiff(current, target, changes)
    ensures changes == []
            <==> current.Keys == target.Keys && forall t :: t in current ==> SameColumns(current[t], target[t])
  {
    if changes == [] {
      forall t
        ensures t in current <==> t in target
      {
        NoneWanted(current, target, t);
      }
      forall t | t in current
        ensures SameColumns(current[t], target[t])
      {
        NoColumnWanted(current, target, changes, t);
      }
    } else if current.Keys == target.Keys {
      assert Wanted(current, target, changes[0]);
      var t :| WantedInCommon(current, target, t, changes[0]);
    }
  }

  lemma NoneWanted(current: Schema, target: Schema, t: string)
    requires forall change :: !Wanted(current, target, change)
    ensures t in current <==> t in target
  {
    if t in target && t !in current {
      assert Wanted(current, target, CreateTableChange(target[t]));
    }
    if t in current && t !in target {
      assert Wanted(current, target, DropTableChange(current[t]));
    }
  }

  lemma NotWantedInTable(current: Schema, target: Schema, t: string, change: Change)
    requires t in current && t in target && !Wanted(current, target, change)
    ensures !WantedInTable(target[t].name, ColumnMap(current[t].columns), ColumnMap(target[t].columns), change)
  {
    assert !WantedInCommon(current, target, t, change);
  }

  lemma NoColumnWanted(current: Schema, target: Schema, changes: seq<Change>, t: string)
    requires WellFormed(current) && WellFormed(target) && IsDiff(current, target, changes) && changes == []
    requires t in current && t in target
    ensures SameColumns(current[t], target[t])
  {
    var cols, want := ColumnMap(current[t].columns), ColumnMap(target[t].columns);
    forall c
      ensures c in cols <==> c in want
    {
      if c in want {
        NotWantedInTable(current, target, t, AddColumnChange(t, want[c]));
      }
      if c in cols {
        NotWantedInTable(current, target, t, DropColumnChange(t, cols[c]));
      }
    }
    forall c | c in cols
      ensures Alike(cols[c], want[c])
    {
      ModifiedExactly(current, target, changes, t, c);
    }
  }

  // ---------------------------------------------------------------- Down

  /** The reverse statements that the generated script runs, last change first. */
  function Down(changes: seq<Change>): seq<Ddl> {
    if changes == [] then []
    else
      var first := changes[0];
      Down(changes[1..]) + if first.reversible && first.reverse.Some? then [first.reverse.value] else []
  }

  lemma {:induction false} DownMembers(changes: seq<Change>, ddl: Ddl)
    ensures ddl in Down(changes)
            <==> exists change :: change in changes && change.reversible && change.reverse == Some(ddl)
    decreases |changes|
  {
    if changes != [] {
      DownMembers(changes[1..], ddl);
      assert forall change :: change in changes <==> change == changes[0] || change in changes[1..];
    }
  }

  ghost predicate ReversesInPlace(changes: seq<Change>) {
    forall change :: change in changes && change.reverse.Some? ==> SpotOf(change.reverse.value) == SpotOf(change.sql)
  }

  lemma {:induction false} DownDistinct(changes: seq<Change>)
    requires DistinctSpots(Statements(changes)) && ReversesInPlace(changes)
    ensures DistinctSpots(Down(changes))
    decreases |changes|
  {
    if changes != [] {
      var first, rest := changes[0], changes[1..];
      assert Statements(rest) == Statements(changes)[1..];
      assert forall change :: change in rest ==> change in changes;
      assert first in changes;
      DownDistinct(rest);
      forall i | 0 <= i < |Down(rest)|
        ensures SpotOf(Down(rest)[i]) != SpotOf(first.sql)
      {
        DownMembers(rest, Down(rest)[i]);
        var change :| change in rest && change.reverse == Some(Down(rest)[i]);
        var k :| 0 <= k < |rest| && rest[k] == change;
        assert Statements(changes)[k + 1] == change.sql && Statements(changes)[0] == first.sql;
      }
    }
  }

  /** What both schemas have, with the target's types: where the Down script ends up. */
  ghost function Common(current: Layout, target: Layout): Layout {
    map t | t in target && t in current :: map c | c in target[t] && c in current[t] :: target[t][c]
  }

  lemma WantedReverse(current: Schema, target: Schema, change: Change)
    requires WellFormed(current) && WellFormed(target) && Wanted(current, target, change) && change.reverse.Some?
    ensures SpotOf(change.reverse.value) == SpotOf(change.sql)
    ensures Helps(LayoutOf(target), Common(LayoutOf(current), LayoutOf(target)), change.reverse.value)
  {
    WantedHelps(current, target, change);
  }

  lemma ExtraIsReversed(current: Schema, target: Schema, t: string, c: string)
    requires WellFormed(current) && WellFormed(target)
    requires !Settled(LayoutOf(target), Common(LayoutOf(current), LayoutOf(target)), t, c)
    ensures exists change :: Wanted(current, target, change) && change.reversible && change.reverse.Some?
              && (SpotOf(change.reverse.value) == Spot(t, None) || SpotOf(change.reverse.value) == Spot(t, Some(c)))
  {
    if t !in current {
      assert Wanted(current, target, CreateTableChange(target[t]));
    } else {
      var cols, want := ColumnMap(current[t].columns), ColumnMap(target[t].columns);
      ColumnMapNames(target[t].columns, c);
      assert WantedInCommon(current, target, t, AddColumnChange(t, want[c]));
      assert Wanted(current, target, AddColumnChange(t, want[c]));
    }
  }

  lemma DownLeads(current: Schema, target: Schema, changes: seq<Change>)
    requires WellFormed(current) && WellFormed(target) && IsDiff(current, target, changes)
    ensures Leads(LayoutOf(target), Common(LayoutOf(current), LayoutOf(target)), Down(changes))
  {
    var from, to := LayoutOf(target), Common(LayoutOf(current), LayoutOf(target));
    forall change | change in changes && change.reverse.Some?
      ensures SpotOf(change.reverse.value) == SpotOf(change.sql)
    {
      WantedReverse(current, target, change);
    }
    DownDistinct(changes);
    forall ddl | ddl in Down(changes)
      ensures Helps(from, to, ddl)
    {
      DownMembers(changes, ddl);
      var change :| change in changes && change.reverse == Some(ddl);
      WantedReverse(current, target, change);
    }
    forall t, c | !Settled(from, to, t, c)
      ensures Mentions(Down(changes), t, c)
    {
      ExtraIsReversed(current, target, t, c);
      var change :| Wanted(current, target, change) && change.reversible && change.reverse.Some?
                    && (SpotOf(change.reverse.value) == Spot(t, None)
                        || SpotOf(change.reverse.value) == Spot(t, Some(c)));
      DownMembers(changes, change.reverse.value);
    }
  }

  /** The change loses something that no generated statement brings back. */
  ghost predicate Loses(current: Schema, target: Schema, change: Change) {
    match change.sql
    case DropTable(_) => true
    case DropColumn(_, _) => true
    case ModifyColumn(t, name, kind) =>
      t in LayoutOf(current) && name in LayoutOf(current)[t] && LayoutOf(current)[t][name] != kind
    case _ => false
  }

  lemma LossIsDifference(current: Schema, target: Schema, change: Change)
    requires WellFormed(current) && WellFormed(target)
    requires Wanted(current, target, change) && Loses(current, target, change)
    ensures Common(LayoutOf(current), LayoutOf(target)) != LayoutOf(current)
  {
    WantedHelps(current, target, change);
    var l, m := LayoutOf(current), Common(LayoutOf(current), LayoutOf(target));
    match change.sql
    case DropTable(t) => assert t in l && t !in m;
    case DropColumn(t, name) => assert name in l[t] && name !in m[t];
    case ModifyColumn(t, name, kind) => assert m[t][name] == kind;
  }

  lemma NoLossNoDifference(current: Schema, target: Schema)
    requires WellFormed(current) && WellFormed(target)
    requires forall change :: Wanted(current, target, change) ==> !Loses(current, target, change)
    ensures Common(LayoutOf(current), LayoutOf(target)) == LayoutOf(current)
  {
    var l, m := LayoutOf(current), Common(LayoutOf(current), LayoutOf(target));
    forall t, c
      ensures Settled(l, m, t, c)
    {
      if !Settled(l, m, t, c) {
        assert t in current;
        var want := if t in target then ColumnMap(target[t].columns) else map[];
        var cols := ColumnMap(current[t].columns);
        ColumnMapNames(current[t].columns, c);
        if t in target {
          ColumnMapNames(target[t].columns, c);
        }
        var change := if t !in target then DropTableChange(current[t])
                      else if c !in want then DropColumnChange(t, cols[c])
                      else ModifyColumnChange(t, want[c]);
        assert t in target ==> WantedInCommon(current, target, t, change);
        assert Wanted(current, target, change);
      }
    }
    AllSettled(l, m);
  }

  /** Where no statement is refused, the generated Down runs through after Up. It restores the tables, columns and
      types there were exactly when no change dropped anything or changed a type; in particular when all changes are
      additions. */
  lemma DownReaches(current: Schema, target: Schema, changes: seq<Change>)
    requires WellFormed(current) && WellFormed(target) && IsDiff(current, target, changes)
    ensures var undone := ApplyAll(Down(changes), LayoutOf(target));
            undone.Some?
            && (undone.value == LayoutOf(current)
                <==> forall change :: change in changes ==> !Loses(current, target, change))
  {
    DownLeads(current, target, changes);
    LeadsThere(LayoutOf(target), Common(LayoutOf(current), LayoutOf(target)), Down(changes));
    if change :| change in changes && Loses(current, target, change) {
      LossIsDifference(current, target, change);
    } else {
      NoLossNoDifference(current, target);
    }
  }
}
