/** The differ's own loops over Go maps, visited in an arbitrary order. */
module SchemaDiffer {
  import opened SchemaDiff

  lemma AppendDistinct(changes: seq<Change>, change: Change)
    requires DistinctSpots(Statements(changes))
    requires forall c :: c in changes ==> SpotOf(c.sql) != SpotOf(change.sql)
    ensures DistinctSpots(Statements(changes + [change]))
  {
    var all := Statements(changes + [change]);
    assert all == Statements(changes) + [change.sql];
    forall i | 0 <= i < |changes|
      ensures SpotOf(all[i]) != SpotOf(change.sql)
    {
      assert changes[i] in changes;
    }
  }

  lemma ConcatAddsFirst(a: seq<Change>, b: seq<Change>)
    requires AddsFirst(Statements(a)) && AddsFirst(Statements(b))
    requires forall c, d :: c in a && d in b && c.sql.DropColumn? && d.sql.AddColumn? ==> c.sql.table != d.sql.table
    ensures AddsFirst(Statements(a + b))
  {
    var all := Statements(a + b);
    assert all == Statements(a) + Statements(b);
    forall i, j | 0 <= i < j < |all| && all[i].DropColumn? && all[j].AddColumn?
      ensures all[i].table != all[j].table
    {
      if i < |a| <= j {
        assert a[i] in a && b[j - |a|] in b;
      } else if j < |a| {
        assert Statements(a)[i] == all[i] && Statements(a)[j] == all[j];
      } else {
        assert Statements(b)[i - |a|] == all[i] && Statements(b)[j - |a|] == all[j];
      }
    }
  }

  /** Statements of one kind are in order, whatever their order. */
  lemma OneKind(changes: seq<Change>)
    requires (forall c :: c in changes ==> !c.sql.AddColumn?) || (forall c :: c in changes ==> !c.sql.DropColumn?)
    ensures AddsFirst(Statements(changes))
  {
    forall i | 0 <= i < |changes|
      ensures Statements(changes)[i] == changes[i].sql && changes[i] in changes
    {
    }
  }

  lemma ConcatDistinct(a: seq<Change>, b: seq<Change>)
    requires DistinctSpots(Statements(a)) && DistinctSpots(Statements(b))
    requires forall c, d :: c in a && d in b ==> SpotOf(c.sql) != SpotOf(d.sql)
    ensures DistinctSpots(Statements(a + b))
  {
    var all := Statements(a + b);
    assert all == Statements(a) + Statements(b);
    forall i, j | 0 <= i < |a| && 0 <= j < |b|
      ensures SpotOf(Statements(a)[i]) != SpotOf(Statements(b)[j])
    {
      assert a[i] in a && b[j] in b;
    }
  }

  method ReadColumns(columns: seq<Column>) returns (m: map<string, Column>)
    ensures m == ColumnMap(columns)
  {
    m := map[];
    for i := 0 to |columns|
      invariant m == ColumnMap(columns[..i])
    {
      m := m[columns[i].name := columns[i]];
      assert columns[..i + 1][..i] == columns[..i];
    }
    assert columns[..|columns|] == columns;
  }

  // ---------------------------------------------------------------- Columns of one table

  ghost predicate Named(columns: map<string, Column>) {
    forall n :: n in columns ==> columns[n].name == n
  }

  method AddedColumns(table: string, current: map<string, Column>, target: map<string, Column>)
    returns (changes: seq<Change>)
    requires Named(target)
    ensures forall c :: c in changes <==>
      exists n :: n in target && n !in current && c == AddColumnChange(table, target[n])
    ensures DistinctSpots(Statements(changes))
  {
    changes := [];
    var todo := target.Keys;
    while todo != {}
      invariant todo <= target.Keys && DistinctSpots(Statements(changes))
      invariant forall c :: c in changes <==>
        exists n :: n in target && n !in todo && n !in current && c == AddColumnChange(table, target[n])
      decreases todo
    {
      var name :| name in todo;
      if name !in current {
        AppendDistinct(changes, AddColumnChange(table, target[name]));
        changes := changes + [AddColumnChange(table, target[name])];
      }
      todo := todo - {name};
    }
  }

  method DroppedColumns(table: string, current: map<string, Column>, target: map<string, Column>)
    returns (changes: seq<Change>)
    requires Named(current)
    ensures forall c :: c in changes <==>
      exists n :: n in current && n !in target && c == DropColumnChange(table, current[n])
    ensures DistinctSpots(Statements(changes))
  {
    changes := [];
    var todo := current.Keys;
    while todo != {}
      invariant todo <= current.Keys && DistinctSpots(Statements(changes))
      invariant forall c :: c in changes <==>
        exists n :: n in current && n !in todo && n !in target && c == DropColumnChange(table, current[n])
      decreases todo
    {
      var name :| name in todo;
      if name !in target {
        AppendDistinct(changes, DropColumnChange(table, current[name]));
        changes := changes + [DropColumnChange(table, current[name])];
      }
      todo := todo - {name};
    }
  }

  method ModifiedColumns(table: string, current: map<string, Column>, target: map<string, Column>)
    returns (changes: seq<Change>)
    requires Named(target)
    ensures forall c :: c in changes <==>
      exists n :: n in current && n in target && ColumnChanged(current[n], target[n])
                  && c == ModifyColumnChange(table, target[n])
    ensures DistinctSpots(Statements(changes))
  {
    changes := [];
    var todo := target.Keys;
    while todo != {}
      invariant todo <= target.Keys && DistinctSpots(Statements(changes))
      invariant forall c :: c in changes <==>
        exists n :: n in current && n in target && n !in todo && ColumnChanged(current[n], target[n])
                    && c == ModifyColumnChange(table, target[n])
      decreases todo
    {
      var name :| name in todo;
      if name in current {
        if ColumnChanged(current[name], target[name]) {
          AppendDistinct(changes, ModifyColumnChange(table, target[name]));
          changes := changes + [ModifyColumnChange(table, target[name])];
        }
      }
      todo := todo - {name};
    }
  }

  method DiffColumns(current: Table, target: Table) returns (changes: seq<Change>)
    ensures forall c :: c in changes <==>
      WantedInTable(target.name, ColumnMap(current.columns), ColumnMap(target.columns), c)
    ensures forall c :: c in changes ==> SpotOf(c.sql).table == target.name && SpotOf(c.sql).column.Some?
    ensures DistinctSpots(Statements(changes)) && AddsFirst(Statements(changes))
  {
    var currentCols := ReadColumns(current.columns);
    var targetCols := ReadColumns(target.columns);
    forall n
      ensures n in currentCols ==> currentCols[n].name == n
      ensures n in targetCols ==> targetCols[n].name == n
    {
      ColumnMapNames(current.columns, n);
      ColumnMapNames(target.columns, n);
    }
    var added := AddedColumns(target.name, currentCols, targetCols);
    var dropped := DroppedColumns(target.name, currentCols, targetCols);
    var modified := ModifiedColumns(target.name, currentCols, targetCols);
    SpotsOfColumns(target.name, currentCols, targetCols, added, dropped, modified);
    ConcatDistinct(added, dropped);
    ConcatDistinct(added + dropped, modified);
    OneKind(added);
    OneKind(dropped);
    OneKind(modified);
    ConcatAddsFirst(added, dropped);
    ConcatAddsFirst(added + dropped, modified);
    changes := added + dropped + modified;
    forall c
      ensures c in changes <==> WantedInTable(target.name, currentCols, targetCols, c)
    {
      assert c in changes <==> c in added || c in dropped || c in modified;
    }
  }

  lemma SpotsOfColumns(table: string, current: map<string, Column>, target: map<string, Column>,
                       added: seq<Change>, dropped: seq<Change>, modified: seq<Change>)
    requires Named(current) && Named(target)
    requires forall c :: c in added ==>
      exists n :: n in target && n !in current && c == AddColumnChange(table, target[n])
    requires forall c :: c in dropped ==>
      exists n :: n in current && n !in target && c == DropColumnChange(table, current[n])
    requires forall c :: c in modified ==>
      exists n :: n in current && n in target && c == ModifyColumnChange(table, target[n])
    ensures forall c, d :: c in added && d in dropped ==> SpotOf(c.sql) != SpotOf(d.sql)
    ensures forall c, d :: c in added + dropped && d in modified ==> SpotOf(c.sql) != SpotOf(d.sql)
    ensures forall c :: c in added + dropped + modified ==> SpotOf(c.sql).table == table && SpotOf(c.sql).column.Some?
  {
  }

  // ---------------------------------------------------------------- Whole schemas

  method CreatedTables(current: Schema, target: Schema) returns (changes: seq<Change>)
    ensures forall c :: c in changes <==> exists n :: n in target && n !in current && c == CreateTableChange(target[n])
    ensures WellFormed(target) ==> DistinctSpots(Statements(changes))
  {
    changes := [];
    var todo := target.Keys;
    while todo != {}
      invariant todo <= target.Keys && (WellFormed(target) ==> DistinctSpots(Statements(changes)))
      invariant forall c :: c in changes <==>
        exists n :: n in target && n !in todo && n !in current && c == CreateTableChange(target[n])
      decreases todo
    {
      var name :| name in todo;
      if name !in current {
        if WellFormed(target) {
          AppendDistinct(changes, CreateTableChange(target[name]));
        }
        changes := changes + [CreateTableChange(target[name])];
      }
      todo := todo - {name};
    }
  }

  method DroppedTables(current: Schema, target: Schema) returns (changes: seq<Change>)
    ensures forall c :: c in changes <==> exists n :: n in current && n !in target && c == DropTableChange(current[n])
    ensures WellFormed(current) ==> DistinctSpots(Statements(changes))
  {
    changes := [];
    var todo := current.Keys;
    while todo != {}
      invariant todo <= current.Keys && (WellFormed(current) ==> DistinctSpots(Statements(changes)))
      invariant forall c :: c in changes <==>
        exists n :: n in current && n !in todo && n !in target && c == DropTableChange(current[n])
      decreases todo
    {
      var name :| name in todo;
      if name !in target {
        if WellFormed(current) {
          AppendDistinct(changes, DropTableChange(current[name]));
        }
        changes := changes + [DropTableChange(current[name])];
      }
      todo := todo - {name};
    }
  }

  method ChangedTables(current: Schema, target: Schema) returns (changes: seq<Change>)
    ensures forall c :: c in changes <==> exists n :: WantedInCommon(current, target, n, c)
    ensures forall c :: c in changes ==> SpotOf(c.sql).column.Some?
    ensures WellFormed(target) ==> DistinctSpots(Statements(changes)) && AddsFirst(Statements(changes))
  {
    changes := [];
    var todo := target.Keys;
    while todo != {}
      invariant todo <= target.Keys
      invariant WellFormed(target) ==> DistinctSpots(Statements(changes)) && AddsFirst(Statements(changes))
      invariant forall c :: c in changes <==> exists n :: n !in todo && WantedInCommon(current, target, n, c)
      invariant forall c :: c in changes ==> SpotOf(c.sql).column.Some?
      invariant WellFormed(target) ==> forall c :: c in changes ==> SpotOf(c.sql).table !in todo
      decreases todo
    {
      var name :| name in todo;
      if name in current {
        var more := DiffColumns(current[name], target[name]);
        if WellFormed(target) {
          ConcatDistinct(changes, more);
          ConcatAddsFirst(changes, more);
        }
        changes := changes + more;
      }
      todo := todo - {name};
    }
  }

  /** diffIndexes and diffForeignKeys add nothing. */
  method Diff(current: Schema, target: Schema) returns (changes: seq<Change>)
    ensures forall c :: c in changes <==> Wanted(current, target, c)
    ensures WellFormed(current) && WellFormed(target) ==>
      IsDiff(current, target, changes) && AddsFirst(Statements(changes))
  {
    var created := CreatedTables(current, target);
    var dropped := DroppedTables(current, target);
    var changed := ChangedTables(current, target);
    changes := created + dropped + changed;
    forall c
      ensures c in changes <==> Wanted(current, target, c)
    {
      assert c in changes <==> c in created || c in dropped || c in changed;
    }
    if WellFormed(current) && WellFormed(target) {
      ConcatDistinct(created, dropped);
      ConcatDistinct(created + dropped, changed);
      OneKind(created + dropped);
      ConcatAddsFirst(created + dropped, changed);
    }
  }

  // ---------------------------------------------------------------- The script

  /** One section of the Down half: a statement, or the warning that there is none. */
  datatype Section = Run(sql: Ddl) | CannotReverse

  function SectionOf(change: Change): Section {
    if change.reversible && change.reverse.Some? then Run(change.reverse.value) else CannotReverse
  }

  function Runnable(sections: seq<Section>): seq<Ddl> {
    if sections == [] then []
    else (if sections[0].Run? then [sections[0].sql] else []) + Runnable(sections[1..])
  }

  lemma {:induction false} RunnableConcat(a: seq<Section>, b: seq<Section>)
    ensures Runnable(a + b) == Runnable(a) + Runnable(b)
    decreases |a|
  {
    if a == [] {
      assert a + b == b;
    } else {
      assert (a + b)[1..] == a[1..] + b;
      RunnableConcat(a[1..], b);
      var head := if a[0].Run? then [a[0].sql] else [];
      assert head + (Runnable(a[1..]) + Runnable(b)) == head + Runnable(a[1..]) + Runnable(b);
    }
  }

  method GenerateMigration(changes: seq<Change>) returns (up: seq<Ddl>, down: seq<Section>)
    ensures up == Statements(changes)
    ensures |down| == |changes| && forall k :: 0 <= k < |down| ==> down[k] == SectionOf(changes[|changes| - 1 - k])
    ensures Runnable(down) == Down(changes)
  {
    up, down := [], [];
    for i := 0 to |changes|
      invariant up == Statements(changes)[..i]
    {
      up := up + [changes[i].sql];
    }
    assert changes[|changes|..] == [];
    for i := |changes| downto 0
      invariant |down| == |changes| - i
      invariant forall k :: 0 <= k < |down| ==> down[k] == SectionOf(changes[|changes| - 1 - k])
      invariant Runnable(down) == Down(changes[i..])
    {
      var change := changes[i];
      assert changes[i..][1..] == changes[i + 1..];
      if change.reversible && change.reverse.Some? {
        RunnableConcat(down, [Run(change.reverse.value)]);
        assert Runnable([Run(change.reverse.value)][1..]) == [];
        down := down + [Run(change.reverse.value)];
      } else {
        RunnableConcat(down, [CannotReverse]);
        assert Runnable([CannotReverse][1..]) == [];
        down := down + [CannotReverse];
      }
    }
    assert changes[0..] == changes;
  }
}
