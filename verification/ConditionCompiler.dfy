/** The builder's own loops, which share one placeholder counter and append to slices. */
module ConditionCompiler {
  import opened Conditions
  import opened ConditionText
  import opened UpdateStatement

  /** The variable behind *argIndex. */
  class Counter {
    var value: int

    constructor (value: int)
      ensures this.value == value
    {
      this.value := value;
    }
  }

  method BuildList(d: Dialect, vs: seq<Value>, argIndex: Counter)
    returns (placeholders: seq<seq<Token>>, args: seq<Operand>)
    modifies argIndex
    ensures placeholders == Marks(d, |vs|, old(argIndex.value)) && args == Scalars(vs)
    ensures argIndex.value == old(argIndex.value) + |vs|
  {
    placeholders, args := [], [];
    for i := 0 to |vs|
      invariant placeholders == Marks(d, |vs|, old(argIndex.value))[..i]
      invariant args == Scalars(vs)[..i]
      invariant argIndex.value == old(argIndex.value) + i
    {
      placeholders := placeholders + [[Placeholder(d, argIndex.value)]];
      args := args + [Scalar(vs[i])];
      argIndex.value := argIndex.value + 1;
    }
  }

  method BuildCondition(d: Dialect, c: Condition, argIndex: Counter) returns (sql: seq<Token>, args: seq<Operand>)
    modifies argIndex
    ensures Printed(sql, args) == PrintCondition(d, c, old(argIndex.value))
    ensures argIndex.value == old(argIndex.value) + |args|
  {
    args := [];
    match c.op
    case IsNull =>
      sql := [Field(c.field), KwIs, KwNull];
    case IsNotNull =>
      sql := [Field(c.field), KwIs, KwNot, KwNull];
    case In =>
      var placeholders;
      placeholders, args := BuildList(d, Elements(c.value), argIndex);
      sql := [Field(c.field), KwIn, LParen] + Join(placeholders, Comma) + [RParen];
    case NotIn =>
      var placeholders;
      placeholders, args := BuildList(d, Elements(c.value), argIndex);
      sql := [Field(c.field), KwNot, KwIn, LParen] + Join(placeholders, Comma) + [RParen];
    case Between =>
      var values := Elements(c.value);
      if |values| != 2 {
        return [], args;
      }
      sql := [Field(c.field), KwBetween, Placeholder(d, argIndex.value), KwAnd, Placeholder(d, argIndex.value + 1)];
      args := [Scalar(values[0]), Scalar(values[1])];
      argIndex.value := argIndex.value + 2;
    case Compare(cmp) =>
      sql := [Field(c.field)] + CompareTokens(cmp) + [Placeholder(d, argIndex.value)];
      args := [c.value];
      argIndex.value := argIndex.value + 1;
  }

  method BuildItem(d: Dialect, item: Item, argIndex: Counter) returns (sql: seq<Token>, args: seq<Operand>)
    modifies argIndex
    ensures Printed(sql, args) == PrintItem(d, item, old(argIndex.value))
    ensures argIndex.value == old(argIndex.value) + |args|
    decreases item, 1
  {
    match item
    case Leaf(c) =>
      sql, args := BuildCondition(d, c, argIndex);
    case Group(items, op) =>
      sql, args := BuildConditionGroup(d, items, op, argIndex);
      sql := [LParen] + sql + [RParen];
  }

  /** What is printed for a list with one item more. */
  function WithOneMore(d: Dialect, s: Sections, item: Item, n: int): Sections {
    var p := PrintItem(d, item, n + |s.args|);
    Sections(s.parts + [p.sql], s.args + p.args)
  }

  lemma FirstApart(d: Dialect, items: seq<Item>, item: Item, n: int)
    requires items != []
    ensures var first := PrintItem(d, items[0], n);
            var more := PrintItems(d, items[1..] + [item], n + |first.args|);
            PrintItems(d, items + [item], n) == Sections([first.sql] + more.parts, first.args + more.args)
  {
    assert (items + [item])[0] == items[0] && (items + [item])[1..] == items[1..] + [item];
  }

  lemma {:induction false} PrintOneMore(d: Dialect, items: seq<Item>, item: Item, n: int)
    ensures PrintItems(d, items + [item], n) == WithOneMore(d, PrintItems(d, items, n), item, n)
    decreases |items|
  {
    if items == [] {
      assert [item][1..] == [];
    } else {
      var first := PrintItem(d, items[0], n);
      var m := n + |first.args|;
      FirstApart(d, items, item, n);
      PrintOneMore(d, items[1..], item, m);
      InFront(d, first, PrintItems(d, items[1..], m), item, n);
    }
  }

  lemma InFront(d: Dialect, first: Printed, rest: Sections, item: Item, n: int)
    ensures var more := WithOneMore(d, rest, item, n + |first.args|);
            Sections([first.sql] + more.parts, first.args + more.args)
            == WithOneMore(d, Sections([first.sql] + rest.parts, first.args + rest.args), item, n)
  {
  }

  method BuildSections(d: Dialect, items: seq<Item>, argIndex: Counter)
    returns (parts: seq<seq<Token>>, args: seq<Operand>)
    modifies argIndex
    ensures Sections(parts, args) == PrintItems(d, items, old(argIndex.value))
    ensures argIndex.value == old(argIndex.value) + |args|
    decreases items, 0
  {
    parts, args := [], [];
    for i := 0 to |items|
      invariant argIndex.value == old(argIndex.value) + |args|
      invariant Sections(parts, args) == PrintItems(d, items[..i], old(argIndex.value))
    {
      assert items[..i + 1] == items[..i] + [items[i]];
      PrintOneMore(d, items[..i], items[i], old(argIndex.value));
      var sql, condArgs := BuildItem(d, items[i], argIndex);
      parts := parts + [sql];
      args := args + condArgs;
    }
    assert items[..|items|] == items;
  }

  method BuildConditionGroup(d: Dialect, items: seq<Item>, op: Connective, argIndex: Counter)
    returns (sql: seq<Token>, args: seq<Operand>)
    modifies argIndex
    ensures var s := PrintItems(d, items, old(argIndex.value)); sql == Join(s.parts, Separator(op)) && args == s.args
    ensures argIndex.value == old(argIndex.value) + |args|
    decreases items, 1
  {
    var parts;
    parts, args := BuildSections(d, items, argIndex);
    var operator := KwAnd;
    if op.Or? {
      operator := KwOr;
    }
    sql := Join(parts, operator);
  }

  method BuildWhereClauseFrom(d: Dialect, conditions: seq<Item>, startIndex: int)
    returns (sql: seq<Token>, args: seq<Operand>)
    ensures Printed(sql, args) == PrintWhere(d, conditions, startIndex)
  {
    if |conditions| == 0 {
      return [], [];
    }
    var argIndex := new Counter(startIndex);
    var parts;
    parts, args := BuildSections(d, conditions, argIndex);
    sql := Join(parts, KwAnd);
  }

  method AddUpdatedAt(m: Model, assignments: seq<Assignment>, now: Value) returns (r: seq<Assignment>)
    ensures r == WithUpdatedAt(m, assignments, now)
  {
    if !m.hasUpdatedAt {
      return assignments;
    }
    for i := 0 to |assignments|
      invariant forall j :: 0 <= j < i ==> assignments[j].field != UPDATED_AT
    {
      if assignments[i].field == UPDATED_AT {
        return assignments;
      }
    }
    return assignments + [Assignment(UPDATED_AT, now)];
  }

  method BuildUpdateQuery(m: Model, d: Dialect, conditions: seq<Item>, given: seq<Assignment>, now: Value)
    returns (sql: seq<Token>, args: seq<Operand>)
    ensures Printed(sql, args) == PrintUpdate(d, WithUpdatedAt(m, given, now), conditions)
  {
    var assignments := AddUpdatedAt(m, given, now);
    args := [];
    var setParts: seq<seq<Token>> := [];
    for i := 0 to |assignments|
      invariant setParts == SetParts(d, assignments, 1)[..i]
      invariant args == SetArgs(assignments)[..i]
    {
      setParts := setParts + [[Field(assignments[i].field), Op(Eq), Placeholder(d, i + 1)]];
      args := args + [Scalar(assignments[i].value)];
    }
    assert setParts == SetParts(d, assignments, 1) && args == SetArgs(assignments);
    sql := [KwSet] + Join(setParts, Comma);
    if |conditions| > 0 {
      var whereSQL, whereArgs := BuildWhereClauseFrom(d, conditions, |assignments| + 1);
      sql := sql + ([KwWhere] + whereSQL);
      args := args + whereArgs;
    }
  }
}
