/** UPDATE and DELETE: SET before WHERE, one numbering for both, and the guard against a missing WHERE. */
module UpdateStatement {
  import opened ConditionMeaning
  import opened ConditionText
  import opened Conditions
  import opened Options

  // ---------------------------------------------------------------- Positional dialects

  /** The text with every placeholder written as a question mark. */
  function Erase(ts: seq<Token>): seq<Token> {
    seq(|ts|, i requires 0 <= i < |ts| => if ts[i].Mark? then Mark(0) else ts[i])
  }

  /** How a driver numbers question marks: by position. */
  function Number(ts: seq<Token>, n: int): seq<Token> {
    if ts == [] then []
    else if ts[0].Mark? then [Mark(n)] + Number(ts[1..], n + 1)
    else [ts[0]] + Number(ts[1..], n)
  }

  lemma EraseConcat(a: seq<Token>, b: seq<Token>)
    ensures Erase(a + b) == Erase(a) + Erase(b)
  {
  }

  /** Text numbered n, n+1, ... loses nothing when the numbers are replaced by question marks. */
  lemma {:induction false} NumberErased(ts: seq<Token>, n: int)
    requires Numbers(ts) == Upwards(n, |Numbers(ts)|)
    ensures Number(Erase(ts), n) == ts
    decreases |ts|
  {
    if ts != [] {
      assert Erase(ts)[1..] == Erase(ts[1..]);
      assert ts == [ts[0]] + ts[1..];
      if ts[0].Mark? {
        assert Numbers(ts)[0] == ts[0].n && Upwards(n, |Numbers(ts)|)[0] == n;
        assert Numbers(ts[1..]) == Numbers(ts)[1..] == Upwards(n + 1, |Numbers(ts[1..])|);
        NumberErased(ts[1..], n + 1);
      } else {
        assert Numbers(ts[1..]) == Numbers(ts);
        NumberErased(ts[1..], n);
      }
    }
  }

  lemma {:induction false} MarksErased(count: nat, n: int)
    ensures Join(Marks(Positional, count, n), Comma) == Erase(Join(Marks(Numbered, count, n), Comma))
    decreases count
  {
    if count > 0 {
      MarksStep(Positional, count, n);
      MarksStep(Numbered, count, n);
    }
    if count > 1 {
      MarksErased(count - 1, n + 1);
      EraseConcat([Mark(n), Comma], Join(Marks(Numbered, count - 1, n + 1), Comma));
    }
  }

  lemma ConditionErased(c: Condition, n: int)
    ensures PrintCondition(Positional, c, n).sql == Erase(PrintCondition(Numbered, c, n).sql)
  {
    if c.op.In? || c.op.NotIn? {
      var head := if c.op.In? then [Field(c.field), KwIn, LParen] else [Field(c.field), KwNot, KwIn, LParen];
      var list := Join(Marks(Numbered, |Elements(c.value)|, n), Comma);
      MarksErased(|Elements(c.value)|, n);
      EraseConcat(head, list);
      EraseConcat(head + list, [RParen]);
      assert Erase(head) == head && Erase([RParen]) == [RParen];
    }
  }

  lemma {:induction false} ItemErased(item: Item, n: int)
    ensures PrintItem(Positional, item, n).sql == Erase(PrintItem(Numbered, item, n).sql)
    ensures PrintItem(Positional, item, n).args == PrintItem(Numbered, item, n).args
    decreases item, 1
  {
    match item
    case Leaf(c) => ConditionErased(c, n);
    case Group(items, op) =>
      var inner := Join(PrintItems(Numbered, items, n).parts, Separator(op));
      ItemsErased(items, Separator(op), n);
      EraseConcat([LParen], inner);
      EraseConcat([LParen] + inner, [RParen]);
      assert Erase([LParen]) == [LParen] && Erase([RParen]) == [RParen];
  }

  lemma {:induction false} ItemsErased(items: seq<Item>, sep: Token, n: int)
    requires !sep.Mark?
    ensures Join(PrintItems(Positional, items, n).parts, sep) == Erase(Join(PrintItems(Numbered, items, n).parts, sep))
    ensures PrintItems(Positional, items, n).args == PrintItems(Numbered, items, n).args
    decreases items, 0
  {
    if items != [] {
      var first := PrintItem(Numbered, items[0], n);
      var m := n + |first.args|;
      ItemErased(items[0], n);
      ItemsErased(items[1..], sep, m);
      ItemsJoined(Positional, items, sep, n);
      ItemsJoined(Numbered, items, sep, n);
      if |items| > 1 {
        var more := Join(PrintItems(Numbered, items[1..], m).parts, sep);
        EraseConcat(first.sql, [sep]);
        EraseConcat(first.sql + [sep], more);
        assert Erase([sep]) == [sep];
      }
    }
  }

  // ---------------------------------------------------------------- The statement

  datatype Assignment = Assignment(field: string, value: Value)

  function SetParts(d: Dialect, assignments: seq<Assignment>, n: int): seq<seq<Token>> {
    seq(|assignments|, i requires 0 <= i < |assignments| =>
          [Field(assignments[i].field), Op(Eq), Placeholder(d, n + i)])
  }

  function SetArgs(assignments: seq<Assignment>): seq<Operand> {
    seq(|assignments|, i requires 0 <= i < |assignments| => Scalar(assignments[i].value))
  }

  /** SET, numbered from 1, then WHERE, numbered on from there. The table name carries no placeholder. */
  function PrintUpdate(d: Dialect, assignments: seq<Assignment>, conditions: seq<Item>): Printed {
    var set_ := [KwSet] + Join(SetParts(d, assignments, 1), Comma);
    var w := PrintWhere(d, conditions, |assignments| + 1);
    if conditions == [] then Printed(set_, SetArgs(assignments))
    else Printed(set_ + ([KwWhere] + w.sql), SetArgs(assignments) + w.args)
  }

  function PrintDelete(d: Dialect, conditions: seq<Item>): Printed {
    var w := PrintWhere(d, conditions, 1);
    if conditions == [] then Printed([], []) else Printed([KwWhere] + w.sql, w.args)
  }

  /** What a statement does: the columns it sets and the rows it is about. */
  datatype Change = Change(sets: seq<Assignment>, cond: Option<Expr>)

  function ReadSets(ts: seq<Token>, args: seq<Operand>): (r: Option<Read<seq<Assignment>>>)
    ensures r.Some? ==> |r.value.rest| < |ts|
    decreases |ts|
  {
    if |ts| < 2 || !ts[0].Field? || ts[1] != Op(Eq) then None
    else
      match BoundMark(ts[2..], args)
      case None => None
      case Some(v) =>
        if StartsWith(ts[3..], Comma) then
          match ReadSets(ts[4..], args)
          case None => None
          case Some(more) => Some(Read([Assignment(ts[0].name, v)] + more.value, more.rest))
        else Some(Read([Assignment(ts[0].name, v)], ts[3..]))
  }

  /** The rest of a statement: nothing, or WHERE and a search condition. */
  function ReadTail(sets: seq<Assignment>, ts: seq<Token>, args: seq<Operand>): Option<Change> {
    if ts == [] then Some(Change(sets, None))
    else if !StartsWith(ts, KwWhere) then None
    else
      match ReadWhere(ts[1..], args)
      case None => None
      case Some(e) => Some(Change(sets, Some(e)))
  }

  function ReadUpdate(ts: seq<Token>, args: seq<Operand>): Option<Change> {
    if !StartsWith(ts, KwSet) then None
    else
      match ReadSets(ts[1..], args)
      case None => None
      case Some(s) => ReadTail(s.value, s.rest, args)
  }

  function AsSent(d: Dialect, ts: seq<Token>): seq<Token> {
    if d.Numbered? then ts else Number(ts, 1)
  }

  ghost predicate Selects(coll: Collation, row: Row, change: Change) {
    change.cond.None? || Eval(coll, row, change.cond.value).True?
  }

  // ---------------------------------------------------------------- Numbering of the whole statement

  lemma SetsStep(assignments: seq<Assignment>, n: int, rest: seq<Token>)
    requires assignments != []
    ensures Join(SetParts(Numbered, assignments, n), Comma) + rest
         == if |assignments| == 1 then [Field(assignments[0].field), Op(Eq), Mark(n)] + rest
            else [Field(assignments[0].field), Op(Eq), Mark(n)]
                 + ([Comma] + (Join(SetParts(Numbered, assignments[1..], n + 1), Comma) + rest))
  {
    var parts := SetParts(Numbered, assignments, n);
    assert parts[0] == [Field(assignments[0].field), Op(Eq), Mark(n)];
    if |assignments| > 1 {
      assert parts[1..] == SetParts(Numbered, assignments[1..], n + 1);
      var more := Join(parts[1..], Comma);
      assert parts[0] + [Comma] + more + rest == parts[0] + ([Comma] + (more + rest));
    }
  }

  lemma OneSetNumbered(f: string, n: int)
    ensures Numbers([Field(f), Op(Eq), Mark(n)]) == Upwards(n, 1)
  {
    NumbersOfMark(n);
    NumbersInside([Field(f), Op(Eq)], [Mark(n)], []);
    assert [Field(f), Op(Eq)] + [Mark(n)] + [] == [Field(f), Op(Eq), Mark(n)];
  }

  lemma {:induction false} SetsNumbered(assignments: seq<Assignment>, n: int)
    ensures Numbers(Join(SetParts(Numbered, assignments, n), Comma)) == Upwards(n, |assignments|)
    decreases |assignments|
  {
    if assignments != [] {
      var first := [Field(assignments[0].field), Op(Eq), Mark(n)];
      var text := Join(SetParts(Numbered, assignments, n), Comma);
      SetsStep(assignments, n, []);
      OneSetNumbered(assignments[0].field, n);
      if |assignments| > 1 {
        SetsNumbered(assignments[1..], n + 1);
        var more := Join(SetParts(Numbered, assignments[1..], n + 1), Comma);
        assert text == first + [Comma] + more by {
          assert text + [] == text && more + [] == more;
          Regroup(first, Comma, more, []);
        }
        SeparatedNumbered(text, first, Comma, more, n, 1, |assignments| - 1);
      } else {
        assert text + [] == text && first + [] == first;
      }
    }
  }

  lemma StatementNumbered(sets: seq<Token>, where_: seq<Token>, a: nat, b: nat)
    requires Numbers(sets) == Upwards(1, a) && Numbers(where_) == Upwards(1 + a, b)
    ensures Numbers([KwSet] + sets) == Upwards(1, a)
    ensures Numbers([KwSet] + sets + ([KwWhere] + where_)) == Upwards(1, a + b)
  {
    NumbersConcat([KwSet], sets);
    NoMarks([KwSet]);
    NumbersConcat([KwWhere], where_);
    NoMarks([KwWhere]);
    NumbersConcat([KwSet] + sets, [KwWhere] + where_);
    UpwardsConcat(1, a, b);
  }

  /** The placeholders of SET and then WHERE are exactly 1..len(args), in order, each once. */
  lemma UpdateNumbered(assignments: seq<Assignment>, conditions: seq<Item>)
    ensures var p := PrintUpdate(Numbered, assignments, conditions); Numbers(p.sql) == Upwards(1, |p.args|)
  {
    var w := PrintWhere(Numbered, conditions, |assignments| + 1);
    SetsNumbered(assignments, 1);
    ItemsNumbered(conditions, KwAnd, |assignments| + 1);
    StatementNumbered(Join(SetParts(Numbered, assignments, 1), Comma), w.sql, |assignments|, |w.args|);
  }

  lemma {:induction false} SetsErased(assignments: seq<Assignment>, n: int)
    ensures Join(SetParts(Positional, assignments, n), Comma) == Erase(Join(SetParts(Numbered, assignments, n), Comma))
    decreases |assignments|
  {
    var p, q := SetParts(Positional, assignments, n), SetParts(Numbered, assignments, n);
    if assignments != [] {
      assert p[0] == Erase(q[0]);
    }
    if |assignments| > 1 {
      assert p[1..] == SetParts(Positional, assignments[1..], n + 1);
      assert q[1..] == SetParts(Numbered, assignments[1..], n + 1);
      SetsErased(assignments[1..], n + 1);
      EraseConcat(q[0] + [Comma], Join(q[1..], Comma));
      EraseConcat(q[0], [Comma]);
      assert Erase([Comma]) == [Comma];
    }
  }

  /** A driver that counts question marks sees the statement that numbered placeholders would have given. */
  lemma DialectsAgree(assignments: seq<Assignment>, conditions: seq<Item>)
    ensures var p := PrintUpdate(Positional, assignments, conditions);
            var q := PrintUpdate(Numbered, assignments, conditions);
            AsSent(Positional, p.sql) == q.sql && p.args == q.args
  {
    var p, q := PrintUpdate(Positional, assignments, conditions), PrintUpdate(Numbered, assignments, conditions);
    var sets := Join(SetParts(Numbered, assignments, 1), Comma);
    var w := PrintWhere(Numbered, conditions, |assignments| + 1);
    SetsErased(assignments, 1);
    ItemsErased(conditions, KwAnd, |assignments| + 1);
    EraseConcat([KwSet], sets);
    EraseConcat([KwWhere], w.sql);
    EraseConcat([KwSet] + sets, [KwWhere] + w.sql);
    assert Erase([KwSet]) == [KwSet] && Erase([KwWhere]) == [KwWhere];
    assert p.sql == Erase(q.sql);
    UpdateNumbered(assignments, conditions);
    NumberErased(q.sql, 1);
  }

  // ---------------------------------------------------------------- Reading the statement back

  lemma ReadLastSet(f: string, n: int, all: seq<Operand>, rest: seq<Token>)
    requires 1 <= n <= |all| && all[n - 1].Scalar? && !StartsWith(rest, Comma)
    ensures ReadSets([Field(f), Op(Eq), Mark(n)] + rest, all) == Some(Read([Assignment(f, all[n - 1].v)], rest))
  {
    var ts := [Field(f), Op(Eq), Mark(n)] + rest;
    assert ts[2..] == [Mark(n)] + rest;
    assert ts[3..] == rest;
  }

  lemma ReadOneSet(f: string, n: int, all: seq<Operand>, rest: seq<Token>)
    requires 1 <= n <= |all| && all[n - 1].Scalar?
    ensures ReadSets([Field(f), Op(Eq), Mark(n)] + ([Comma] + rest), all)
         == match ReadSets(rest, all)
            case None => None
            case Some(more) => Some(Read([Assignment(f, all[n - 1].v)] + more.value, more.rest))
  {
    var ts := [Field(f), Op(Eq), Mark(n)] + ([Comma] + rest);
    assert ts[2..] == [Mark(n)] + ([Comma] + rest);
    assert ts[3..] == [Comma] + rest;
    assert ts[4..] == rest;
  }

  lemma SetArgsStep(assignments: seq<Assignment>, n: int, all: seq<Operand>)
    requires assignments != [] && Placed(all, n, SetArgs(assignments))
    ensures 1 <= n <= |all| && all[n - 1] == Scalar(assignments[0].value)
    ensures Placed(all, n + 1, SetArgs(assignments[1..]))
  {
    PlacedAt(all, n, SetArgs(assignments), 0);
    assert SetArgs(assignments) == [Scalar(assignments[0].value)] + SetArgs(assignments[1..]);
    PlacedSplit(all, n, [Scalar(assignments[0].value)], SetArgs(assignments[1..]));
  }

  lemma {:induction false} ReadAllSets(assignments: seq<Assignment>, n: int, all: seq<Operand>, rest: seq<Token>)
    requires assignments != [] && Placed(all, n, SetArgs(assignments)) && !StartsWith(rest, Comma)
    ensures ReadSets(Join(SetParts(Numbered, assignments, n), Comma) + rest, all) == Some(Read(assignments, rest))
    decreases |assignments|
  {
    var a := assignments[0];
    SetsStep(assignments, n, rest);
    SetArgsStep(assignments, n, all);
    if |assignments| == 1 {
      ReadLastSet(a.field, n, all, rest);
      assert [a] == assignments;
    } else {
      var later := assignments[1..];
      ReadOneSet(a.field, n, all, Join(SetParts(Numbered, later, n + 1), Comma) + rest);
      ReadAllSets(later, n + 1, all, rest);
      assert [a] + later == assignments;
    }
  }

  /** What reading an UPDATE amounts to once its SET list is read. */
  lemma ReadAfterSets(assignments: seq<Assignment>, tail: seq<Token>, args: seq<Operand>)
    requires assignments != [] && !StartsWith(tail, Comma)
    ensures var all := SetArgs(assignments) + args;
            && ReadUpdate([KwSet] + Join(SetParts(Numbered, assignments, 1), Comma) + tail, all)
               == ReadTail(assignments, tail, all)
            && Placed(all, |assignments| + 1, args)
  {
    var all := SetArgs(assignments) + args;
    var sets := Join(SetParts(Numbered, assignments, 1), Comma);
    assert ([KwSet] + sets + tail)[1..] == sets + tail;
    assert Placed(all, 1, SetArgs(assignments) + args);
    PlacedSplit(all, 1, SetArgs(assignments), args);
    ReadAllSets(assignments, 1, all, tail);
  }

  /** In both kinds of dialect an UPDATE reads back exactly when its conditions are well-formed; it then sets
      exactly the assignments, on exactly the rows where the conjunction of the conditions is true. */
  lemma UpdateTheorem(d: Dialect, assignments: seq<Assignment>, conditions: seq<Item>)
    requires assignments != []
    ensures var p := PrintUpdate(d, assignments, conditions);
            var change := ReadUpdate(AsSent(d, p.sql), p.args);
            && (change.Some? <==> AllWellFormed(conditions))
            && (change.Some? ==> change.value.sets == assignments)
            && (change.Some? ==> SelectsExactly(change.value, conditions))
  {
    DialectsAgree(assignments, conditions);
    var p := PrintUpdate(Numbered, assignments, conditions);
    var w := PrintWhere(Numbered, conditions, |assignments| + 1);
    if conditions == [] {
      ReadAfterSets(assignments, [], []);
      assert p.sql + [] == p.sql && p.args + [] == p.args;
    } else {
      ReadAfterSets(assignments, [KwWhere] + w.sql, w.args);
      assert ([KwWhere] + w.sql)[1..] == w.sql;
      WhereTheorem(conditions, |assignments| + 1, p.args);
    }
  }

  /** The rows a statement is about are those where the conjunction of the conditions is true. */
  ghost predicate SelectsExactly(change: Change, conditions: seq<Item>) {
    forall coll: Collation, row: Row :: Selects(coll, row, change) <==> Combined(coll, row, conditions, And).True?
  }

  lemma DeleteNumbered(conditions: seq<Item>)
    requires conditions != []
    ensures var p := PrintDelete(Numbered, conditions); Numbers(p.sql) == Upwards(1, |p.args|)
  {
    ItemsNumbered(conditions, KwAnd, 1);
    NumbersConcat([KwWhere], PrintWhere(Numbered, conditions, 1).sql);
    NoMarks([KwWhere]);
  }

  /** As sent, the statement is the one with numbered placeholders, in both dialects. */
  lemma DeleteAsSent(d: Dialect, conditions: seq<Item>)
    requires conditions != []
    ensures AsSent(d, PrintDelete(d, conditions).sql) == PrintDelete(Numbered, conditions).sql
    ensures PrintDelete(d, conditions).args == PrintDelete(Numbered, conditions).args
  {
    ItemsErased(conditions, KwAnd, 1);
    EraseConcat([KwWhere], PrintWhere(Numbered, conditions, 1).sql);
    assert Erase([KwWhere]) == [KwWhere];
    DeleteNumbered(conditions);
    NumberErased(PrintDelete(Numbered, conditions).sql, 1);
  }

  lemma DeleteTheorem(d: Dialect, conditions: seq<Item>)
    ensures var p := PrintDelete(d, conditions);
            var change := ReadTail([], AsSent(d, p.sql), p.args);
            && (change.Some? <==> AllWellFormed(conditions))
            && (change.Some? ==> SelectsExactly(change.value, conditions))
  {
    if conditions != [] {
      var w := PrintWhere(Numbered, conditions, 1);
      DeleteAsSent(d, conditions);
      assert PrintDelete(Numbered, conditions).sql[1..] == w.sql;
      assert Placed(w.args, 1, w.args);
      WhereTheorem(conditions, 1, w.args);
    }
  }

  // ---------------------------------------------------------------- The mutations of the builder

  datatype Builder = Builder(conditions: seq<Item>, allowGlobal: bool, disableScopes: bool)

  /** What reflection finds out about the model. */
  datatype Model = Model(softDeletable: bool, hasUpdatedAt: bool)

  const DELETED_AT := "deleted_at"
  const UPDATED_AT := "updated_at"

  datatype Outcome = NoAssignments | RefusedGlobal | Query(p: Printed)

  function WithUpdatedAt(m: Model, assignments: seq<Assignment>, now: Value): seq<Assignment> {
    if !m.hasUpdatedAt || exists i :: 0 <= i < |assignments| && assignments[i].field == UPDATED_AT then assignments
    else assignments + [Assignment(UPDATED_AT, now)]
  }

  function Scoped(m: Model, b: Builder): seq<Item> {
    if !m.softDeletable || b.disableScopes then b.conditions
    else b.conditions + [Leaf(Condition(DELETED_AT, IsNull, Scalar(Null)))]
  }

  predicate Guarded(b: Builder) {
    b.conditions != [] || b.allowGlobal
  }

  function Update(m: Model, d: Dialect, b: Builder, assignments: seq<Assignment>, now: Value): Outcome {
    if assignments == [] then NoAssignments
    else if !Guarded(b) then RefusedGlobal
    else Query(PrintUpdate(d, WithUpdatedAt(m, assignments, now), Scoped(m, b)))
  }

  function Delete(m: Model, d: Dialect, b: Builder, now: Value): Outcome {
    if !Guarded(b) then RefusedGlobal
    else if m.softDeletable then Update(m, d, b, [Assignment(DELETED_AT, now)], now)
    else Query(PrintDelete(d, b.conditions))
  }

  function ForceDelete(d: Dialect, b: Builder): Outcome {
    if !Guarded(b) then RefusedGlobal else Query(PrintDelete(d, b.conditions))
  }

  /** The rows a mutation may touch: those the caller's conditions single out, less the soft-deleted ones. */
  ghost predicate Intended(m: Model, coll: Collation, row: Row, b: Builder) {
    Combined(coll, row, b.conditions, And).True? && (m.softDeletable && !b.disableScopes ==> row("deleted_at").Null?)
  }

  ghost predicate TouchesIntended(change: Change, m: Model, b: Builder) {
    forall coll: Collation, row: Row :: Selects(coll, row, change) <==> Intended(m, coll, row, b)
  }

  lemma {:induction false} AppendWellFormed(items: seq<Item>, last: Item)
    ensures AllWellFormed(items + [last]) <==> AllWellFormed(items) && WellFormed(last)
    decreases |items|
  {
    var longer := items + [last];
    if items == [] {
      assert longer[1..] == [];
      assert AllWellFormed(longer[1..]);
    } else {
      assert longer[1..] == items[1..] + [last];
      AppendWellFormed(items[1..], last);
    }
  }

  lemma ScopeIsIntended(m: Model, coll: Collation, row: Row, b: Builder)
    ensures Combined(coll, row, Scoped(m, b), And).True? <==> Intended(m, coll, row, b)
  {
    var all := Scoped(m, b);
    AllTrue(coll, row, all);
    AllTrue(coll, row, b.conditions);
    if all != b.conditions {
      assert forall i :: 0 <= i < |b.conditions| ==> all[i] == b.conditions[i];
      assert ItemMeaning(coll, row, all[|b.conditions|]).True? <==> row(DELETED_AT).Null?;
    }
  }

  /** Which calls send nothing: an Update without assignments, and any mutation without a condition that was not
      allowed to be global. */
  lemma RefusedExactly(m: Model, d: Dialect, b: Builder, assignments: seq<Assignment>, now: Value)
    ensures Update(m, d, b, assignments, now).NoAssignments? <==> assignments == []
    ensures Update(m, d, b, assignments, now).RefusedGlobal?
            <==> assignments != [] && b.conditions == [] && !b.allowGlobal
    ensures Delete(m, d, b, now).Query? <==> b.conditions != [] || b.allowGlobal
    ensures ForceDelete(d, b).Query? <==> b.conditions != [] || b.allowGlobal
    ensures !Delete(m, d, b, now).Query? ==> Delete(m, d, b, now).RefusedGlobal?
    ensures !ForceDelete(d, b).Query? ==> ForceDelete(d, b).RefusedGlobal?
  {
  }

  /** The columns an UPDATE sets: those the caller assigned, in order, and after them the timestamp if the model has
      one and the caller did not assign it. */
  ghost predicate SetsAsked(sets: seq<Assignment>, m: Model, assignments: seq<Assignment>, now: Value) {
    var stamped := exists a :: a in assignments && a.field == "updated_at";
    sets == assignments + if m.hasUpdatedAt && !stamped then [Assignment("updated_at", now)] else []
  }

  lemma TimestampOnce(m: Model, assignments: seq<Assignment>, now: Value)
    ensures SetsAsked(WithUpdatedAt(m, assignments, now), m, assignments, now)
  {
    assert (exists i :: 0 <= i < |assignments| && assignments[i].field == "updated_at")
      <==> exists a :: a in assignments && a.field == "updated_at";
    assert assignments + [] == assignments;
  }

  /** An UPDATE that is sent was guarded, sets what the caller asked plus the timestamp, and touches exactly the
      intended rows; malformed conditions make the database reject it. */
  lemma MutationTheorem(m: Model, d: Dialect, b: Builder, assignments: seq<Assignment>, now: Value)
    requires Update(m, d, b, assignments, now).Query?
    ensures b.conditions == [] ==> b.allowGlobal
    ensures var p := Update(m, d, b, assignments, now).p;
            var change := ReadUpdate(AsSent(d, p.sql), p.args);
            && (change.Some? <==> AllWellFormed(b.conditions))
            && (change.Some? ==> SetsAsked(change.value.sets, m, assignments, now))
            && (change.Some? ==> TouchesIntended(change.value, m, b))
  {
    TimestampOnce(m, assignments, now);
    UpdateTheorem(d, WithUpdatedAt(m, assignments, now), Scoped(m, b));
    AppendWellFormed(b.conditions, Leaf(Condition(DELETED_AT, IsNull, Scalar(Null))));
    forall coll: Collation, row: Row
      ensures Combined(coll, row, Scoped(m, b), And).True? <==> Intended(m, coll, row, b)
    {
      ScopeIsIntended(m, coll, row, b);
    }
  }

  /** ForceDelete, and Delete of a model without soft delete, remove exactly the rows that match, soft-deleted ones
      included, under the same guard. */
  lemma ForceDeleteTheorem(m: Model, d: Dialect, b: Builder, now: Value)
    requires ForceDelete(d, b).Query?
    ensures b.conditions == [] ==> b.allowGlobal
    ensures !m.softDeletable ==> Delete(m, d, b, now) == ForceDelete(d, b)
    ensures var p := ForceDelete(d, b).p;
            var change := ReadTail([], AsSent(d, p.sql), p.args);
            && (change.Some? <==> AllWellFormed(b.conditions))
            && (change.Some? ==> SelectsExactly(change.value, b.conditions))
  {
    DeleteTheorem(d, b.conditions);
  }

  /** Delete of a soft-deletable model hides exactly the intended rows and removes none. */
  lemma SoftDeleteTheorem(m: Model, d: Dialect, b: Builder, now: Value)
    requires m.softDeletable && Delete(m, d, b, now).Query? && AllWellFormed(b.conditions)
    ensures var p := Delete(m, d, b, now).p;
            var change := ReadUpdate(AsSent(d, p.sql), p.args);
            && change.Some? && TouchesIntended(change.value, m, b)
            && change.value.sets == [Assignment("deleted_at", now)]
                                    + if m.hasUpdatedAt then [Assignment("updated_at", now)] else []
  {
    MutationTheorem(m, d, b, [Assignment(DELETED_AT, now)], now);
  }
}
