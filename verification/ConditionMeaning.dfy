/** The printed text, read as SQL reads it, means what the condition tree means. */
module ConditionMeaning {
  import opened ConditionText
  import opened Conditions
  import opened Options

  // ---------------------------------------------------------------- The reading to expect

  ghost function ConditionExpr(c: Condition): Expr
    requires Proper(c)
  {
    var vs := Elements(c.value);
    match c.op
    case Compare(cmp) => Cmp(c.field, cmp, c.value.v)
    case In => InList(c.field, vs)
    case NotIn => Inverse(InList(c.field, vs))
    case Between => Range(c.field, vs[0], vs[1])
    case IsNull => NullTest(c.field)
    case IsNotNull => Inverse(NullTest(c.field))
  }

  ghost function ItemExpr(item: Item): Expr
    requires WellFormed(item)
    decreases item, 1
  {
    match item
    case Leaf(c) => ConditionExpr(c)
    case Group(items, op) => ListExpr(items, op)
  }

  ghost function ListExpr(items: seq<Item>, op: Connective): Expr
    requires items != [] && AllWellFormed(items)
    decreases items, 0
  {
    var first := ItemExpr(items[0]);
    if |items| == 1 then first
    else if op.And? then Conj(first, ListExpr(items[1..], op))
    else Disj(first, ListExpr(items[1..], op))
  }

  lemma {:induction false} ItemExprMeans(coll: Collation, row: Row, item: Item)
    requires WellFormed(item)
    ensures Eval(coll, row, ItemExpr(item)) == ItemMeaning(coll, row, item)
    decreases item, 1
  {
    if item.Group? {
      ListExprMeans(coll, row, item.items, item.op);
    }
  }

  lemma {:induction false} ListExprMeans(coll: Collation, row: Row, items: seq<Item>, op: Connective)
    requires items != [] && AllWellFormed(items)
    ensures Eval(coll, row, ListExpr(items, op)) == Combined(coll, row, items, op)
    decreases items, 0
  {
    ItemExprMeans(coll, row, items[0]);
    if |items| > 1 {
      ListExprMeans(coll, row, items[1..], op);
    } else {
      assert items[1..] == [];
    }
  }

  // ---------------------------------------------------------------- Reading what was printed

  /** `args` are the arguments of `all` from number `n` on. */
  ghost predicate Placed(all: seq<Operand>, n: int, args: seq<Operand>) {
    1 <= n && n - 1 + |args| <= |all| && all[n - 1..n - 1 + |args|] == args
  }

  lemma PlacedAt(all: seq<Operand>, n: int, args: seq<Operand>, i: nat)
    requires Placed(all, n, args) && i < |args|
    ensures all[n - 1 + i] == args[i]
  {
    assert all[n - 1..n - 1 + |args|][i] == args[i];
  }

  lemma PlacedSplit(all: seq<Operand>, n: int, front: seq<Operand>, back: seq<Operand>)
    requires Placed(all, n, front + back)
    ensures Placed(all, n, front) && Placed(all, n + |front|, back)
  {
    var both := front + back;
    assert both[..|front|] == front && both[|front|..] == back;
  }

  /** What may come after a complete item. */
  ghost predicate Follows(rest: seq<Token>) {
    rest == [] || rest[0] == KwAnd || rest[0] == KwOr || rest[0] == RParen
  }

  ghost predicate Closes(rest: seq<Token>) {
    rest == [] || rest[0] == RParen
  }

  lemma MarksStep(d: Dialect, count: nat, n: int)
    requires count > 0
    ensures Join(Marks(d, count, n), Comma)
         == if count == 1 then [Placeholder(d, n)]
            else [Placeholder(d, n), Comma] + Join(Marks(d, count - 1, n + 1), Comma)
  {
    var marks := Marks(d, count, n);
    assert marks[0] == [Placeholder(d, n)];
    if count > 1 {
      assert marks[1..] == Marks(d, count - 1, n + 1);
    }
  }

  /** A placeholder at the end of the list. */
  lemma ReadLastMark(n: int, all: seq<Operand>, rest: seq<Token>)
    requires 1 <= n <= |all| && all[n - 1].Scalar?
    ensures ReadList([Mark(n), RParen] + rest, all) == Some(Read([all[n - 1].v], rest))
  {
    var ts := [Mark(n), RParen] + rest;
    assert ts[1..] == [RParen] + rest && ts[2..] == rest;
  }

  /** A placeholder with more of the list after it. */
  lemma ReadMark(n: int, all: seq<Operand>, rest: seq<Token>)
    requires 1 <= n <= |all| && all[n - 1].Scalar?
    ensures ReadList([Mark(n), Comma] + rest, all)
         == match ReadList(rest, all)
            case None => None
            case Some(more) => Some(Read([all[n - 1].v] + more.value, more.rest))
  {
    var ts := [Mark(n), Comma] + rest;
    assert ts[1..] == [Comma] + rest && ts[2..] == rest;
  }

  lemma MarksStepClosed(count: nat, n: int, rest: seq<Token>)
    requires count > 0
    ensures Join(Marks(Numbered, count, n), Comma) + [RParen] + rest
         == if count == 1 then [Mark(n), RParen] + rest
            else [Mark(n), Comma] + (Join(Marks(Numbered, count - 1, n + 1), Comma) + [RParen] + rest)
  {
    MarksStep(Numbered, count, n);
  }

  lemma {:induction false} ReadMarks(vs: seq<Value>, n: int, all: seq<Operand>, rest: seq<Token>)
    requires Placed(all, n, Scalars(vs))
    ensures ReadList(Join(Marks(Numbered, |vs|, n), Comma) + [RParen] + rest, all)
         == if vs == [] then None else Some(Read(vs, rest))
    decreases |vs|
  {
    if vs == [] {
      assert Join(Marks(Numbered, |vs|, n), Comma) + [RParen] + rest == [RParen] + rest;
    } else {
      MarksStepClosed(|vs|, n, rest);
      PlacedAt(all, n, Scalars(vs), 0);
      assert all[n - 1] == Scalar(vs[0]);
      if |vs| == 1 {
        ReadLastMark(n, all, rest);
        assert [vs[0]] == vs;
      } else {
        var later := vs[1..];
        ReadMark(n, all, Join(Marks(Numbered, |later|, n + 1), Comma) + [RParen] + rest);
        ScalarsStep(vs);
        PlacedSplit(all, n, [Scalar(vs[0])], Scalars(later));
        ReadMarks(later, n + 1, all, rest);
        assert [vs[0]] + later == vs;
      }
    }
  }

  lemma ScalarsStep(vs: seq<Value>)
    requires vs != []
    ensures Scalars(vs) == [Scalar(vs[0])] + Scalars(vs[1..])
  {
  }

  lemma ReadCompared(c: Condition, n: int, all: seq<Operand>, rest: seq<Token>)
    requires c.op.Compare? && Placed(all, n, PrintCondition(Numbered, c, n).args)
    ensures ReadFactor(PrintCondition(Numbered, c, n).sql + rest, all)
         == if Proper(c) then Some(Read(ConditionExpr(c), rest)) else None
  {
    var ts := PrintCondition(Numbered, c, n).sql + rest;
    PlacedAt(all, n, [c.value], 0);
    if c.op.c.NotLike? {
      assert ts[1..] == [KwNot, Op(Like), Mark(n)] + rest;
      assert ts[1..][2..] == [Mark(n)] + rest && ts[1..][3..] == rest;
    } else {
      assert ts[1..] == [Op(c.op.c), Mark(n)] + rest;
      assert ts[1..][1..] == [Mark(n)] + rest && ts[1..][2..] == rest;
    }
  }

  lemma ReadIn(f: string, list: seq<Token>, all: seq<Operand>)
    ensures ReadFactor([Field(f), KwIn, LParen] + list, all)
         == match ReadList(list, all)
            case None => None
            case Some(r) => Some(Read(InList(f, r.value), r.rest))
  {
    var ts := [Field(f), KwIn, LParen] + list;
    assert ts[1..] == [KwIn, LParen] + list;
    assert ts[1..][2..] == list;
  }

  lemma ReadColumn(f: string, ts: seq<Token>, all: seq<Operand>)
    ensures ReadFactor([Field(f)] + ts, all) == ReadPredicate(f, ts, all)
  {
    assert ([Field(f)] + ts)[1..] == ts;
  }

  lemma NotInPredicate(f: string, list: seq<Token>, all: seq<Operand>)
    ensures ReadPredicate(f, [KwNot, KwIn, LParen] + list, all)
         == match ReadList(list, all)
            case None => None
            case Some(r) => Some(Read(Inverse(InList(f, r.value)), r.rest))
  {
    var ts := [KwNot, KwIn, LParen] + list;
    assert ts[1..] == [KwIn, LParen] + list;
    assert ts[2..] == [LParen] + list;
    assert ts[3..] == list;
  }

  lemma ReadNotIn(f: string, list: seq<Token>, all: seq<Operand>)
    ensures ReadFactor([Field(f), KwNot, KwIn, LParen] + list, all)
         == match ReadList(list, all)
            case None => None
            case Some(r) => Some(Read(Inverse(InList(f, r.value)), r.rest))
  {
    assert [Field(f), KwNot, KwIn, LParen] + list == [Field(f)] + ([KwNot, KwIn, LParen] + list);
    ReadColumn(f, [KwNot, KwIn, LParen] + list, all);
    NotInPredicate(f, list, all);
  }

  lemma ReadListed(c: Condition, n: int, all: seq<Operand>, rest: seq<Token>)
    requires (c.op.In? || c.op.NotIn?) && Placed(all, n, PrintCondition(Numbered, c, n).args)
    ensures ReadFactor(PrintCondition(Numbered, c, n).sql + rest, all)
         == if Proper(c) then Some(Read(ConditionExpr(c), rest)) else None
  {
    var vs := Elements(c.value);
    var marks := Join(Marks(Numbered, |vs|, n), Comma);
    ReadMarks(vs, n, all, rest);
    if c.op.In? {
      InsideList([Field(c.field), KwIn, LParen], marks, rest);
      ReadIn(c.field, marks + [RParen] + rest, all);
    } else {
      InsideList([Field(c.field), KwNot, KwIn, LParen], marks, rest);
      ReadNotIn(c.field, marks + [RParen] + rest, all);
    }
  }

  lemma InsideList(head: seq<Token>, marks: seq<Token>, rest: seq<Token>)
    ensures head + marks + [RParen] + rest == head + (marks + [RParen] + rest)
  {
  }

  lemma ReadRanged(c: Condition, n: int, all: seq<Operand>, rest: seq<Token>)
    requires c.op.Between? && Placed(all, n, PrintCondition(Numbered, c, n).args) && Follows(rest)
    ensures ReadFactor(PrintCondition(Numbered, c, n).sql + rest, all)
         == if Proper(c) then Some(Read(ConditionExpr(c), rest)) else None
  {
    var vs := Elements(c.value);
    var ts := PrintCondition(Numbered, c, n).sql + rest;
    if |vs| == 2 {
      PlacedAt(all, n, Scalars(vs), 0);
      PlacedAt(all, n, Scalars(vs), 1);
      assert ts[1..] == [KwBetween, Mark(n), KwAnd, Mark(n + 1)] + rest;
      assert ts[1..][4..] == rest;
    } else {
      assert ts == rest;
    }
  }

  lemma ReadNullTest(f: string, rest: seq<Token>, all: seq<Operand>)
    ensures ReadFactor([Field(f), KwIs, KwNull] + rest, all) == Some(Read(NullTest(f), rest))
    ensures ReadFactor([Field(f), KwIs, KwNot, KwNull] + rest, all) == Some(Read(Inverse(NullTest(f)), rest))
  {
    var positive, negative := [KwIs, KwNull] + rest, [KwIs, KwNot, KwNull] + rest;
    assert ([Field(f), KwIs, KwNull] + rest)[1..] == positive;
    assert ([Field(f), KwIs, KwNot, KwNull] + rest)[1..] == negative;
    assert positive[2..] == rest;
    assert negative[3..] == rest;
  }

  lemma {:induction false} ReadCondition(c: Condition, n: int, all: seq<Operand>, rest: seq<Token>)
    requires Placed(all, n, PrintCondition(Numbered, c, n).args) && Follows(rest)
    ensures ReadFactor(PrintCondition(Numbered, c, n).sql + rest, all)
         == if Proper(c) then Some(Read(ConditionExpr(c), rest)) else None
  {
    match c.op
    case Compare(_) => ReadCompared(c, n, all, rest);
    case In => ReadListed(c, n, all, rest);
    case NotIn => ReadListed(c, n, all, rest);
    case Between => ReadRanged(c, n, all, rest);
    case IsNull => ReadNullTest(c.field, rest, all);
    case IsNotNull => ReadNullTest(c.field, rest, all);
  }

  lemma {:induction false} ReadItem(item: Item, n: int, all: seq<Operand>, rest: seq<Token>)
    requires Placed(all, n, PrintItem(Numbered, item, n).args) && Follows(rest)
    ensures ReadFactor(PrintItem(Numbered, item, n).sql + rest, all)
         == if WellFormed(item) then Some(Read(ItemExpr(item), rest)) else None
    decreases item, 1
  {
    match item
    case Leaf(c) => ReadCondition(c, n, all, rest);
    case Group(items, op) =>
      var inner := Join(PrintItems(Numbered, items, n).parts, Separator(op));
      var ts := PrintItem(Numbered, item, n).sql + rest;
      assert ts[1..] == inner + ([RParen] + rest);
      assert ([RParen] + rest)[1..] == rest;
      ReadItems(items, op, n, all, [RParen] + rest);
  }

  lemma ItemsJoined(d: Dialect, items: seq<Item>, sep: Token, n: int)
    requires items != []
    ensures var first := PrintItem(d, items[0], n);
            var later := PrintItems(d, items[1..], n + |first.args|);
            && PrintItems(d, items, n).args == first.args + later.args
            && Join(PrintItems(d, items, n).parts, sep)
               == if |items| == 1 then first.sql else first.sql + [sep] + Join(later.parts, sep)
  {
    var first := PrintItem(d, items[0], n);
    var later := PrintItems(d, items[1..], n + |first.args|);
    var parts := PrintItems(d, items, n).parts;
    assert parts == [first.sql] + later.parts;
    assert parts[1..] == later.parts;
  }

  lemma ItemsStep(d: Dialect, items: seq<Item>, sep: Token, n: int, rest: seq<Token>)
    requires items != []
    ensures var first := PrintItem(d, items[0], n);
            var later := PrintItems(d, items[1..], n + |first.args|);
            && PrintItems(d, items, n).args == first.args + later.args
            && Join(PrintItems(d, items, n).parts, sep) + rest
               == if |items| == 1 then first.sql + rest else first.sql + ([sep] + (Join(later.parts, sep) + rest))
  {
    var first := PrintItem(d, items[0], n);
    ItemsJoined(d, items, sep, n);
    Regroup(first.sql, sep, Join(PrintItems(d, items[1..], n + |first.args|).parts, sep), rest);
  }

  lemma Regroup(a: seq<Token>, sep: Token, b: seq<Token>, c: seq<Token>)
    ensures a + [sep] + b + c == a + ([sep] + (b + c))
  {
  }

  ghost function Expected(items: seq<Item>, op: Connective, rest: seq<Token>): Option<Read<Expr>> {
    if items != [] && AllWellFormed(items) then Some(Read(ListExpr(items, op), rest)) else None
  }

  /** A non-empty list joined by one connective reads as that connective over its items; if any item is
      malformed, so is the whole. */
  lemma {:induction false} ReadItems(items: seq<Item>, op: Connective, n: int, all: seq<Operand>, rest: seq<Token>)
    requires Placed(all, n, PrintItems(Numbered, items, n).args) && Closes(rest)
    ensures var ts := Join(PrintItems(Numbered, items, n).parts, Separator(op)) + rest;
            ReadOr(ts, all) == Expected(items, op, rest) && (op.And? ==> ReadAnd(ts, all) == Expected(items, op, rest))
    decreases items, 0
  {
    var ts := Join(PrintItems(Numbered, items, n).parts, Separator(op)) + rest;
    if items == [] {
      assert ts == rest;
      ReadNothing(rest, all);
    } else {
      ItemsStep(Numbered, items, Separator(op), n, rest);
      var first := PrintItem(Numbered, items[0], n);
      var m := n + |first.args|;
      var later := PrintItems(Numbered, items[1..], m);
      PlacedSplit(all, n, first.args, later.args);
      if |items| == 1 {
        ReadItem(items[0], n, all, rest);
        ReadSingle(items, op, ts, all, rest);
      } else {
        var more := Join(later.parts, Separator(op)) + rest;
        ReadItem(items[0], n, all, [Separator(op)] + more);
        ReadItems(items[1..], op, m, all, rest);
        ReadJoined(items, op, ts, more, all, rest);
      }
    }
  }

  lemma ReadNothing(rest: seq<Token>, all: seq<Operand>)
    requires Closes(rest)
    ensures ReadOr(rest, all) == None && ReadAnd(rest, all) == None
  {
    assert ReadFactor(rest, all) == None;
  }

  lemma ReadSingle(items: seq<Item>, op: Connective, ts: seq<Token>, all: seq<Operand>, rest: seq<Token>)
    requires |items| == 1 && Closes(rest)
    requires ReadFactor(ts, all) == if WellFormed(items[0]) then Some(Read(ItemExpr(items[0]), rest)) else None
    ensures ReadOr(ts, all) == Expected(items, op, rest) && ReadAnd(ts, all) == Expected(items, op, rest)
  {
    ReadAlone(ts, all);
    ExpectedSingle(items, op, rest);
  }

  /** The reading of the first item and that of the others make the reading of the list. */
  lemma ReadJoined(items: seq<Item>, op: Connective, ts: seq<Token>, more: seq<Token>, all: seq<Operand>,
                   rest: seq<Token>)
    requires |items| > 1 && Closes(rest)
    requires ReadFactor(ts, all)
          == if WellFormed(items[0]) then Some(Read(ItemExpr(items[0]), [Separator(op)] + more)) else None
    requires ReadOr(more, all) == Expected(items[1..], op, rest)
    requires op.And? ==> ReadAnd(more, all) == Expected(items[1..], op, rest)
    ensures ReadOr(ts, all) == Expected(items, op, rest) && (op.And? ==> ReadAnd(ts, all) == Expected(items, op, rest))
  {
    ReadSeparated(ts, op, more, all);
    ExpectedStep(items, op, rest);
  }

  lemma ExpectedSingle(items: seq<Item>, op: Connective, rest: seq<Token>)
    requires |items| == 1
    ensures Expected(items, op, rest) == if WellFormed(items[0]) then Some(Read(ItemExpr(items[0]), rest)) else None
  {
    assert items[1..] == [];
    assert AllWellFormed(items[1..]);
    assert AllWellFormed(items) == WellFormed(items[0]);
  }

  lemma ExpectedStep(items: seq<Item>, op: Connective, rest: seq<Token>)
    requires |items| > 1
    ensures Expected(items, op, rest)
         == if !WellFormed(items[0]) || Expected(items[1..], op, rest).None? then None
            else var e := Expected(items[1..], op, rest).value.value;
                 Some(Read(if op.And? then Conj(ItemExpr(items[0]), e) else Disj(ItemExpr(items[0]), e), rest))
  {
  }

  /** A single factor that no connective follows. */
  lemma ReadAlone(ts: seq<Token>, all: seq<Operand>)
    requires ReadFactor(ts, all).Some? ==> Closes(ReadFactor(ts, all).value.rest)
    ensures ReadAnd(ts, all) == ReadFactor(ts, all) && ReadOr(ts, all) == ReadFactor(ts, all)
  {
  }

  /** A first factor that a connective follows. */
  lemma ReadSeparated(ts: seq<Token>, op: Connective, more: seq<Token>, all: seq<Operand>)
    requires ReadFactor(ts, all).Some? ==> ReadFactor(ts, all).value.rest == [Separator(op)] + more
    requires op.And? && ReadAnd(more, all).Some? ==> Closes(ReadAnd(more, all).value.rest)
    ensures var r := ReadFactor(ts, all);
            if r.None? then ReadOr(ts, all) == None && ReadAnd(ts, all) == None
            else if op.Or? then
              ReadOr(ts, all) == match ReadOr(more, all)
                                 case None => None
                                 case Some(t) => Some(Read(Disj(r.value.value, t.value), t.rest))
            else
              ReadAnd(ts, all) == ReadOr(ts, all)
              && ReadAnd(ts, all) == match ReadAnd(more, all)
                                     case None => None
                                     case Some(t) => Some(Read(Conj(r.value.value, t.value), t.rest))
  {
    assert ([Separator(op)] + more)[1..] == more;
  }

  // ---------------------------------------------------------------- Main result for numbered placeholders

  /** The text of a WHERE clause numbered from `start` reads back exactly when every condition is well-formed,
      and then its three-valued meaning is the conjunction of the conditions' meanings. */
  lemma WhereTheorem(conditions: seq<Item>, start: int, all: seq<Operand>)
    requires conditions != [] && Placed(all, start, PrintWhere(Numbered, conditions, start).args)
    ensures var e := ReadWhere(PrintWhere(Numbered, conditions, start).sql, all);
            && (e.Some? <==> AllWellFormed(conditions))
            && (e.Some? ==> forall coll: Collation, row: Row ::
                  Eval(coll, row, e.value) == Combined(coll, row, conditions, And))
  {
    var text := PrintWhere(Numbered, conditions, start).sql;
    ReadItems(conditions, And, start, all, []);
    assert text + [] == text;
    if AllWellFormed(conditions) {
      forall coll: Collation, row: Row
        ensures Eval(coll, row, ListExpr(conditions, And)) == Combined(coll, row, conditions, And)
      {
        ListExprMeans(coll, row, conditions, And);
      }
    }
  }

  // ---------------------------------------------------------------- Placeholder numbering

  /** The numbers of the placeholders, in text order. */
  function Numbers(ts: seq<Token>): seq<int> {
    if ts == [] then []
    else (if ts[0].Mark? then [ts[0].n] else []) + Numbers(ts[1..])
  }

  lemma {:induction false} NumbersConcat(a: seq<Token>, b: seq<Token>)
    ensures Numbers(a + b) == Numbers(a) + Numbers(b)
    decreases |a|
  {
    if a == [] {
      assert a + b == b;
    } else {
      NumbersConcat(a[1..], b);
      assert (a + b)[0] == a[0] && (a + b)[1..] == a[1..] + b;
      var head := if a[0].Mark? then [a[0].n] else [];
      assert head + (Numbers(a[1..]) + Numbers(b)) == head + Numbers(a[1..]) + Numbers(b);
    }
  }

  function Upwards(n: int, count: nat): seq<int> {
    seq(count, i => n + i)
  }

  lemma UpwardsConcat(n: int, a: nat, b: nat)
    ensures Upwards(n, a) + Upwards(n + a, b) == Upwards(n, a + b)
  {
  }

  lemma NumbersOfMark(n: int)
    ensures Numbers([Mark(n)]) == Upwards(n, 1)
  {
    assert [Mark(n)][1..] == [];
  }

  lemma {:induction false} MarksNumbered(count: nat, n: int)
    ensures Numbers(Join(Marks(Numbered, count, n), Comma)) == Upwards(n, count)
    decreases count
  {
    if count > 0 {
      MarksStep(Numbered, count, n);
      NumbersOfMark(n);
    }
    if count > 1 {
      MarksNumbered(count - 1, n + 1);
      NumbersConcat([Mark(n), Comma], Join(Marks(Numbered, count - 1, n + 1), Comma));
      assert [Mark(n), Comma] == [Mark(n)] + [Comma];
      NumbersConcat([Mark(n)], [Comma]);
      NoMarks([Comma]);
      UpwardsConcat(n, 1, count - 1);
    }
  }

  /** Text without placeholders around text with them. */
  lemma NumbersInside(before: seq<Token>, ts: seq<Token>, after: seq<Token>)
    requires forall t :: t in before ==> !t.Mark?
    requires forall t :: t in after ==> !t.Mark?
    ensures Numbers(before + ts + after) == Numbers(ts)
  {
    NumbersConcat(before + ts, after);
    NumbersConcat(before, ts);
    NoMarks(before);
    NoMarks(after);
  }

  lemma ListedNumbered(c: Condition, n: int)
    requires c.op.In? || c.op.NotIn?
    ensures var p := PrintCondition(Numbered, c, n); Numbers(p.sql) == Upwards(n, |p.args|)
  {
    var count := |Elements(c.value)|;
    var head := if c.op.In? then [Field(c.field), KwIn, LParen] else [Field(c.field), KwNot, KwIn, LParen];
    MarksNumbered(count, n);
    NumbersInside(head, Join(Marks(Numbered, count, n), Comma), [RParen]);
  }

  lemma ComparedNumbered(f: string, c: Comparison, n: int)
    ensures Numbers([Field(f)] + CompareTokens(c) + [Mark(n)]) == Upwards(n, 1)
  {
    var head := [Field(f)] + CompareTokens(c);
    NumbersOfMark(n);
    NumbersInside(head, [Mark(n)], []);
    assert head + [Mark(n)] == head + [Mark(n)] + [];
  }

  lemma RangeNumbered(f: string, n: int)
    ensures Numbers([Field(f), KwBetween, Mark(n), KwAnd, Mark(n + 1)]) == Upwards(n, 2)
  {
    var ts := [Field(f), KwBetween, Mark(n), KwAnd, Mark(n + 1)];
    NumbersOfMark(n);
    NumbersOfMark(n + 1);
    NumbersInside([Field(f), KwBetween], [Mark(n)], [KwAnd]);
    NumbersConcat([Field(f), KwBetween] + [Mark(n)] + [KwAnd], [Mark(n + 1)]);
    assert ts == [Field(f), KwBetween] + [Mark(n)] + [KwAnd] + [Mark(n + 1)];
    UpwardsConcat(n, 1, 1);
  }

  lemma ConditionNumbered(c: Condition, n: int)
    ensures var p := PrintCondition(Numbered, c, n); Numbers(p.sql) == Upwards(n, |p.args|)
  {
    match c.op
    case In => ListedNumbered(c, n);
    case NotIn => ListedNumbered(c, n);
    case Compare(cmp) => ComparedNumbered(c.field, cmp, n);
    case Between => RangeNumbered(c.field, n);
    case IsNull => NoMarks(PrintCondition(Numbered, c, n).sql);
    case IsNotNull => NoMarks(PrintCondition(Numbered, c, n).sql);
  }

  lemma {:induction false} NoMarks(ts: seq<Token>)
    requires forall t :: t in ts ==> !t.Mark?
    ensures Numbers(ts) == []
    decreases |ts|
  {
    if ts != [] {
      assert ts[0] in ts;
      NoMarks(ts[1..]);
    }
  }

  lemma {:induction false} ItemNumbered(item: Item, n: int)
    ensures var p := PrintItem(Numbered, item, n); Numbers(p.sql) == Upwards(n, |p.args|)
    decreases item, 1
  {
    match item
    case Leaf(c) => ConditionNumbered(c, n);
    case Group(items, op) =>
      var inner := Join(PrintItems(Numbered, items, n).parts, Separator(op));
      ItemsNumbered(items, Separator(op), n);
      NumbersInside([LParen], inner, [RParen]);
  }

  lemma SeparatedNumbered(total: seq<Token>, first: seq<Token>, sep: Token, more: seq<Token>, n: int, a: nat, b: nat)
    requires total == first + [sep] + more && !sep.Mark?
    requires Numbers(first) == Upwards(n, a) && Numbers(more) == Upwards(n + a, b)
    ensures Numbers(total) == Upwards(n, a + b)
  {
    assert total == first + ([sep] + more);
    NumbersConcat(first, [sep] + more);
    NumbersConcat([sep], more);
    NoMarks([sep]);
    assert Numbers([sep] + more) == Numbers(more);
    UpwardsConcat(n, a, b);
  }

  /** Joined items carry the numbers n, n+1, ... once each and in order, one per argument. */
  lemma {:induction false} ItemsNumbered(items: seq<Item>, sep: Token, n: int)
    requires !sep.Mark?
    ensures var s := PrintItems(Numbered, items, n); Numbers(Join(s.parts, sep)) == Upwards(n, |s.args|)
    decreases items, 0
  {
    if items != [] {
      var first := PrintItem(Numbered, items[0], n);
      var m := n + |first.args|;
      var text := Join(PrintItems(Numbered, items, n).parts, sep);
      ItemsJoined(Numbered, items, sep, n);
      ItemNumbered(items[0], n);
      if |items| > 1 {
        var later := PrintItems(Numbered, items[1..], m);
        ItemsNumbered(items[1..], sep, m);
        SeparatedNumbered(text, first.sql, sep, Join(later.parts, sep), n, |first.args|, |later.args|);
      } else {
        assert items[1..] == [];
        assert first.args + [] == first.args;
      }
    }
  }

  // ---------------------------------------------------------------- The text of one condition

  /** What a driver makes of a WHERE clause with this one condition. */
  function ReadBack(c: Condition): Option<Expr> {
    var p := PrintWhere(Numbered, [Leaf(c)], 1);
    ReadWhere(p.sql, p.args)
  }

  lemma OneCondition(coll: Collation, row: Row, c: Condition)
    ensures PrintWhere(Numbered, [Leaf(c)], 1) == PrintCondition(Numbered, c, 1)
    ensures ReadBack(c).Some? <==> Proper(c)
    ensures ReadBack(c).Some? ==> Eval(coll, row, ReadBack(c).value) == Meaning(coll, row, c)
  {
    var p := PrintWhere(Numbered, [Leaf(c)], 1);
    var first := PrintItem(Numbered, Leaf(c), 1);
    assert [Leaf(c)][1..] == [];
    ItemsJoined(Numbered, [Leaf(c)], KwAnd, 1);
    assert p.args == first.args + [] == first.args;
    assert Placed(p.args, 1, p.args);
    WhereTheorem([Leaf(c)], 1, p.args);
    assert AllWellFormed([Leaf(c)]) == WellFormed(Leaf(c));
    assert Combined(coll, row, [Leaf(c)], And) == Both(Meaning(coll, row, c), Combined(coll, row, [], And));
  }

  /** IN binds the values of the list in order, one argument each, and its text is true exactly if the column equals
      one of them and false exactly if it differs from all; without values the database rejects it. */
  lemma InTheorem(coll: Collation, row: Row, field: string, vs: seq<Value>)
    ensures var c := Condition(field, In, List(vs));
            var args := PrintWhere(Numbered, [Leaf(c)], 1).args;
            && |args| == |vs| && (forall i :: 0 <= i < |vs| ==> args[i] == Scalar(vs[i]))
            && (ReadBack(c).Some? <==> vs != [])
            && (vs != [] ==>
                  var truth := Eval(coll, row, ReadBack(c).value);
                  && (truth.True? <==> exists v :: v in vs && Test(coll, Eq, row(field), v).True?)
                  && (truth.False? <==> forall v :: v in vs ==> Test(coll, Eq, row(field), v).False?))
  {
    OneCondition(coll, row, Condition(field, In, List(vs)));
    MemberMeaning(coll, row, field, vs);
  }

  /** NOT IN binds the same values and is the negation. */
  lemma NotInTheorem(coll: Collation, row: Row, field: string, vs: seq<Value>)
    ensures var c := Condition(field, NotIn, List(vs));
            var args := PrintWhere(Numbered, [Leaf(c)], 1).args;
            && |args| == |vs| && (forall i :: 0 <= i < |vs| ==> args[i] == Scalar(vs[i]))
            && (ReadBack(c).Some? <==> vs != [])
            && (vs != [] ==>
                  var truth := Eval(coll, row, ReadBack(c).value);
                  && (truth.False? <==> exists v :: v in vs && Test(coll, Eq, row(field), v).True?)
                  && (truth.True? <==> forall v :: v in vs ==> Test(coll, Eq, row(field), v).False?))
  {
    OneCondition(coll, row, Condition(field, NotIn, List(vs)));
    MemberMeaning(coll, row, field, vs);
  }

  /** BETWEEN binds the lower bound first and is true exactly within the bounds; a list of any other length is
      rejected. */
  lemma BetweenTheorem(coll: Collation, row: Row, field: string, vs: seq<Value>)
    ensures var c := Condition(field, Between, List(vs));
            && (ReadBack(c).Some? <==> |vs| == 2)
            && (|vs| == 2 ==>
                  && PrintWhere(Numbered, [Leaf(c)], 1).args == [Scalar(vs[0]), Scalar(vs[1])]
                  && Eval(coll, row, ReadBack(c).value)
                     == Both(Test(coll, Gte, row(field), vs[0]), Test(coll, Lte, row(field), vs[1])))
  {
    OneCondition(coll, row, Condition(field, Between, List(vs)));
    if |vs| == 2 {
      assert vs == [vs[0], vs[1]];
      RangeMeaning(coll, row, field, vs[0], vs[1]);
      assert Scalars(vs) == [Scalar(vs[0]), Scalar(vs[1])];
    }
  }

  /** A comparison binds its value and tests the column against it; a slice is rejected. */
  lemma CompareTheorem(coll: Collation, row: Row, field: string, cmp: Comparison, value: Operand)
    ensures var c := Condition(field, Compare(cmp), value);
            && PrintWhere(Numbered, [Leaf(c)], 1).args == [value]
            && (ReadBack(c).Some? <==> value.Scalar?)
            && (value.Scalar? ==> Eval(coll, row, ReadBack(c).value) == Test(coll, cmp, row(field), value.v))
  {
    OneCondition(coll, row, Condition(field, Compare(cmp), value));
  }
}
