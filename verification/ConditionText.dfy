/** Printing conditions to SQL tokens with numbered placeholders, and reading them back with SQL's precedence. */
module ConditionText {
  import opened Conditions
  import opened Options

  // ---------------------------------------------------------------- Tokens

  datatype Token =
    | Field(name: string)
    | Op(c: Comparison)
    | KwIn | KwNot | KwBetween | KwIs | KwNull | KwAnd | KwOr | KwSet | KwWhere
    | LParen | RParen | Comma
    | Mark(n: int)  // $n, and ? as Mark(0)

  datatype Dialect = Numbered | Positional

  function Placeholder(d: Dialect, n: int): Token {
    if d.Numbered? then Mark(n) else Mark(0)
  }

  /** SQL text together with its arguments. */
  datatype Printed = Printed(sql: seq<Token>, args: seq<Operand>)

  datatype Sections = Sections(parts: seq<seq<Token>>, args: seq<Operand>)

  function Join(parts: seq<seq<Token>>, sep: Token): seq<Token> {
    if parts == [] then []
    else if |parts| == 1 then parts[0]
    else parts[0] + [sep] + Join(parts[1..], sep)
  }

  function Scalars(vs: seq<Value>): seq<Operand> {
    seq(|vs|, i requires 0 <= i < |vs| => Scalar(vs[i]))
  }

  function Marks(d: Dialect, count: nat, n: int): seq<seq<Token>> {
    seq(count, i requires 0 <= i < count => [Placeholder(d, n + i)])
  }

  function CompareTokens(c: Comparison): seq<Token> {
    if c.NotLike? then [KwNot, Op(Like)] else [Op(c)]
  }

  function PrintCondition(d: Dialect, c: Condition, n: int): Printed {
    var vs := Elements(c.value);
    match c.op
    case IsNull => Printed([Field(c.field), KwIs, KwNull], [])
    case IsNotNull => Printed([Field(c.field), KwIs, KwNot, KwNull], [])
    case In =>
      Printed([Field(c.field), KwIn, LParen] + Join(Marks(d, |vs|, n), Comma) + [RParen], Scalars(vs))
    case NotIn =>
      Printed([Field(c.field), KwNot, KwIn, LParen] + Join(Marks(d, |vs|, n), Comma) + [RParen], Scalars(vs))
    case Between =>
      if |vs| != 2 then Printed([], [])
      else Printed([Field(c.field), KwBetween, Placeholder(d, n), KwAnd, Placeholder(d, n + 1)], Scalars(vs))
    case Compare(cmp) =>
      Printed([Field(c.field)] + CompareTokens(cmp) + [Placeholder(d, n)], [c.value])
  }

  function Separator(op: Connective): Token {
    if op.Or? then KwOr else KwAnd
  }

  function PrintItem(d: Dialect, item: Item, n: int): Printed
    decreases item, 1
  {
    match item
    case Leaf(c) => PrintCondition(d, c, n)
    case Group(items, op) =>
      var s := PrintItems(d, items, n);
      Printed([LParen] + Join(s.parts, Separator(op)) + [RParen], s.args)
  }

  /** The items one after the other, each numbering on from where the one before stopped. */
  function PrintItems(d: Dialect, items: seq<Item>, n: int): (s: Sections)
    ensures |s.parts| == |items|
    decreases items, 0
  {
    if items == [] then Sections([], [])
    else
      var first := PrintItem(d, items[0], n);
      var rest := PrintItems(d, items[1..], n + |first.args|);
      Sections([first.sql] + rest.parts, first.args + rest.args)
  }

  function PrintWhere(d: Dialect, conditions: seq<Item>, start: int): Printed {
    var s := PrintItems(d, conditions, start);
    Printed(Join(s.parts, KwAnd), s.args)
  }

  // ---------------------------------------------------------------- Reading

  /** A search condition as SQL groups it, with the placeholders bound. */
  datatype Expr =
    | Cmp(field: string, c: Comparison, v: Value)
    | InList(field: string, vs: seq<Value>)
    | Range(field: string, lo: Value, hi: Value)
    | NullTest(field: string)
    | Conj(l: Expr, r: Expr)
    | Disj(l: Expr, r: Expr)
    | Inverse(e: Expr)

  function Eval(coll: Collation, row: Row, e: Expr): Truth {
    match e
    case Cmp(f, c, v) => Test(coll, c, row(f), v)
    case InList(f, vs) => AnyEqual(coll, row(f), vs)
    case Range(f, lo, hi) => Both(Test(coll, Gte, row(f), lo), Test(coll, Lte, row(f), hi))
    case NullTest(f) => Truly(row(f).Null?)
    case Conj(l, r) => Both(Eval(coll, row, l), Eval(coll, row, r))
    case Disj(l, r) => Either(Eval(coll, row, l), Eval(coll, row, r))
    case Inverse(e) => Negation(Eval(coll, row, e))
  }

  datatype Read<+T> = Read(value: T, rest: seq<Token>)

  predicate StartsWith(ts: seq<Token>, t: Token) {
    ts != [] && ts[0] == t
  }

  /** The n-th argument, which the driver accepts only if it is a single value. */
  function BoundMark(ts: seq<Token>, args: seq<Operand>): Option<Value> {
    if ts != [] && ts[0].Mark? && 1 <= ts[0].n <= |args| && args[ts[0].n - 1].Scalar?
    then Some(args[ts[0].n - 1].v) else None
  }

  function ReadList(ts: seq<Token>, args: seq<Operand>): (r: Option<Read<seq<Value>>>)
    ensures r.Some? ==> |r.value.rest| < |ts|
    decreases |ts|
  {
    match BoundMark(ts, args)
    case None => None
    case Some(v) =>
      if StartsWith(ts[1..], RParen) then Some(Read([v], ts[2..]))
      else if StartsWith(ts[1..], Comma) then
        match ReadList(ts[2..], args)
        case None => None
        case Some(more) => Some(Read([v] + more.value, more.rest))
      else None
  }

  /** What follows a column name: a predicate of ISO/IEC 9075:1992, subclauses 8.2 to 8.6. */
  function ReadPredicate(f: string, ts: seq<Token>, args: seq<Operand>): (r: Option<Read<Expr>>)
    ensures r.Some? ==> |r.value.rest| < |ts|
  {
    if ts == [] then None
    else if ts[0].Op? && BoundMark(ts[1..], args).Some? then
      Some(Read(Cmp(f, ts[0].c, BoundMark(ts[1..], args).value), ts[2..]))
    else if StartsWith(ts, KwIs) && StartsWith(ts[1..], KwNull) then Some(Read(NullTest(f), ts[2..]))
    else if StartsWith(ts, KwIs) && StartsWith(ts[1..], KwNot) && StartsWith(ts[2..], KwNull) then
      Some(Read(Inverse(NullTest(f)), ts[3..]))
    else if StartsWith(ts, KwBetween) && BoundMark(ts[1..], args).Some?
            && StartsWith(ts[2..], KwAnd) && BoundMark(ts[3..], args).Some? then
      Some(Read(Range(f, BoundMark(ts[1..], args).value, BoundMark(ts[3..], args).value), ts[4..]))
    else if StartsWith(ts, KwIn) && StartsWith(ts[1..], LParen) then
      match ReadList(ts[2..], args)
      case None => None
      case Some(vs) => Some(Read(InList(f, vs.value), vs.rest))
    else if StartsWith(ts, KwNot) && StartsWith(ts[1..], KwIn) && StartsWith(ts[2..], LParen) then
      match ReadList(ts[3..], args)
      case None => None
      case Some(vs) => Some(Read(Inverse(InList(f, vs.value)), vs.rest))
    else if StartsWith(ts, KwNot) && StartsWith(ts[1..], Op(Like)) && BoundMark(ts[2..], args).Some? then
      Some(Read(Cmp(f, NotLike, BoundMark(ts[2..], args).value), ts[3..]))
    else None
  }

  /** <search condition> of subclause 8.12: terms separated by OR. */
  function ReadOr(ts: seq<Token>, args: seq<Operand>): (r: Option<Read<Expr>>)
    ensures r.Some? ==> |r.value.rest| < |ts|
    decreases |ts|, 3
  {
    match ReadAnd(ts, args)
    case None => None
    case Some(t) =>
      if StartsWith(t.rest, KwOr) then
        match ReadOr(t.rest[1..], args)
        case None => None
        case Some(more) => Some(Read(Disj(t.value, more.value), more.rest))
      else Some(t)
  }

  /** <boolean term>: factors separated by AND. */
  function ReadAnd(ts: seq<Token>, args: seq<Operand>): (r: Option<Read<Expr>>)
    ensures r.Some? ==> |r.value.rest| < |ts|
    decreases |ts|, 2
  {
    match ReadFactor(ts, args)
    case None => None
    case Some(t) =>
      if StartsWith(t.rest, KwAnd) then
        match ReadAnd(t.rest[1..], args)
        case None => None
        case Some(more) => Some(Read(Conj(t.value, more.value), more.rest))
      else Some(t)
  }

  /** <boolean factor>: NOT, a parenthesised search condition, or a predicate. */
  function ReadFactor(ts: seq<Token>, args: seq<Operand>): (r: Option<Read<Expr>>)
    ensures r.Some? ==> |r.value.rest| < |ts|
    decreases |ts|, 1
  {
    if ts == [] then None
    else if ts[0].KwNot? then
      match ReadFactor(ts[1..], args)
      case None => None
      case Some(t) => Some(Read(Inverse(t.value), t.rest))
    else if ts[0].LParen? then
      match ReadOr(ts[1..], args)
      case None => None
      case Some(t) => if StartsWith(t.rest, RParen) then Some(Read(t.value, t.rest[1..])) else None
    else if ts[0].Field? then ReadPredicate(ts[0].name, ts[1..], args)
    else None
  }

  /** A WHERE clause is one search condition and nothing after it. */
  function ReadWhere(ts: seq<Token>, args: seq<Operand>): Option<Expr> {
    match ReadOr(ts, args)
    case None => None
    case Some(t) => if t.rest == [] then Some(t.value) else None
  }
}
