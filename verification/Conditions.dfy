/** The source language of the query builder: conditions, groups, and what they mean. */
module Conditions {

  // ---------------------------------------------------------------- Values and truth

  datatype Value = Null | Int(n: int) | Text(s: string)

  datatype Truth = True | False | Unknown

  function Truly(b: bool): Truth {
    if b then True else False
  }

  function Both(x: Truth, y: Truth): Truth {
    if x.False? || y.False? then False
    else if x.Unknown? || y.Unknown? then Unknown
    else True
  }

  function Either(x: Truth, y: Truth): Truth {
    Negation(Both(Negation(x), Negation(y)))
  }

  function Negation(x: Truth): Truth {
    match x
    case True => False
    case False => True
    case Unknown => Unknown
  }

  /** How the database compares values that are not NULL. */
  datatype Collation = Collation(
    equal: (Value, Value) -> bool,
    less: (Value, Value) -> bool,
    matches: (Value, Value) -> bool)

  type Row = string -> Value

  // ---------------------------------------------------------------- Conditions

  datatype Comparison = Eq | Ne | Gt | Gte | Lt | Lte | Like | NotLike

  datatype Operator = Compare(c: Comparison) | In | NotIn | Between | IsNull | IsNotNull

  /** The dynamic value of a condition: a slice, or anything else. */
  datatype Operand = Scalar(v: Value) | List(vs: seq<Value>)

  datatype Condition = Condition(field: string, op: Operator, value: Operand)

  datatype Connective = And | Or

  /** A Condition or a ConditionGroup. */
  datatype Item = Leaf(cond: Condition) | Group(items: seq<Item>, op: Connective)

  /** interfaceSlice: a slice is taken element by element, anything else counts as one element. */
  function Elements(value: Operand): seq<Value> {
    match value
    case Scalar(v) => [v]
    case List(vs) => vs
  }

  function Holds(coll: Collation, c: Comparison, x: Value, y: Value): bool {
    match c
    case Eq => coll.equal(x, y)
    case Ne => !coll.equal(x, y)
    case Lt => coll.less(x, y)
    case Gt => coll.less(y, x)
    case Lte => coll.less(x, y) || coll.equal(x, y)
    case Gte => coll.less(y, x) || coll.equal(x, y)
    case Like => coll.matches(x, y)
    case NotLike => !coll.matches(x, y)
  }

  /** A comparison with NULL is unknown. */
  function Test(coll: Collation, c: Comparison, x: Value, y: Value): Truth {
    if x.Null? || y.Null? then Unknown else Truly(Holds(coll, c, x, y))
  }

  function AnyEqual(coll: Collation, x: Value, vs: seq<Value>): Truth {
    if vs == [] then False else Either(Test(coll, Eq, x, vs[0]), AnyEqual(coll, x, vs[1..]))
  }

  function Meaning(coll: Collation, row: Row, c: Condition): Truth {
    var x := row(c.field);
    match c.op
    case Compare(cmp) => if c.value.Scalar? then Test(coll, cmp, x, c.value.v) else Unknown
    case In => AnyEqual(coll, x, Elements(c.value))
    case NotIn => Negation(AnyEqual(coll, x, Elements(c.value)))
    case Between =>
      var vs := Elements(c.value);
      if |vs| == 2 then Both(Test(coll, Gte, x, vs[0]), Test(coll, Lte, x, vs[1])) else Unknown
    case IsNull => Truly(x.Null?)
    case IsNotNull => Truly(!x.Null?)
  }

  function ItemMeaning(coll: Collation, row: Row, item: Item): Truth
    decreases item, 1
  {
    match item
    case Leaf(c) => Meaning(coll, row, c)
    case Group(items, op) => Combined(coll, row, items, op)
  }

  function Combined(coll: Collation, row: Row, items: seq<Item>, op: Connective): Truth
    decreases items, 0
  {
    if items == [] then (if op.And? then True else False)
    else
      var first := ItemMeaning(coll, row, items[0]);
      var rest := Combined(coll, row, items[1..], op);
      if op.And? then Both(first, rest) else Either(first, rest)
  }

  // ---------------------------------------------------------------- Well-formed conditions

  /** One value for a comparison, at least one for IN, two for BETWEEN. */
  predicate Proper(c: Condition) {
    match c.op
    case Compare(_) => c.value.Scalar?
    case In => Elements(c.value) != []
    case NotIn => Elements(c.value) != []
    case Between => |Elements(c.value)| == 2
    case IsNull => true
    case IsNotNull => true
  }

  predicate WellFormed(item: Item)
    decreases item, 1
  {
    match item
    case Leaf(c) => Proper(c)
    case Group(items, _) => items != [] && AllWellFormed(items)
  }

  predicate AllWellFormed(items: seq<Item>)
    decreases items, 0
  {
    items == [] || (WellFormed(items[0]) && AllWellFormed(items[1..]))
  }

  // ---------------------------------------------------------------- Constructors

  function AndOf(conditions: seq<Condition>): Item {
    Group(seq(|conditions|, i requires 0 <= i < |conditions| => Leaf(conditions[i])), And)
  }

  function OrOf(conditions: seq<Condition>): Item {
    Group(seq(|conditions|, i requires 0 <= i < |conditions| => Leaf(conditions[i])), Or)
  }

  lemma {:induction false} AllTrue(coll: Collation, row: Row, items: seq<Item>)
    ensures Combined(coll, row, items, And).True?
            <==> forall i :: 0 <= i < |items| ==> ItemMeaning(coll, row, items[i]).True?
    decreases |items|
  {
    if items != [] {
      AllTrue(coll, row, items[1..]);
      assert forall i :: 0 < i < |items| ==> items[i] == items[1..][i - 1];
    }
  }

  lemma {:induction false} AnyTrue(coll: Collation, row: Row, items: seq<Item>)
    ensures Combined(coll, row, items, Or).True?
            <==> exists i :: 0 <= i < |items| && ItemMeaning(coll, row, items[i]).True?
    decreases |items|
  {
    if items != [] {
      AnyTrue(coll, row, items[1..]);
      assert forall i :: 0 < i < |items| ==> items[i] == items[1..][i - 1];
    }
  }

  /** And makes a group that holds exactly where all the conditions do. */
  lemma ConjunctionIsTrue(coll: Collation, row: Row, conditions: seq<Condition>)
    ensures ItemMeaning(coll, row, AndOf(conditions)).True?
            <==> forall c :: c in conditions ==> Meaning(coll, row, c).True?
  {
    var items := AndOf(conditions).items;
    AllTrue(coll, row, items);
    assert forall i :: 0 <= i < |items| ==> ItemMeaning(coll, row, items[i]) == Meaning(coll, row, conditions[i]);
  }

  /** Or makes a group that holds exactly where one of the conditions does. */
  lemma DisjunctionIsTrue(coll: Collation, row: Row, conditions: seq<Condition>)
    ensures ItemMeaning(coll, row, OrOf(conditions)).True?
            <==> exists c :: c in conditions && Meaning(coll, row, c).True?
  {
    var items := OrOf(conditions).items;
    AnyTrue(coll, row, items);
    assert forall i :: 0 <= i < |items| ==> ItemMeaning(coll, row, items[i]) == Meaning(coll, row, conditions[i]);
    if c :| c in conditions && Meaning(coll, row, c).True? {
      var i :| 0 <= i < |conditions| && conditions[i] == c;
      assert ItemMeaning(coll, row, items[i]).True?;
    }
  }

  /** Not swaps six of the operators and returns every other condition as it is. */
  function Not(c: Condition): Condition {
    match c.op
    case Compare(Eq) => c.(op := Compare(Ne))
    case Compare(Ne) => c.(op := Compare(Eq))
    case IsNull => c.(op := IsNotNull)
    case IsNotNull => c.(op := IsNull)
    case In => c.(op := NotIn)
    case NotIn => c.(op := In)
    case _ => c
  }

  predicate Negatable(op: Operator) {
    op.In? || op.NotIn? || op.IsNull? || op.IsNotNull? || op == Compare(Eq) || op == Compare(Ne)
  }

  /** Not negates a condition on a row exactly when its operator is one of the six, or it is unknown there anyway. */
  lemma NotNegatesExactly(coll: Collation, row: Row, c: Condition)
    ensures Meaning(coll, row, Not(c)) == Negation(Meaning(coll, row, c))
            <==> Negatable(c.op) || Meaning(coll, row, c).Unknown?
  {
    if !Negatable(c.op) {
      assert Not(c) == c;
    }
  }

  // ---------------------------------------------------------------- What the values of a condition mean

  lemma {:induction false} AnyEqualTruth(coll: Collation, x: Value, vs: seq<Value>)
    ensures AnyEqual(coll, x, vs).True? <==> exists v :: v in vs && Test(coll, Eq, x, v).True?
    ensures AnyEqual(coll, x, vs).False? <==> forall v :: v in vs ==> Test(coll, Eq, x, v).False?
    decreases |vs|
  {
    if vs != [] {
      AnyEqualTruth(coll, x, vs[1..]);
      assert vs == [vs[0]] + vs[1..];
    }
  }

  /** IN over a list is true exactly if one of its values is equal, and false exactly if all of them differ. */
  lemma MemberMeaning(coll: Collation, row: Row, field: string, vs: seq<Value>)
    ensures var m := Meaning(coll, row, Condition(field, In, List(vs)));
            && (m.True? <==> exists v :: v in vs && Test(coll, Eq, row(field), v).True?)
            && (m.False? <==> forall v :: v in vs ==> Test(coll, Eq, row(field), v).False?)
            && Meaning(coll, row, Condition(field, NotIn, List(vs))) == Negation(m)
  {
    AnyEqualTruth(coll, row(field), vs);
  }

  /** BETWEEN takes the first value of the list as the lower bound and the second as the upper one. */
  lemma RangeMeaning(coll: Collation, row: Row, field: string, lo: Value, hi: Value)
    ensures Meaning(coll, row, Condition(field, Between, List([lo, hi])))
         == Both(Test(coll, Gte, row(field), lo), Test(coll, Lte, row(field), hi))
  {
  }

  /** Where the database orders integers as usual, the comparisons are the usual ones. */
  lemma IntegerComparisons(coll: Collation, a: int, b: int)
    requires forall x, y :: coll.less(Int(x), Int(y)) == (x < y) && coll.equal(Int(x), Int(y)) == (x == y)
    ensures Test(coll, Eq, Int(a), Int(b)).True? <==> a == b
    ensures Test(coll, Ne, Int(a), Int(b)).True? <==> a != b
    ensures Test(coll, Lt, Int(a), Int(b)).True? <==> a < b
    ensures Test(coll, Lte, Int(a), Int(b)).True? <==> a <= b
    ensures Test(coll, Gt, Int(a), Int(b)).True? <==> a > b
    ensures Test(coll, Gte, Int(a), Int(b)).True? <==> a >= b
  {
  }

  /** LIKE matches the column against the pattern, and nothing compares with NULL. */
  lemma OtherComparisons(coll: Collation, s: string, pattern: string, c: Comparison, x: Value)
    ensures Test(coll, Like, Text(s), Text(pattern)).True? <==> coll.matches(Text(s), Text(pattern))
    ensures Test(coll, NotLike, Text(s), Text(pattern)).True? <==> !coll.matches(Text(s), Text(pattern))
    ensures Test(coll, c, Null, x).Unknown? && Test(coll, c, x, Null).Unknown?
  {
  }

  /** A value that is not a slice counts as a list of one. */
  lemma SingleMeaning(coll: Collation, row: Row, field: string, v: Value)
    ensures Meaning(coll, row, Condition(field, In, Scalar(v))) == Test(coll, Eq, row(field), v)
    ensures Meaning(coll, row, Condition(field, NotIn, Scalar(v))) == Negation(Test(coll, Eq, row(field), v))
  {
    assert [v][1..] == [];
    assert AnyEqual(coll, row(field), [v]) == Either(Test(coll, Eq, row(field), v), AnyEqual(coll, row(field), []));
  }
}
