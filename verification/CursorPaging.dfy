/** Keyset pagination over a unique order column, while other sessions insert and delete rows. */
module CursorPaging {
  import opened Options
  import opened Ordering

  /** Rows by the value of the order column, which is unique and never changes. */
  type Table = map<int, string>

  /** The conditions the builder already carries. */
  type Filter = (int, string) -> bool

  /** A cursor as a client sends it: one that cannot be decoded, or one that carries an order value. */
  datatype Cursor = Garbled | At(position: int)

  /** CursorConfig, with its cursors as sent or decoded. */
  datatype Config<+C> = Config(orderBy: string, desc: bool, first: int, after: Option<C>, last: int, before: Option<C>)

  /** A page shows each row by its order value, which is also what its cursor carries. */
  datatype Page = Page(items: seq<int>, hasNext: bool, hasPrevious: bool, start: Option<int>, end: Option<int>)

  datatype Fetched = Invalid | BadCursor | QueryFailed | Fetched(page: Page)

  // ---------------------------------------------------------------- Order

  predicate Precedes(desc: bool, x: int, y: int) {
    if desc then x > y else x < y
  }

  ghost predicate InOrder(desc: bool, s: seq<int>) {
    forall i, j :: 0 <= i < j < |s| ==> Precedes(desc, s[i], s[j])
  }

  function Reverse(s: seq<int>): (r: seq<int>)
    ensures |r| == |s|
  {
    seq(|s|, i requires 0 <= i < |s| => s[|s| - 1 - i])
  }

  /** ORDER BY the order column. */
  function Ordered(desc: bool, s: set<int>): (r: seq<int>)
    ensures |r| == |s|
  {
    if desc then Reverse(Ascending(s)) else Ascending(s)
  }

  lemma OrderedFacts(desc: bool, s: set<int>)
    ensures InOrder(desc, Ordered(desc, s))
    ensures forall k :: k in Ordered(desc, s) <==> k in s
  {
    AscendingFacts(s);
    var up := Ascending(s);
    if desc {
      forall k
        ensures k in Reverse(up) <==> k in s
      {
        if k in s {
          assert k in up;
          var i :| 0 <= i < |up| && up[i] == k;
          assert Reverse(up)[|up| - 1 - i] == k;
        }
        if k in Reverse(up) {
          var i :| 0 <= i < |up| && Reverse(up)[i] == k;
          assert up[|up| - 1 - i] in up;
        }
      }
    }
  }

  lemma {:induction false} InOrderUnique(desc: bool, a: seq<int>, b: seq<int>)
    requires InOrder(desc, a) && InOrder(desc, b)
    requires forall k :: k in a <==> k in b
    ensures a == b
  {
    if desc {
      SameMembersReversed(a, b);
      AscendingUnique(Reverse(a), Reverse(b));
      assert Reverse(Reverse(a)) == a && Reverse(Reverse(b)) == b;
    } else {
      AscendingUnique(a, b);
    }
  }

  lemma SameMembersReversed(a: seq<int>, b: seq<int>)
    requires forall k :: k in a <==> k in b
    ensures forall k :: k in Reverse(a) <==> k in Reverse(b)
  {
    forall k
      ensures k in Reverse(a) <==> k in Reverse(b)
    {
      ReverseMember(a, k);
      ReverseMember(b, k);
    }
  }

  lemma ReverseMember(s: seq<int>, k: int)
    ensures k in Reverse(s) <==> k in s
  {
    if k in s {
      var i :| 0 <= i < |s| && s[i] == k;
      assert Reverse(s)[|s| - 1 - i] == k;
    }
  }

  lemma OrderedOpposite(desc: bool, s: set<int>)
    ensures Ordered(!desc, s) == Reverse(Ordered(desc, s))
  {
    assert Reverse(Reverse(Ascending(s))) == Ascending(s);
  }

  // ---------------------------------------------------------------- The reference algorithm

  predicate Within(desc: bool, after: Option<int>, before: Option<int>, k: int) {
    (after.None? || Precedes(desc, after.value, k)) && (before.None? || Precedes(desc, k, before.value))
  }

  function Matching(t: Table, filter: Filter): set<int> {
    set k | k in t && filter(k, t[k])
  }

  /** GraphQL Cursor Connections Specification, section 4.4, ApplyCursorsToEdges: drop what lies outside the cursors. */
  function ApplyCursors(edges: seq<int>, desc: bool, after: Option<int>, before: Option<int>): seq<int> {
    if edges == [] then []
    else
      (if Within(desc, after, before, edges[0]) then [edges[0]] else []) + ApplyCursors(edges[1..], desc, after, before)
  }

  /** Section 4.4, EdgesToReturn, with `limit` for whichever of first and last is given. */
  function EdgesToReturn(t: Table, filter: Filter, c: Config<int>, limit: nat): seq<int> {
    var edges := ApplyCursors(Ordered(c.desc, Matching(t, filter)), c.desc, c.after, c.before);
    if c.last > 0 then TakeLast(edges, limit) else TakeFirst(edges, limit)
  }

  function TakeFirst(s: seq<int>, n: nat): seq<int> {
    if |s| <= n then s else s[..n]
  }

  function TakeLast(s: seq<int>, n: nat): seq<int> {
    if |s| <= n then s else s[|s| - n..]
  }

  lemma {:induction false} ApplyCursorsMembers(edges: seq<int>, desc: bool, after: Option<int>, before: Option<int>)
    requires InOrder(desc, edges)
    ensures var r := ApplyCursors(edges, desc, after, before);
            InOrder(desc, r) && forall k :: k in r <==> k in edges && Within(desc, after, before, k)
    decreases |edges|
  {
    if edges != [] {
      ApplyCursorsMembers(edges[1..], desc, after, before);
      var rest := ApplyCursors(edges[1..], desc, after, before);
      forall k | k in rest
        ensures Precedes(desc, edges[0], k)
      {
        assert k in edges[1..];
      }
    }
  }

  function Cut(s: set<int>, desc: bool, after: Option<int>, before: Option<int>): set<int> {
    set k | k in s && Within(desc, after, before, k)
  }

  /** Filtering the ordered rows is ordering the filtered rows. */
  lemma CutIsOrdered(s: set<int>, desc: bool, after: Option<int>, before: Option<int>)
    ensures ApplyCursors(Ordered(desc, s), desc, after, before) == Ordered(desc, Cut(s, desc, after, before))
  {
    var cut := Cut(s, desc, after, before);
    OrderedFacts(desc, s);
    OrderedFacts(desc, cut);
    ApplyCursorsMembers(Ordered(desc, s), desc, after, before);
    InOrderUnique(desc, ApplyCursors(Ordered(desc, s), desc, after, before), Ordered(desc, cut));
  }

  // ---------------------------------------------------------------- Fetch

  datatype Bound = Less(value: int) | Greater(value: int)

  predicate Passes(b: Bound, k: int) {
    match b
    case Less(v) => k < v
    case Greater(v) => k > v
  }

  function Selected(s: set<int>, bounds: seq<Bound>): set<int> {
    set k | k in s && forall b :: b in bounds ==> Passes(b, k)
  }

  /** SELECT with the added conditions, ORDER BY and LIMIT. */
  function Find(t: Table, filter: Filter, bounds: seq<Bound>, desc: bool, limit: nat): seq<int> {
    var rows := Ordered(desc, Selected(Matching(t, filter), bounds));
    if |rows| <= limit then rows else rows[..limit]
  }

  method ReverseSlice(slice: array<int>)
    modifies slice
    ensures slice[..] == Reverse(old(slice[..]))
  {
    var i, j := 0, slice.Length - 1;
    while i < j
      invariant 0 <= i && i + j == slice.Length - 1 && i <= j + 1
      invariant forall k :: 0 <= k < slice.Length ==>
        slice[k] == if i <= k <= j then old(slice[k]) else old(slice[slice.Length - 1 - k])
    {
      slice[i], slice[j] := slice[j], slice[i];
      i, j := i + 1, j - 1;
    }
  }

  function Limit(c: Config<int>): nat {
    if c.last > 0 then c.last else if c.first > 0 then c.first else 20
  }

  predicate Valid<C>(c: Config<C>) {
    c.orderBy != "" && !(c.first > 0 && c.last > 0) && !(c.after.Some? && c.before.Some?)
  }

  /** How many rows the cursors leave. */
  function Remaining(t: Table, filter: Filter, c: Config<int>): nat {
    |ApplyCursors(Ordered(c.desc, Matching(t, filter)), c.desc, c.after, c.before)|
  }

  /** The conditions that the cursors of a configuration add. */
  function Bounds(c: Config<int>): seq<Bound> {
    (if c.after.None? then [] else [if c.desc then Less(c.after.value) else Greater(c.after.value)])
    + (if c.before.None? then [] else [if c.desc then Greater(c.before.value) else Less(c.before.value)])
  }

  lemma BoundsAreCursors(s: set<int>, c: Config<int>)
    ensures Selected(s, Bounds(c)) == Cut(s, c.desc, c.after, c.before)
  {
    var bounds := Bounds(c);
    forall k
      ensures (forall b :: b in bounds ==> Passes(b, k)) <==> Within(c.desc, c.after, c.before, k)
    {
      if c.after.Some? {
        assert bounds[0] in bounds;
      }
      if c.before.Some? {
        assert bounds[|bounds| - 1] in bounds;
      }
    }
  }

  lemma ReverseTail(s: seq<int>, n: nat)
    requires n <= |s|
    ensures Reverse(Reverse(s)[..n]) == s[|s| - n..]
    ensures Reverse(Reverse(s)) == s
  {
  }

  /** The extra row asked for tells whether there is more; the rest is what the specification prescribes. */
  lemma TrimmedFind(t: Table, filter: Filter, c: Config<int>)
    ensures var rows := Find(t, filter, Bounds(c), if c.last > 0 then !c.desc else c.desc, Limit(c) + 1);
            var kept := if |rows| > Limit(c) then rows[..Limit(c)] else rows;
            && (|rows| > Limit(c) <==> Remaining(t, filter, c) > Limit(c))
            && (if c.last > 0 then Reverse(kept) else kept) == EdgesToReturn(t, filter, c, Limit(c))
  {
    var s := Matching(t, filter);
    BoundsAreCursors(s, c);
    CutIsOrdered(s, c.desc, c.after, c.before);
    var cut := Cut(s, c.desc, c.after, c.before);
    var limit := Limit(c);
    if c.last > 0 {
      OrderedOpposite(c.desc, cut);
      var all, turned := Ordered(c.desc, cut), Ordered(!c.desc, cut);
      if |all| > limit {
        ReverseTail(all, limit);
        assert |turned| > limit + 1 ==> turned[..limit + 1][..limit] == turned[..limit];
      } else {
        ReverseTail(all, 0);
      }
    } else {
      var all := Ordered(c.desc, cut);
      assert |all| > limit + 1 ==> all[..limit + 1][..limit] == all[..limit];
    }
  }

  /** How many rows a page shows: as many as First or Last asks for, 20 if neither does, or all there are. */
  lemma PageSize(t: Table, filter: Filter, c: Config<int>)
    requires Valid(c)
    ensures var shown, all := |EdgesToReturn(t, filter, c, Limit(c))|, Remaining(t, filter, c);
            && (c.first > 0 ==> shown == if all < c.first then all else c.first)
            && (c.last > 0 ==> shown == if all < c.last then all else c.last)
            && (c.first <= 0 && c.last <= 0 ==> shown == if all < 20 then all else 20)
  {
  }

  method CursorBounds(config: Config<int>) returns (bounds: seq<Bound>)
    ensures bounds == Bounds(config)
  {
    bounds := [];
    if config.after.Some? {
      if config.desc {
        bounds := bounds + [Less(config.after.value)];
      } else {
        bounds := bounds + [Greater(config.after.value)];
      }
    }
    if config.before.Some? {
      if config.desc {
        bounds := bounds + [Greater(config.before.value)];
      } else {
        bounds := bounds + [Less(config.before.value)];
      }
    }
  }

  method Reversed(items: seq<int>) returns (r: seq<int>)
    ensures r == Reverse(items)
  {
    var slice := new int[|items|](i requires 0 <= i < |items| => items[i]);
    assert slice[..] == items;
    ReverseSlice(slice);
    r := slice[..];
  }

  /** The rows of the page, in its order, and whether the query found one more. */
  method FetchItems(t: Table, filter: Filter, config: Config<int>, limit: nat) returns (items: seq<int>, hasMore: bool)
    requires limit == Limit(config)
    ensures items == EdgesToReturn(t, filter, config, limit)
    ensures hasMore <==> Remaining(t, filter, config) > limit
  {
    var queryLimit := limit + 1;
    var bounds := CursorBounds(config);
    var desc := config.desc;
    if config.last > 0 {
      desc := !config.desc;
    }
    TrimmedFind(t, filter, config);
    items := Find(t, filter, bounds, desc, queryLimit);
    hasMore := |items| > limit;
    if hasMore {
      items := items[..limit];
    }
    if config.last > 0 {
      items := Reversed(items);
    }
  }

  /** The flags and cursors of a page, given how many rows the cursors leave. */
  ghost predicate Describes(page: Page, c: Config<int>, remaining: nat) {
    && page.hasNext == (if c.last > 0 || c.before.Some? then c.before.Some?
                        else (c.first > 0 || c.after.Some?) && remaining > Limit(c))
    && page.hasPrevious == (if c.last > 0 || c.before.Some? then remaining > Limit(c) else c.after.Some?)
    && page.start == (if page.items == [] then None else Some(page.items[0]))
    && page.end == (if page.items == [] then None else Some(page.items[|page.items| - 1]))
  }

  predicate Decodable(c: Config<Cursor>) {
    c.after != Some(Garbled) && c.before != Some(Garbled)
  }

  function Position(c: Option<Cursor>): Option<int>
    requires c != Some(Garbled)
  {
    if c.None? then None else Some(c.value.position)
  }

  function Decoded(c: Config<Cursor>): Config<int>
    requires Decodable(c)
  {
    Config(c.orderBy, c.desc, c.first, Position(c.after), c.last, Position(c.before))
  }

  /** `answers` tells whether the query works. */
  method Fetch(t: Table, filter: Filter, config: Config<Cursor>, answers: bool) returns (r: Fetched)
    ensures r.Invalid? <==> config.orderBy == "" || (config.first > 0 && config.last > 0)
                            || (config.after.Some? && config.before.Some?)
    ensures r.BadCursor? <==> Valid(config) && (config.after == Some(Garbled) || config.before == Some(Garbled))
    ensures r.QueryFailed? <==> Valid(config) && Decodable(config) && !answers
    ensures r.Fetched? ==>
      var c := Decoded(config);
      r.page.items == EdgesToReturn(t, filter, c, Limit(c)) && Describes(r.page, c, Remaining(t, filter, c))
  {
    if config.orderBy == "" {
      return Invalid;
    }
    if config.first > 0 && config.last > 0 {
      return Invalid;
    }
    if config.after.Some? && config.before.Some? {
      return Invalid;
    }
    var limit := config.first;
    if config.last > 0 {
      limit := config.last;
    }
    if limit <= 0 {
      limit := 20;
    }
    if config.after.Some? && config.after.value.Garbled? {
      return BadCursor;
    }
    if config.before.Some? && config.before.value.Garbled? {
      return BadCursor;
    }
    if !answers {
      return QueryFailed;
    }
    var page := FetchPage(t, filter, Decoded(config), limit);
    return Fetched(page);
  }

  /** The part of Fetch from the query on. */
  method FetchPage(t: Table, filter: Filter, config: Config<int>, limit: nat) returns (page: Page)
    requires Valid(config) && limit == Limit(config)
    ensures page.items == EdgesToReturn(t, filter, config, limit)
    ensures Describes(page, config, Remaining(t, filter, config))
  {
    var items, hasMore := FetchItems(t, filter, config, limit);
    page := Page(items, false, false, None, None);
    if config.first > 0 || config.after.Some? {
      page := page.(hasNext := hasMore, hasPrevious := config.after.Some?);
    }
    if config.last > 0 || config.before.Some? {
      page := page.(hasPrevious := hasMore, hasNext := config.before.Some?);
    }
    if |items| > 0 {
      page := page.(start := Some(items[0]), end := Some(items[|items| - 1]));
    }
  }

  /** The specification's HasNextPage for `first`: edges beyond the page. With a Before cursor Fetch answers
      true regardless, so the two agree exactly when there is no such cursor or there is more anyway. */
  lemma HasNextPageExact(page: Page, c: Config<int>, remaining: nat)
    requires Valid(c) && c.first > 0 && Describes(page, c, remaining)
    ensures page.hasNext == (remaining > c.first) <==> c.before.None? || remaining > c.first
  {
    assert Limit(c) == c.first;
  }

  /** The specification's HasPreviousPage, where it leaves no choice: for `last`, edges in front of the page; without
      `last` and After, false. With a Before cursor Fetch answers whether there is more all the same, so the two agree
      exactly when `last` is given, or there is no such cursor, or nothing is left over. */
  lemma HasPreviousPageExact(page: Page, c: Config<int>, remaining: nat)
    requires Valid(c) && (c.last > 0 || c.after.None?) && Describes(page, c, remaining)
    ensures page.hasPrevious == (c.last > 0 && remaining > c.last)
            <==> c.last > 0 || c.before.None? || remaining <= Limit(c)
  {
    assert c.last > 0 ==> Limit(c) == c.last;
  }

  function TwoRows(): Table {
    map[1 := "one", 2 := "two"]
  }

  /** The first `n` rows of those before 3. */
  function FirstBeforeThree(n: int): Config<int> {
    Config("key", false, n, None, 0, Some(3))
  }

  lemma TwoRowsInOrder(filter: Filter, n: int)
    requires filter(1, "one") && filter(2, "two")
    ensures var c := FirstBeforeThree(n);
            ApplyCursors(Ordered(c.desc, Matching(TwoRows(), filter)), c.desc, c.after, c.before) == [1, 2]
  {
    var cut := Cut(Matching(TwoRows(), filter), false, None, Some(3));
    CutIsOrdered(Matching(TwoRows(), filter), false, None, Some(3));
    OrderedFacts(false, cut);
    InOrderUnique(false, Ordered(false, cut), [1, 2]);
  }

  /** Of two rows before the cursor, a page of two has no next page and a page of one no previous page; Fetch says they
      have. */
  lemma BeforeMisleads(filter: Filter, two: Page, one: Page)
    requires filter(1, "one") && filter(2, "two")
    requires two.items == EdgesToReturn(TwoRows(), filter, FirstBeforeThree(2), 2)
    requires Describes(two, FirstBeforeThree(2), Remaining(TwoRows(), filter, FirstBeforeThree(2)))
    requires one.items == EdgesToReturn(TwoRows(), filter, FirstBeforeThree(1), 1)
    requires Describes(one, FirstBeforeThree(1), Remaining(TwoRows(), filter, FirstBeforeThree(1)))
    ensures two.items == [1, 2] && two.hasNext
    ensures one.items == [1] && one.hasPrevious
  {
    TwoRowsInOrder(filter, 2);
    TwoRowsInOrder(filter, 1);
  }

  // ---------------------------------------------------------------- Walking forward

  /** One page of a forward walk, as Fetch's contract gives it for First and After. */
  function Forward(t: Table, filter: Filter, desc: bool, first: nat, after: Option<int>): Page
    requires first > 0
  {
    var c := Config("key", desc, first, after, 0, None);
    WithCursors(EdgesToReturn(t, filter, c, first), Remaining(t, filter, c) > first, after.Some?)
  }

  function WithCursors(items: seq<int>, hasNext: bool, hasPrevious: bool): Page {
    Page(items, hasNext, hasPrevious,
         if items == [] then None else Some(items[0]),
         if items == [] then None else Some(items[|items| - 1]))
  }

  /** A walk that follows EndCursor while HasNextPage says so; the i-th page is read from the i-th table. */
  function Walk(tables: seq<Table>, filter: Filter, desc: bool, first: nat, after: Option<int>): (pages: seq<Page>)
    requires first > 0
    ensures |pages| <= |tables|
    decreases |tables|
  {
    if tables == [] then []
    else
      var page := Forward(tables[0], filter, desc, first, after);
      [page] + if page.hasNext then Walk(tables[1..], filter, desc, first, page.end) else []
  }

  function Output(pages: seq<Page>): seq<int> {
    if pages == [] then [] else pages[0].items + Output(pages[1..])
  }

  ghost predicate Finished(pages: seq<Page>) {
    pages != [] && !pages[|pages| - 1].hasNext
  }

  /** Row `k` is there, and matches, whenever one of the first `n` tables is read. */
  ghost predicate PresentThroughout(tables: seq<Table>, n: nat, filter: Filter, k: int)
    requires n <= |tables|
  {
    forall i :: 0 <= i < n ==> k in Matching(tables[i], filter)
  }

  ghost predicate Beyond(desc: bool, after: Option<int>, s: seq<int>) {
    forall k :: k in s ==> Within(desc, after, None, k)
  }

  lemma ForwardShape(t: Table, filter: Filter, desc: bool, first: nat, after: Option<int>)
    requires first > 0
    ensures var p := Forward(t, filter, desc, first, after);
            var edges := ApplyCursors(Ordered(desc, Matching(t, filter)), desc, after, None);
            && InOrder(desc, edges) && p.items <= edges && (!p.hasNext ==> p.items == edges)
            && Beyond(desc, after, edges)
            && (forall k :: k in edges <==> k in Matching(t, filter) && Within(desc, after, None, k))
            && (p.hasNext ==> p.items != [])
  {
    OrderedFacts(desc, Matching(t, filter));
    ApplyCursorsMembers(Ordered(desc, Matching(t, filter)), desc, after, None);
  }

  lemma ForwardRows(t: Table, filter: Filter, desc: bool, first: nat, after: Option<int>)
    requires first > 0
    ensures var p := Forward(t, filter, desc, first, after);
            && InOrder(desc, p.items) && Beyond(desc, after, p.items)
            && (p.hasNext ==> p.items != [])
            && forall k :: k in p.items ==> k in Matching(t, filter)
  {
    ForwardShape(t, filter, desc, first, after);
    var edges := ApplyCursors(Ordered(desc, Matching(t, filter)), desc, after, None);
    var items := Forward(t, filter, desc, first, after).items;
    forall k | k in items
      ensures k in edges
    {
      var i :| 0 <= i < |items| && items[i] == k;
      assert edges[i] == k;
    }
  }

  /** A row that the page leaves out although the cursors admit it comes after the page. */
  lemma ForwardMissed(t: Table, filter: Filter, desc: bool, first: nat, after: Option<int>, k: int)
    requires first > 0
    requires k in Matching(t, filter) && Within(desc, after, None, k)
    requires k !in Forward(t, filter, desc, first, after).items
    ensures var p := Forward(t, filter, desc, first, after);
            p.hasNext && p.items != [] && Precedes(desc, p.end.value, k)
  {
    ForwardShape(t, filter, desc, first, after);
    var edges := ApplyCursors(Ordered(desc, Matching(t, filter)), desc, after, None);
    var items := Forward(t, filter, desc, first, after).items;
    var i :| 0 <= i < |edges| && edges[i] == k;
    assert forall j :: 0 <= j < |items| ==> items[j] == edges[j] && items[j] in items;
    assert i >= |items|;
    assert Precedes(desc, edges[|items| - 1], edges[i]);
  }

  lemma WalkStep(tables: seq<Table>, filter: Filter, desc: bool, first: nat, after: Option<int>)
    requires first > 0 && tables != []
    ensures var page := Forward(tables[0], filter, desc, first, after);
            var rest := if page.hasNext then Walk(tables[1..], filter, desc, first, page.end) else [];
            && Walk(tables, filter, desc, first, after) == [page] + rest
            && Output(Walk(tables, filter, desc, first, after)) == page.items + Output(rest)
  {
    var page := Forward(tables[0], filter, desc, first, after);
    var rest := if page.hasNext then Walk(tables[1..], filter, desc, first, page.end) else [];
    assert ([page] + rest)[1..] == rest;
  }

  lemma {:induction false} WalkOrdered(tables: seq<Table>, filter: Filter, desc: bool, first: nat, after: Option<int>)
    requires first > 0
    ensures var out := Output(Walk(tables, filter, desc, first, after)); InOrder(desc, out) && Beyond(desc, after, out)
    decreases |tables|
  {
    if tables != [] {
      var page := Forward(tables[0], filter, desc, first, after);
      WalkStep(tables, filter, desc, first, after);
      ForwardRows(tables[0], filter, desc, first, after);
      if page.hasNext {
        WalkOrdered(tables[1..], filter, desc, first, page.end);
        PagesInOrder(desc, after, page.items, Output(Walk(tables[1..], filter, desc, first, page.end)));
      } else {
        assert page.items + Output([]) == page.items;
      }
    }
  }

  lemma PagesInOrder(desc: bool, after: Option<int>, a: seq<int>, b: seq<int>)
    requires InOrder(desc, a) && InOrder(desc, b) && a != []
    requires Beyond(desc, after, a) && Beyond(desc, Some(a[|a| - 1]), b)
    ensures InOrder(desc, a + b) && Beyond(desc, after, a + b)
  {
    forall i, j | 0 <= i < j < |a + b|
      ensures Precedes(desc, (a + b)[i], (a + b)[j])
    {
      if i < |a| <= j {
        assert b[j - |a|] in b;
        assert i == |a| - 1 || Precedes(desc, a[i], a[|a| - 1]);
      }
    }
    assert a[|a| - 1] in a;
  }

  lemma {:induction false} WalkCovers(tables: seq<Table>, filter: Filter, desc: bool, first: nat, after: Option<int>,
                                      k: int)
    requires first > 0 && Finished(Walk(tables, filter, desc, first, after)) && Within(desc, after, None, k)
    requires PresentThroughout(tables, |Walk(tables, filter, desc, first, after)|, filter, k)
    ensures k in Output(Walk(tables, filter, desc, first, after))
    decreases |tables|
  {
    var pages := Walk(tables, filter, desc, first, after);
    var page := Forward(tables[0], filter, desc, first, after);
    WalkStep(tables, filter, desc, first, after);
    if k !in page.items {
      assert k in Matching(tables[0], filter);
      ForwardMissed(tables[0], filter, desc, first, after, k);
      var rest := Walk(tables[1..], filter, desc, first, page.end);
      assert rest != [] && pages[|pages| - 1] == rest[|rest| - 1];
      PresentLater(tables, |pages|, filter, k);
      WalkCovers(tables[1..], filter, desc, first, page.end, k);
    }
  }

  lemma PresentLater(tables: seq<Table>, n: nat, filter: Filter, k: int)
    requires 0 < n <= |tables| && PresentThroughout(tables, n, filter, k)
    ensures PresentThroughout(tables[1..], n - 1, filter, k)
  {
    forall i | 0 <= i < n - 1
      ensures k in Matching(tables[1..][i], filter)
    {
      assert tables[1..][i] == tables[i + 1];
    }
  }

  ghost predicate OnceIn(s: seq<int>, k: int) {
    exists i :: 0 <= i < |s| && s[i] == k && forall j :: 0 <= j < |s| && s[j] == k ==> j == i
  }

  lemma InOrderOnce(desc: bool, s: seq<int>, k: int)
    requires InOrder(desc, s) && k in s
    ensures OnceIn(s, k)
  {
    var i :| 0 <= i < |s| && s[i] == k;
    forall j | 0 <= j < |s| && s[j] == k
      ensures j == i
    {
      assert j < i ==> Precedes(desc, s[j], s[i]);
      assert i < j ==> Precedes(desc, s[i], s[j]);
    }
  }

  /** Over a whole forward walk, whatever is inserted and deleted between pages: the output is strictly in
      order, and once HasNextPage is false every row that was there throughout has come exactly once. */
  lemma ForwardWalkTheorem(tables: seq<Table>, filter: Filter, desc: bool, first: nat)
    requires first > 0
    ensures var pages := Walk(tables, filter, desc, first, None);
            && InOrder(desc, Output(pages))
            && (Finished(pages) ==>
                  forall k :: PresentThroughout(tables, |pages|, filter, k) ==> OnceIn(Output(pages), k))
  {
    var pages := Walk(tables, filter, desc, first, None);
    WalkOrdered(tables, filter, desc, first, None);
    if Finished(pages) {
      forall k | PresentThroughout(tables, |pages|, filter, k)
        ensures OnceIn(Output(pages), k)
      {
        WalkCovers(tables, filter, desc, first, None, k);
        InOrderOnce(desc, Output(pages), k);
      }
    }
  }

  /** Every row on a page was in the table the page was read from. */
  lemma {:induction false} WalkIsReal(tables: seq<Table>, filter: Filter, desc: bool, first: nat, after: Option<int>,
                                      i: nat)
    requires first > 0 && i < |Walk(tables, filter, desc, first, after)|
    ensures i < |tables|
    ensures forall k :: k in Walk(tables, filter, desc, first, after)[i].items ==> k in Matching(tables[i], filter)
    decreases |tables|
  {
    ForwardRows(tables[0], filter, desc, first, after);
    if i > 0 {
      WalkIsReal(tables[1..], filter, desc, first, Forward(tables[0], filter, desc, first, after).end, i - 1);
    }
  }

  // ---------------------------------------------------------------- Walking backward

  /** One page of a backward walk, as Fetch's contract gives it for Last and Before. */
  function Backward(t: Table, filter: Filter, desc: bool, last: nat, before: Option<int>): Page
    requires last > 0
  {
    var c := Config("key", desc, 0, None, last, before);
    WithCursors(EdgesToReturn(t, filter, c, last), before.Some?, Remaining(t, filter, c) > last)
  }

  lemma LastIsFirstReversed(all: seq<int>, n: nat)
    ensures TakeLast(all, n) == Reverse(TakeFirst(Reverse(all), n))
  {
    if |all| > n {
      ReverseTail(all, n);
    } else {
      ReverseTail(all, 0);
    }
  }

  lemma CutMirrored(s: set<int>, desc: bool, cursor: Option<int>)
    ensures ApplyCursors(Ordered(!desc, s), !desc, cursor, None)
         == Reverse(ApplyCursors(Ordered(desc, s), desc, None, cursor))
  {
    CutIsOrdered(s, desc, None, cursor);
    CutIsOrdered(s, !desc, cursor, None);
    assert Cut(s, desc, None, cursor) == Cut(s, !desc, cursor, None);
    OrderedOpposite(desc, Cut(s, desc, None, cursor));
  }

  /** A page read backward is the page read forward in the opposite order, turned around. */
  lemma BackwardMirrorsForward(t: Table, filter: Filter, desc: bool, last: nat, before: Option<int>)
    requires last > 0
    ensures var b := Backward(t, filter, desc, last, before);
            var f := Forward(t, filter, !desc, last, before);
            && b.items == Reverse(f.items)
            && b.hasPrevious == f.hasNext && b.start == f.end && b.end == f.start
  {
    var all := ApplyCursors(Ordered(desc, Matching(t, filter)), desc, None, before);
    CutMirrored(Matching(t, filter), desc, before);
    LastIsFirstReversed(all, last);
    CursorsSwap(TakeFirst(Reverse(all), last), |all| > last, before.Some?);
  }

  lemma CursorsSwap(items: seq<int>, more: bool, given: bool)
    ensures var f := WithCursors(items, more, given);
            var b := WithCursors(Reverse(items), given, more);
            b.items == Reverse(f.items) && b.hasPrevious == f.hasNext && b.start == f.end && b.end == f.start
  {
    if items != [] {
      assert Reverse(items)[0] == items[|items| - 1];
    }
  }

  /** A walk that follows StartCursor while HasPreviousPage says so; the i-th page is read from the i-th table. */
  function WalkBack(tables: seq<Table>, filter: Filter, desc: bool, last: nat, before: Option<int>): (pages: seq<Page>)
    requires last > 0
    ensures |pages| <= |tables|
    decreases |tables|
  {
    if tables == [] then []
    else
      var page := Backward(tables[0], filter, desc, last, before);
      [page] + if page.hasPrevious then WalkBack(tables[1..], filter, desc, last, page.start) else []
  }

  /** What the pages show, each in front of the one before. */
  function OutputBack(pages: seq<Page>): seq<int> {
    if pages == [] then [] else OutputBack(pages[1..]) + pages[0].items
  }

  ghost predicate FinishedBack(pages: seq<Page>) {
    pages != [] && !pages[|pages| - 1].hasPrevious
  }

  lemma ReverseConcat(a: seq<int>, b: seq<int>)
    ensures Reverse(a + b) == Reverse(b) + Reverse(a)
  {
  }

  /** Two walks turned around against each other, as far as they have come. */
  ghost predicate Mirrored(back: seq<Page>, there: seq<Page>) {
    |back| == |there| && OutputBack(back) == Reverse(Output(there)) && (FinishedBack(back) <==> Finished(there))
  }

  lemma MirrorOneMore(b: Page, f: Page, back: seq<Page>, there: seq<Page>)
    requires b.items == Reverse(f.items) && b.hasPrevious == f.hasNext && Mirrored(back, there)
    ensures Mirrored([b] + back, [f] + there)
  {
    assert ([b] + back)[1..] == back && ([f] + there)[1..] == there;
    ReverseConcat(f.items, Output(there));
    if back != [] {
      assert ([b] + back)[|back|] == back[|back| - 1] && ([f] + there)[|there|] == there[|there| - 1];
    }
  }

  /** The backward walk is the forward walk of the opposite order, turned around. */
  lemma {:induction false} WalksMirror(tables: seq<Table>, filter: Filter, desc: bool, last: nat, before: Option<int>)
    requires last > 0
    ensures Mirrored(WalkBack(tables, filter, desc, last, before), Walk(tables, filter, !desc, last, before))
    decreases |tables|
  {
    if tables != [] {
      BackwardMirrorsForward(tables[0], filter, desc, last, before);
      var b := Backward(tables[0], filter, desc, last, before);
      var f := Forward(tables[0], filter, !desc, last, before);
      if b.hasPrevious {
        WalksMirror(tables[1..], filter, desc, last, b.start);
        MirrorOneMore(b, f, WalkBack(tables[1..], filter, desc, last, b.start),
                      Walk(tables[1..], filter, !desc, last, f.end));
      } else {
        MirrorOneMore(b, f, [], []);
      }
    }
  }

  lemma InOrderReversed(desc: bool, s: seq<int>)
    requires InOrder(!desc, s)
    ensures InOrder(desc, Reverse(s))
  {
  }

  /** Walking backward while rows come and go: the pages put together are strictly in order, and once HasPreviousPage
      is false, every row that was there throughout is there exactly once. */
  lemma BackwardWalkTheorem(tables: seq<Table>, filter: Filter, desc: bool, last: nat)
    requires last > 0
    ensures var pages := WalkBack(tables, filter, desc, last, None);
            && InOrder(desc, OutputBack(pages))
            && (FinishedBack(pages) ==>
                  forall k :: PresentThroughout(tables, |pages|, filter, k) ==> OnceIn(OutputBack(pages), k))
  {
    var pages, there := WalkBack(tables, filter, desc, last, None), Walk(tables, filter, !desc, last, None);
    WalksMirror(tables, filter, desc, last, None);
    WalkOrdered(tables, filter, !desc, last, None);
    InOrderReversed(desc, Output(there));
    if FinishedBack(pages) {
      forall k | PresentThroughout(tables, |pages|, filter, k)
        ensures OnceIn(OutputBack(pages), k)
      {
        WalkCovers(tables, filter, !desc, last, None, k);
        ReverseMember(Output(there), k);
        InOrderOnce(desc, OutputBack(pages), k);
      }
    }
  }

  // ---------------------------------------------------------------- The walks are walks of Fetch

  lemma FetchIsForward(t: Table, filter: Filter, c: Config<int>, page: Page)
    requires Valid(c) && c.first > 0 && c.before.None?
    requires page.items == EdgesToReturn(t, filter, c, Limit(c)) && Describes(page, c, Remaining(t, filter, c))
    ensures page == Forward(t, filter, c.desc, c.first, c.after)
  {
    assert Limit(c) == c.first && c.last <= 0;
  }

  lemma FetchIsBackward(t: Table, filter: Filter, c: Config<int>, page: Page)
    requires Valid(c) && c.last > 0 && c.after.None?
    requires page.items == EdgesToReturn(t, filter, c, Limit(c)) && Describes(page, c, Remaining(t, filter, c))
    ensures page == Backward(t, filter, c.desc, c.last, c.before)
  {
    assert Limit(c) == c.last;
  }
}
