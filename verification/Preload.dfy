/** Relationships loaded for a whole page of rows with one query, against one query for each row. */
module Preload {
  import opened Options

  /** How reading a result ended: all of it was read, a row did not scan, or the connection broke off and the
      iteration stopped as if there were no more rows. */
  datatype End = Complete | ScanFailed | CutShort

  datatype Reply<+R> = QueryFailed | Rows(rows: seq<R>, end: End)

  /** A row that has many others, and a row that belongs to one; both with what is loaded into them. */
  datatype Owner<+R> = Owner(id: int, rel: seq<R>)
  datatype Child<+P> = Child(fk: int, rel: Option<P>)

  /** A row of the join query: the target and the `__parent_id__` column. */
  datatype Joined<+R> = Joined(target: R, parent: int)

  datatype Outcome<+T> = Outcome(loaded: seq<T>, failed: bool)

  // ---------------------------------------------------------------- Queries

  /** SELECT * WHERE key IN (keys), in table order. */
  function Selected<R>(table: seq<R>, key: R -> int, keys: seq<int>): seq<R> {
    if table == [] then []
    else
      var front := Selected(table[..|table| - 1], key, keys);
      var row := table[|table| - 1];
      if key(row) in keys then front + [row] else front
  }

  /** A complete answer holds the selected rows, arranged in any order. */
  ghost predicate Answers<R>(reply: Reply<R>, table: seq<R>, key: R -> int, keys: seq<int>) {
    reply.Rows? && reply.end.Complete? && multiset(reply.rows) == multiset(Selected(table, key, keys))
  }

  lemma {:induction false} SelectedTwice<R>(table: seq<R>, key: R -> int, keys: seq<int>, k: int)
    requires k in keys
    ensures Selected(Selected(table, key, keys), key, [k]) == Selected(table, key, [k])
    decreases |table|
  {
    if table != [] {
      var front, row := table[..|table| - 1], table[|table| - 1];
      SelectedTwice(front, key, keys, k);
      var chosen := Selected(front, key, keys);
      assert (chosen + [row])[..|chosen|] == chosen;
    }
  }

  lemma {:induction false} SelectedCount<R>(table: seq<R>, key: R -> int, keys: seq<int>, x: R)
    ensures multiset(Selected(table, key, keys))[x] == if key(x) in keys then multiset(table)[x] else 0
    decreases |table|
  {
    if table != [] {
      SelectedCount(table[..|table| - 1], key, keys, x);
      assert table == table[..|table| - 1] + [table[|table| - 1]];
    }
  }

  /** Selecting does not depend on how the rows are arranged. */
  lemma SelectedArranged<R(!new)>(a: seq<R>, b: seq<R>, key: R -> int, keys: seq<int>)
    requires multiset(a) == multiset(b)
    ensures multiset(Selected(a, key, keys)) == multiset(Selected(b, key, keys))
  {
    forall x: R
      ensures multiset(Selected(a, key, keys))[x] == multiset(Selected(b, key, keys))[x]
    {
      SelectedCount(a, key, keys, x);
      SelectedCount(b, key, keys, x);
    }
  }

  lemma SelectedMember<R>(table: seq<R>, key: R -> int, keys: seq<int>, x: R)
    ensures x in Selected(table, key, keys) <==> x in table && key(x) in keys
  {
    SelectedCount(table, key, keys, x);
    assert x in multiset(table) <==> x in table;
    assert x in multiset(Selected(table, key, keys)) <==> x in Selected(table, key, keys);
  }

  // ---------------------------------------------------------------- Grouping

  ghost predicate Grouped<R>(groups: map<int, seq<R>>, rows: seq<R>, key: R -> int) {
    forall k :: if k in groups then groups[k] == Selected(rows, key, [k]) != [] else Selected(rows, key, [k]) == []
  }

  method GroupByKey<R>(rows: seq<R>, key: R -> int) returns (groups: map<int, seq<R>>)
    ensures Grouped(groups, rows, key)
  {
    groups := map[];
    for i := 0 to |rows|
      invariant Grouped(groups, rows[..i], key)
    {
      var k := key(rows[i]);
      assert rows[..i + 1][..i] == rows[..i];
      groups := groups[k := (if k in groups then groups[k] else []) + [rows[i]]];
    }
    assert rows[..|rows|] == rows;
  }

  // ---------------------------------------------------------------- Has many

  function Ids<R>(parents: seq<Owner<R>>): seq<int> {
    if parents == [] then [] else Ids(parents[..|parents| - 1]) + [parents[|parents| - 1].id]
  }

  /** A parent without matching rows keeps what it had. */
  function WithRows<R>(p: Owner<R>, found: seq<R>): Owner<R> {
    if found == [] then p else p.(rel := found)
  }

  function HasMany<R>(parents: seq<Owner<R>>, key: R -> int, query: seq<int> -> Reply<R>): Outcome<Owner<R>> {
    if parents == [] then Outcome(parents, false)
    else
      match query(Ids(parents))
      case QueryFailed => Outcome(parents, true)
      case Rows(rows, end) =>
        if end.ScanFailed? then Outcome(parents, true)
        else
          Outcome(seq(|parents|, i requires 0 <= i < |parents| =>
                        WithRows(parents[i], Selected(rows, key, [parents[i].id]))),
                  false)
  }

  method CollectIds<R>(parents: array<Owner<R>>) returns (ids: seq<int>)
    ensures ids == Ids(parents[..])
  {
    ids := [];
    for i := 0 to parents.Length
      invariant ids == Ids(parents[..i])
    {
      assert parents[..i + 1][..i] == parents[..i];
      ids := ids + [parents[i].id];
    }
    assert parents[..parents.Length] == parents[..];
  }

  method PreloadHasMany<R>(parents: array<Owner<R>>, key: R -> int, query: seq<int> -> Reply<R>) returns (failed: bool)
    modifies parents
    ensures Outcome(parents[..], failed) == HasMany(old(parents[..]), key, query)
  {
    var ids := CollectIds(parents);
    IdsLength(parents[..]);
    if |ids| == 0 {
      return false;
    }
    var reply := query(ids);
    if reply.QueryFailed? || reply.end.ScanFailed? {
      return true;
    }
    var groups := GroupByKey(reply.rows, key);
    for i := 0 to parents.Length
      invariant forall j :: 0 <= j < i ==>
                  parents[j] == WithRows(old(parents[j]), Selected(reply.rows, key, [old(parents[j]).id]))
      invariant forall j :: i <= j < parents.Length ==> parents[j] == old(parents[j])
    {
      var p := parents[i];
      if p.id in groups {
        parents[i] := p.(rel := groups[p.id]);
      }
    }
    return false;
  }

  lemma {:induction false} IdsLength<R>(parents: seq<Owner<R>>)
    ensures |Ids(parents)| == |parents| && forall i :: 0 <= i < |parents| ==> Ids(parents)[i] == parents[i].id
    decreases |parents|
  {
    if parents != [] {
      IdsLength(parents[..|parents| - 1]);
    }
  }

  /** Each parent gets the rows a query of its own returns, in the order of the shared result; the one thing
      that differs is a parent with no rows at all, which keeps what was loaded into it before. */
  lemma HasManyTheorem<R(!new)>(table: seq<R>, parents: seq<Owner<R>>, key: R -> int, query: seq<int> -> Reply<R>,
                                i: nat)
    requires i < |parents| && Answers(query(Ids(parents)), table, key, Ids(parents))
    ensures var own := Selected(table, key, [parents[i].id]);
            var out := HasMany(parents, key, query);
            && !out.failed && |out.loaded| == |parents| && out.loaded[i].id == parents[i].id
            && (multiset(out.loaded[i].rel) == multiset(own) <==> own != [] || parents[i].rel == [])
            && (own != [] ==> out.loaded[i].rel == Selected(query(Ids(parents)).rows, key, [parents[i].id]))
  {
    var ids := Ids(parents);
    var rows, k := query(ids).rows, parents[i].id;
    IdsLength(parents);
    assert ids[i] == k;
    SelectedArranged(rows, Selected(table, key, ids), key, [k]);
    SelectedTwice(table, key, ids, k);
    assert multiset(Selected(rows, key, [k])) == multiset(Selected(table, key, [k]));
    SameSize(Selected(rows, key, [k]), Selected(table, key, [k]));
    if Selected(table, key, [k]) == [] && parents[i].rel != [] {
      assert parents[i].rel[0] in multiset(parents[i].rel);
    }
  }

  lemma SameSize<R>(a: seq<R>, b: seq<R>)
    requires multiset(a) == multiset(b)
    ensures |a| == |b|
  {
    assert |multiset(a)| == |a| && |multiset(b)| == |b|;
  }

  /** When the database answers in table order, so do all the lists. */
  lemma InTableOrder<R(!new)>(table: seq<R>, parents: seq<Owner<R>>, key: R -> int, query: seq<int> -> Reply<R>, i: nat)
    requires i < |parents| && parents[i].rel == []
    requires query(Ids(parents)) == Rows(Selected(table, key, Ids(parents)), Complete)
    ensures HasMany(parents, key, query).loaded[i].rel == Selected(table, key, [parents[i].id])
  {
    IdsLength(parents);
    assert Ids(parents)[i] == parents[i].id;
    SelectedTwice(table, key, Ids(parents), parents[i].id);
  }

  // ---------------------------------------------------------------- Many to many

  /** The inner join of the join table's (parent, target) pairs with the targets. */
  function Join<R>(links: seq<(int, int)>, targets: seq<R>, id: R -> int): seq<Joined<R>> {
    if links == [] then []
    else
      var link := links[|links| - 1];
      Join(links[..|links| - 1], targets, id) + Tagged(Selected(targets, id, [link.1]), link.0)
  }

  function Tagged<R>(targets: seq<R>, parent: int): seq<Joined<R>> {
    seq(|targets|, i requires 0 <= i < |targets| => Joined(targets[i], parent))
  }

  function Targets<R>(rows: seq<Joined<R>>): seq<R> {
    seq(|rows|, i requires 0 <= i < |rows| => rows[i].target)
  }

  function ParentId<R>(j: Joined<R>): int {
    j.parent
  }

  function ManyToMany<R>(parents: seq<Owner<R>>, query: seq<int> -> Reply<Joined<R>>): Outcome<Owner<R>> {
    if parents == [] then Outcome(parents, false)
    else
      match query(Ids(parents))
      case QueryFailed => Outcome(parents, true)
      case Rows(rows, end) =>
        if !end.Complete? then Outcome(parents, true)
        else
          Outcome(seq(|parents|, i requires 0 <= i < |parents| =>
                        WithRows(parents[i], Targets(Selected(rows, ParentId<R>, [parents[i].id])))),
                  false)
  }

  method PreloadManyToMany<R>(parents: array<Owner<R>>, query: seq<int> -> Reply<Joined<R>>) returns (failed: bool)
    modifies parents
    ensures Outcome(parents[..], failed) == ManyToMany(old(parents[..]), query)
  {
    var ids := CollectIds(parents);
    IdsLength(parents[..]);
    if |ids| == 0 {
      return false;
    }
    var reply := query(ids);
    if reply.QueryFailed? || !reply.end.Complete? {
      return true;
    }
    var groups := GroupByKey(reply.rows, ParentId<R>);
    for i := 0 to parents.Length
      invariant forall j :: 0 <= j < i ==>
                  parents[j] == WithRows(old(parents[j]),
                                         Targets(Selected(reply.rows, ParentId<R>, [old(parents[j]).id])))
      invariant forall j :: i <= j < parents.Length ==> parents[j] == old(parents[j])
    {
      var p := parents[i];
      if p.id in groups {
        parents[i] := p.(rel := Targets(groups[p.id]));
      }
    }
    return false;
  }

  lemma TaggedMember<R>(targets: seq<R>, parent: int, j: Joined<R>)
    ensures j in Tagged(targets, parent) <==> j.parent == parent && j.target in targets
  {
    if j.parent == parent && j.target in targets {
      var i :| 0 <= i < |targets| && targets[i] == j.target;
      assert Tagged(targets, parent)[i] == j;
    }
  }

  /** A pair is in the join exactly when a link and a target say so. */
  lemma {:induction false} JoinMember<R>(links: seq<(int, int)>, targets: seq<R>, id: R -> int, j: Joined<R>)
    ensures j in Join(links, targets, id) <==> j.target in targets && (j.parent, id(j.target)) in links
    decreases |links|
  {
    if links != [] {
      var front, link := links[..|links| - 1], links[|links| - 1];
      assert links == front + [link];
      JoinMember(front, targets, id, j);
      TaggedMember(Selected(targets, id, [link.1]), link.0, j);
      SelectedMember(targets, id, [link.1], j.target);
    }
  }

  lemma {:induction false} TargetsCount<R>(a: seq<Joined<R>>, parent: int, x: R)
    requires forall i :: 0 <= i < |a| ==> a[i].parent == parent
    ensures multiset(Targets(a))[x] == multiset(a)[Joined(x, parent)]
    decreases |a|
  {
    if a != [] {
      var front, last := a[..|a| - 1], a[|a| - 1];
      TargetsCount(front, parent, x);
      assert a == front + [last];
      assert Targets(a) == Targets(front) + [last.target];
    }
  }

  lemma SelectedParents<R>(rows: seq<Joined<R>>, k: int)
    ensures forall i :: 0 <= i < |Selected(rows, ParentId<R>, [k])| ==> Selected(rows, ParentId<R>, [k])[i].parent == k
  {
    forall i | 0 <= i < |Selected(rows, ParentId<R>, [k])|
      ensures Selected(rows, ParentId<R>, [k])[i].parent == k
    {
      SelectedMember(rows, ParentId<R>, [k], Selected(rows, ParentId<R>, [k])[i]);
    }
  }

  /** Each parent gets the targets a join query of its own returns. */
  lemma {:induction false} ManyToManyTheorem<R(!new)>(links: seq<(int, int)>, targets: seq<R>, id: R -> int,
                                                      parents: seq<Owner<R>>, query: seq<int> -> Reply<Joined<R>>,
                                                      i: nat)
    requires i < |parents| && Answers(query(Ids(parents)), Join(links, targets, id), ParentId<R>, Ids(parents))
    ensures var own := Targets(Selected(Join(links, targets, id), ParentId<R>, [parents[i].id]));
            var out := ManyToMany(parents, query);
            && !out.failed && |out.loaded| == |parents| && out.loaded[i].id == parents[i].id
            && (multiset(out.loaded[i].rel) == multiset(own) <==> own != [] || parents[i].rel == [])
            && (own != [] ==>
                  out.loaded[i].rel == Targets(Selected(query(Ids(parents)).rows, ParentId<R>, [parents[i].id])))
  {
    var ids := Ids(parents);
    var all, rows, k := Join(links, targets, id), query(ids).rows, parents[i].id;
    IdsLength(parents);
    assert ids[i] == k;
    SelectedArranged(rows, Selected(all, ParentId<R>, ids), ParentId<R>, [k]);
    SelectedTwice(all, ParentId<R>, ids, k);
    TargetsArranged(Selected(rows, ParentId<R>, [k]), Selected(all, ParentId<R>, [k]), rows, all, k);
    var own := Targets(Selected(all, ParentId<R>, [k]));
    if own == [] && parents[i].rel != [] {
      assert parents[i].rel[0] in multiset(parents[i].rel);
    }
  }

  lemma TargetsArranged<R(!new)>(a: seq<Joined<R>>, b: seq<Joined<R>>, rows: seq<Joined<R>>, all: seq<Joined<R>>,
                                 k: int)
    requires multiset(a) == multiset(b) && a == Selected(rows, ParentId<R>, [k]) && b == Selected(all, ParentId<R>, [k])
    ensures multiset(Targets(a)) == multiset(Targets(b)) && |Targets(a)| == |Targets(b)|
  {
    SelectedParents(rows, k);
    SelectedParents(all, k);
    forall x: R
      ensures multiset(Targets(a))[x] == multiset(Targets(b))[x]
    {
      TargetsCount(a, k, x);
      TargetsCount(b, k, x);
    }
    SameSize(a, b);
  }

  // ---------------------------------------------------------------- Belongs to

  /** The positive foreign keys, each once. */
  function ForeignKeys<P>(children: seq<Child<P>>): seq<int> {
    if children == [] then []
    else
      var front := ForeignKeys(children[..|children| - 1]);
      var fk := children[|children| - 1].fk;
      if fk > 0 && fk !in front then front + [fk] else front
  }

  /** The last of the rows that has this ID. */
  function LastWithId<P>(rows: seq<P>, id: P -> int, k: int): Option<P> {
    if rows == [] then None
    else if id(rows[|rows| - 1]) == k then Some(rows[|rows| - 1])
    else LastWithId(rows[..|rows| - 1], id, k)
  }

  function WithParent<P>(c: Child<P>, found: Option<P>): Child<P> {
    if found.None? then c else c.(rel := found)
  }

  function BelongsTo<P>(children: seq<Child<P>>, id: P -> int, query: seq<int> -> Reply<P>): Outcome<Child<P>> {
    if ForeignKeys(children) == [] then Outcome(children, false)
    else
      match query(ForeignKeys(children))
      case QueryFailed => Outcome(children, true)
      case Rows(rows, end) =>
        if end.ScanFailed? then Outcome(children, true)
        else
          Outcome(seq(|children|, i requires 0 <= i < |children| =>
                        WithParent(children[i], LastWithId(rows, id, children[i].fk))),
                  false)
  }

  ghost predicate Mapped<P>(parents: map<int, P>, rows: seq<P>, id: P -> int) {
    forall k :: LastWithId(rows, id, k) == if k in parents then Some(parents[k]) else None
  }

  method MapById<P>(rows: seq<P>, id: P -> int) returns (parents: map<int, P>)
    ensures Mapped(parents, rows, id)
  {
    parents := map[];
    for i := 0 to |rows|
      invariant Mapped(parents, rows[..i], id)
    {
      assert rows[..i + 1][..i] == rows[..i];
      parents := parents[id(rows[i]) := rows[i]];
    }
    assert rows[..|rows|] == rows;
  }

  method CollectForeignKeys<P>(children: array<Child<P>>) returns (fks: seq<int>)
    ensures fks == ForeignKeys(children[..])
  {
    fks := [];
    var seen: set<int> := {};
    for i := 0 to children.Length
      invariant fks == ForeignKeys(children[..i])
      invariant forall fk :: fk in seen <==> fk in fks
    {
      assert children[..i + 1][..i] == children[..i];
      var fk := children[i].fk;
      if fk > 0 && fk !in seen {
        fks := fks + [fk];
        seen := seen + {fk};
      }
    }
    assert children[..children.Length] == children[..];
  }

  method PreloadBelongsTo<P>(children: array<Child<P>>, id: P -> int, query: seq<int> -> Reply<P>)
    returns (failed: bool)
    modifies children
    ensures Outcome(children[..], failed) == BelongsTo(old(children[..]), id, query)
  {
    var fks := CollectForeignKeys(children);
    if |fks| == 0 {
      return false;
    }
    var reply := query(fks);
    if reply.QueryFailed? || reply.end.ScanFailed? {
      return true;
    }
    var parents := MapById(reply.rows, id);
    for i := 0 to children.Length
      invariant forall j :: 0 <= j < i ==>
                  children[j] == WithParent(old(children[j]), LastWithId(reply.rows, id, old(children[j]).fk))
      invariant forall j :: i <= j < children.Length ==> children[j] == old(children[j])
    {
      var c := children[i];
      if c.fk in parents {
        children[i] := c.(rel := Some(parents[c.fk]));
      }
    }
    return false;
  }

  /** The keys asked for are the positive ones, and none is asked for twice. */
  lemma {:induction false} ForeignKeyFacts<P>(children: seq<Child<P>>, fk: int)
    ensures fk in ForeignKeys(children) <==> fk > 0 && exists i :: 0 <= i < |children| && children[i].fk == fk
    ensures multiset(ForeignKeys(children))[fk] <= 1
    decreases |children|
  {
    if children != [] {
      var front, last := children[..|children| - 1], children[|children| - 1];
      ForeignKeyFacts(front, fk);
      assert forall i :: 0 <= i < |front| ==> children[i] == front[i];
      assert fk in multiset(ForeignKeys(front)) <==> fk in ForeignKeys(front);
      if exists i :: 0 <= i < |children| && children[i].fk == fk {
        var i :| 0 <= i < |children| && children[i].fk == fk;
        assert i < |front| ==> front[i].fk == fk;
      }
    }
  }

  /** No two rows of the table share this value. */
  ghost predicate Unique<P>(table: seq<P>, key: P -> int) {
    forall i, j :: 0 <= i < j < |table| ==> key(table[i]) != key(table[j])
  }

  lemma {:induction false} LastFound<P>(rows: seq<P>, id: P -> int, k: int)
    ensures match LastWithId(rows, id, k)
            case Some(p) => p in rows && id(p) == k
            case None => forall p :: p in rows ==> id(p) != k
    decreases |rows|
  {
    if rows != [] && id(rows[|rows| - 1]) != k {
      var front, last := rows[..|rows| - 1], rows[|rows| - 1];
      LastFound(front, id, k);
      assert rows == front + [last];
    }
  }

  lemma AnswerMember<P>(reply: Reply<P>, table: seq<P>, key: P -> int, keys: seq<int>, p: P)
    requires Answers(reply, table, key, keys)
    ensures p in reply.rows <==> p in table && key(p) in keys
  {
    SelectedMember(table, key, keys, p);
    assert p in reply.rows <==> p in multiset(reply.rows);
    assert p in Selected(table, key, keys) <==> p in multiset(Selected(table, key, keys));
  }

  /** A child whose key refers to row `p` gets `p` exactly when `p` carries that key as its ID, whatever column
      the relationship references: rows are fetched by that column but looked up by ID. */
  lemma BelongsToTheorem<P>(table: seq<P>, children: seq<Child<P>>, ref: P -> int, id: P -> int,
                            query: seq<int> -> Reply<P>, i: nat, p: P)
    requires i < |children| && children[i].fk > 0 && children[i].rel == None
    requires Unique(table, id) && p in table && ref(p) == children[i].fk
    requires Answers(query(ForeignKeys(children)), table, ref, ForeignKeys(children))
    ensures var out := BelongsTo(children, id, query);
            && !out.failed && |out.loaded| == |children| && out.loaded[i].fk == children[i].fk
            && (out.loaded[i].rel == Some(p) <==> id(p) == children[i].fk)
  {
    var fks, fk := ForeignKeys(children), children[i].fk;
    var rows := query(fks).rows;
    ForeignKeyFacts(children, fk);
    assert fk in fks;
    AnswerMember(query(fks), table, ref, fks, p);
    LastFound(rows, id, fk);
    if id(p) == fk {
      var q := LastWithId(rows, id, fk).value;
      AnswerMember(query(fks), table, ref, fks, q);
      OnlyOne(table, id, p, q);
    }
  }

  /** With the ID column referenced and IDs unique, each child gets what a query of its own returns, exactly when
      its key is positive or nobody has it: a key that is zero or negative is never looked up. */
  lemma BelongsToById<P>(table: seq<P>, children: seq<Child<P>>, id: P -> int, query: seq<int> -> Reply<P>, i: nat)
    requires i < |children| && children[i].rel == None && Unique(table, id)
    requires ForeignKeys(children) != [] ==> Answers(query(ForeignKeys(children)), table, id, ForeignKeys(children))
    ensures var own := LastWithId(table, id, children[i].fk);
            var out := BelongsTo(children, id, query);
            && !out.failed && |out.loaded| == |children|
            && (out.loaded[i].rel == own <==> children[i].fk > 0 || own == None)
  {
    var fks, fk := ForeignKeys(children), children[i].fk;
    var out := BelongsTo(children, id, query);
    ForeignKeyFacts(children, fk);
    LastFound(table, id, fk);
    if fk > 0 {
      assert fk in fks;
      match LastWithId(table, id, fk)
      case Some(p) =>
        BelongsToTheorem(table, children, id, id, query, i, p);
      case None =>
        NobodyFound(table, children, id, query, i);
    } else if fks != [] {
      NobodyFound(table, children, id, query, i);
    }
  }

  lemma NobodyFound<P>(table: seq<P>, children: seq<Child<P>>, id: P -> int, query: seq<int> -> Reply<P>, i: nat)
    requires i < |children| && ForeignKeys(children) != []
    requires children[i].fk <= 0 || LastWithId(table, id, children[i].fk) == None
    requires Answers(query(ForeignKeys(children)), table, id, ForeignKeys(children))
    ensures var out := BelongsTo(children, id, query);
            !out.failed && |out.loaded| == |children| && out.loaded[i] == children[i]
  {
    var fks, fk := ForeignKeys(children), children[i].fk;
    var rows := query(fks).rows;
    ForeignKeyFacts(children, fk);
    LastFound(rows, id, fk);
    LastFound(table, id, fk);
    if LastWithId(rows, id, fk).Some? {
      AnswerMember(query(fks), table, id, fks, LastWithId(rows, id, fk).value);
    }
  }

  // ---------------------------------------------------------------- Which failures are reported

  /** With anything to ask for, a failed query and a row that does not scan are reported, and leave the rows as they
      were; without, nothing is asked and nothing changes. */
  lemma HasManyReports<R>(parents: seq<Owner<R>>, key: R -> int, query: seq<int> -> Reply<R>)
    ensures var out := HasMany(parents, key, query);
            && (out.failed
                <==> parents != [] && (query(Ids(parents)).QueryFailed? || query(Ids(parents)).end.ScanFailed?))
            && (out.failed || parents == [] ==> out.loaded == parents)
  {
  }

  lemma BelongsToReports<P>(children: seq<Child<P>>, id: P -> int, query: seq<int> -> Reply<P>)
    ensures var out, reply := BelongsTo(children, id, query), query(ForeignKeys(children));
            && (out.failed <==> (exists i :: 0 <= i < |children| && children[i].fk > 0)
                                && (reply.QueryFailed? || reply.end.ScanFailed?))
            && (out.failed || (forall i :: 0 <= i < |children| ==> children[i].fk <= 0) ==> out.loaded == children)
  {
    var fks := ForeignKeys(children);
    if i :| 0 <= i < |children| && children[i].fk > 0 {
      ForeignKeyFacts(children, children[i].fk);
    } else if fks != [] {
      assert fks[0] in fks;
      ForeignKeyFacts(children, fks[0]);
    }
  }

  /** Many-to-many also reports a result that broke off. */
  lemma ManyToManyReports<R>(parents: seq<Owner<R>>, query: seq<int> -> Reply<Joined<R>>)
    ensures var out := ManyToMany(parents, query);
            && (out.failed
                <==> parents != [] && (query(Ids(parents)).QueryFailed? || !query(Ids(parents)).end.Complete?))
            && (out.failed || parents == [] ==> out.loaded == parents)
  {
  }

  // ---------------------------------------------------------------- Broken results

  /** Every row of the table with this key came through, as often as it is there. */
  ghost predicate NoneLost<R(!new)>(rows: seq<R>, table: seq<R>, key: R -> int, k: int) {
    forall r: R :: key(r) == k ==> multiset(rows)[r] == multiset(table)[r]
  }

  lemma SameSelection<R(!new)>(rows: seq<R>, table: seq<R>, key: R -> int, k: int)
    ensures multiset(Selected(rows, key, [k])) == multiset(Selected(table, key, [k])) <==> NoneLost(rows, table, key, k)
  {
    var a, b := Selected(rows, key, [k]), Selected(table, key, [k]);
    forall r: R
      ensures multiset(a)[r] == (if key(r) == k then multiset(rows)[r] else 0)
      ensures multiset(b)[r] == (if key(r) == k then multiset(table)[r] else 0)
    {
      SelectedCount(rows, key, [k], r);
      SelectedCount(table, key, [k], r);
    }
    if multiset(a) == multiset(b) {
      forall r: R | key(r) == k
        ensures multiset(rows)[r] == multiset(table)[r]
      {
        assert multiset(a)[r] == multiset(b)[r];
      }
    }
  }

  /** A result that breaks off is loaded without an error. A parent ends up with its own rows exactly if none of them
      was among the rows lost; the others look like parents with fewer rows or none. */
  lemma CutShortHasMany<R(!new)>(table: seq<R>, parents: seq<Owner<R>>, key: R -> int, query: seq<int> -> Reply<R>,
                                 i: nat)
    requires i < |parents| && parents[i].rel == []
    requires query(Ids(parents)).Rows? && query(Ids(parents)).end.CutShort?
    ensures var out := HasMany(parents, key, query);
            && !out.failed && |out.loaded| == |parents|
            && (multiset(out.loaded[i].rel) == multiset(Selected(table, key, [parents[i].id]))
                <==> NoneLost(query(Ids(parents)).rows, table, key, parents[i].id))
  {
    SameSelection(query(Ids(parents)).rows, table, key, parents[i].id);
  }

  /** A single row that got lost: the parent keeps an empty list, and nobody is told. */
  lemma LostRowUnnoticed<R>(row: R, key: R -> int)
    ensures var parents := [Owner(key(row), [])];
            && HasMany(parents, key, ids => Rows([], CutShort)) == Outcome(parents, false)
            && Selected([row], key, [key(row)]) == [row]
  {
    var parents: seq<Owner<R>> := [Owner(key(row), [])];
    assert HasMany(parents, key, ids => Rows([], CutShort)).loaded == parents;
    assert [row][..0] == [];
  }

  /** The same for belongs-to: a child gets what its own query returns exactly if there is nothing to get or that row
      came through. */
  lemma CutShortBelongsTo<P>(table: seq<P>, children: seq<Child<P>>, id: P -> int, query: seq<int> -> Reply<P>, i: nat)
    requires i < |children| && children[i].rel == None && children[i].fk > 0 && Unique(table, id)
    requires var reply := query(ForeignKeys(children));
             reply.Rows? && reply.end.CutShort? && forall p :: p in reply.rows ==> p in table
    ensures var own := LastWithId(table, id, children[i].fk);
            var out := BelongsTo(children, id, query);
            && !out.failed && |out.loaded| == |children|
            && (out.loaded[i].rel == own <==> own == None || own.value in query(ForeignKeys(children)).rows)
  {
    var fk, rows := children[i].fk, query(ForeignKeys(children)).rows;
    ForeignKeyFacts(children, fk);
    assert fk in ForeignKeys(children);
    LastFound(rows, id, fk);
    LastFound(table, id, fk);
    var found := LastWithId(rows, id, fk);
    if found.Some? {
      OnlyOne(table, id, found.value, LastWithId(table, id, fk).value);
    }
  }

  lemma OnlyOne<P>(table: seq<P>, id: P -> int, p: P, q: P)
    requires Unique(table, id) && p in table && q in table && id(p) == id(q)
    ensures p == q
  {
    var j :| 0 <= j < |table| && table[j] == p;
    var l :| 0 <= l < |table| && table[l] == q;
  }

  /** Many-to-many looks at the error that ended the iteration: either it reports an error and touches nothing, or
      every parent has what a join query of its own returns. */
  lemma AllOrNothing<R(!new)>(links: seq<(int, int)>, targets: seq<R>, id: R -> int, parents: seq<Owner<R>>,
                              query: seq<int> -> Reply<Joined<R>>, i: nat)
    requires i < |parents|
    requires query(Ids(parents)).Rows? && query(Ids(parents)).end.Complete? ==>
      Answers(query(Ids(parents)), Join(links, targets, id), ParentId<R>, Ids(parents))
    ensures var own := Targets(Selected(Join(links, targets, id), ParentId<R>, [parents[i].id]));
            var out := ManyToMany(parents, query);
            if out.failed then out.loaded == parents
            else |out.loaded| == |parents|
                 && (multiset(out.loaded[i].rel) == multiset(own) <==> own != [] || parents[i].rel == [])
  {
    if !ManyToMany(parents, query).failed {
      ManyToManyTheorem(links, targets, id, parents, query, i);
    }
  }
}
