/** The command-name suggester: two-row edit distance and the closest-command search. */
module EditDistance {

  newtype Byte = b: int | 0 <= b < 256
  type Text = seq<Byte>

  // ---------------------------------------------------------------- Reference recursion

  function Min(x: nat, y: nat): nat {
    if x < y then x else y
  }

  function Cost(x: Byte, y: Byte): nat {
    if x == y then 0 else 1
  }

  function Init(s: Text): Text
    requires s != []
  {
    s[..|s| - 1]
  }

  function Last(s: Text): Byte
    requires s != []
  {
    s[|s| - 1]
  }

  /** The recurrence that the two rows tabulate, on the last characters of both texts. */
  function Distance(a: Text, b: Text): nat
    decreases |a| + |b|
  {
    if a == [] then |b|
    else if b == [] then |a|
    else Min(Distance(a, Init(b)) + 1,
             Min(Distance(Init(a), b) + 1, Distance(Init(a), Init(b)) + Cost(Last(a), Last(b))))
  }

  // ---------------------------------------------------------------- Edit scripts

  datatype Edit =
    | Insert(at: nat, ch: Byte)
    | Delete(at: nat)
    | Substitute(at: nat, ch: Byte)

  ghost predicate Applicable(e: Edit, s: Text) {
    if e.Insert? then e.at <= |s| else e.at < |s|
  }

  ghost function Apply(e: Edit, s: Text): Text
    requires Applicable(e, s)
  {
    match e
    case Insert(at, ch) => s[..at] + [ch] + s[at..]
    case Delete(at) => s[..at] + s[at + 1..]
    case Substitute(at, ch) => s[..at] + [ch] + s[at + 1..]
  }

  /** Running the edits of `script` one after the other turns `a` into `b`. */
  ghost predicate Rewrites(a: Text, script: seq<Edit>, b: Text)
    decreases |script|
  {
    if script == [] then a == b
    else Applicable(script[0], a) && Rewrites(Apply(script[0], a), script[1..], b)
  }

  lemma FirstThenRest(a: Text, e: Edit, rest: seq<Edit>, b: Text)
    requires Applicable(e, a) && Rewrites(Apply(e, a), rest, b)
    ensures Rewrites(a, [e] + rest, b)
  {
    assert ([e] + rest)[1..] == rest;
  }

  lemma StepThenScripts(a: Text, s: seq<Edit>, t: seq<Edit>, next: Text, c: Text)
    requires s != [] && Applicable(s[0], a) && next == Apply(s[0], a) && Rewrites(next, s[1..] + t, c)
    ensures Rewrites(a, s + t, c)
  {
    assert (s + t)[0] == s[0] && (s + t)[1..] == s[1..] + t;
  }

  lemma {:induction false} RewritesConcat(a: Text, s: seq<Edit>, b: Text, t: seq<Edit>, c: Text)
    requires Rewrites(a, s, b) && Rewrites(b, t, c)
    ensures Rewrites(a, s + t, c)
    decreases |s|
  {
    if s == [] {
      assert s + t == t;
    } else {
      RewritesConcat(Apply(s[0], a), s[1..], b, t, c);
      StepThenScripts(a, s, t, Apply(s[0], a), c);
    }
  }

  /** A script never looks past the end of the text it edits, so a common last character rides along. */
  lemma {:induction false} RewritesUnderSuffix(a: Text, script: seq<Edit>, b: Text, x: Byte)
    requires Rewrites(a, script, b)
    ensures Rewrites(a + [x], script, b + [x])
    decreases |script|
  {
    if script != [] {
      var e := script[0];
      assert Apply(e, a + [x]) == Apply(e, a) + [x];
      RewritesUnderSuffix(Apply(e, a), script[1..], b, x);
    }
  }

  /** Deleting every character from the end. */
  lemma {:induction false} EraseScript(a: Text) returns (script: seq<Edit>)
    ensures |script| == |a| && Rewrites(a, script, [])
  {
    if a == [] {
      script := [];
    } else {
      var e := Delete(|a| - 1);
      var rest := EraseScript(Init(a));
      script := [e] + rest;
      assert Apply(e, a) == Init(a) && script[1..] == rest;
    }
  }

  /** Appending the characters of `b` one by one. */
  lemma {:induction false} BuildScript(b: Text) returns (script: seq<Edit>)
    ensures |script| == |b| && Rewrites([], script, b)
  {
    if b == [] {
      script := [];
    } else {
      var rest := BuildScript(Init(b));
      script := rest + [AppendEdit(b)];
      AppendLast(b);
      RewritesConcat([], rest, Init(b), [AppendEdit(b)], b);
    }
  }

  ghost function AppendEdit(b: Text): Edit
    requires b != []
  {
    Insert(|b| - 1, Last(b))
  }

  lemma AppendLast(b: Text)
    requires b != []
    ensures Rewrites(Init(b), [AppendEdit(b)], b)
  {
    assert Apply(AppendEdit(b), Init(b)) == b;
    assert [AppendEdit(b)][1..] == [];
  }

  lemma DeleteLast(a: Text, rest: seq<Edit>, b: Text)
    requires a != [] && Rewrites(Init(a), rest, b)
    ensures Rewrites(a, [Delete(|a| - 1)] + rest, b)
  {
    assert Apply(Delete(|a| - 1), a) == Init(a);
    FirstThenRest(a, Delete(|a| - 1), rest, b);
  }

  lemma Ends(s: Text)
    requires s != []
    ensures Init(s) + [Last(s)] == s
  {
  }

  lemma KeepLast(a: Text, rest: seq<Edit>, b: Text)
    requires a != [] && b != [] && Last(a) == Last(b) && Rewrites(Init(a), rest, Init(b))
    ensures Rewrites(a, rest, b)
  {
    RewritesUnderSuffix(Init(a), rest, Init(b), Last(b));
    Ends(a);
    Ends(b);
  }

  lemma SubstitutedEnd(a: Text, x: Byte)
    requires a != []
    ensures Apply(Substitute(|a| - 1, x), a) == Init(a) + [x]
  {
  }

  lemma SubstituteLast(a: Text, rest: seq<Edit>, b: Text)
    requires a != [] && b != [] && Rewrites(Init(a), rest, Init(b))
    ensures Rewrites(a, [Substitute(|a| - 1, Last(b))] + rest, b)
  {
    RewritesUnderSuffix(Init(a), rest, Init(b), Last(b));
    assert Init(b) + [Last(b)] == b;
    SubstitutedEnd(a, Last(b));
    FirstThenRest(a, Substitute(|a| - 1, Last(b)), rest, b);
  }

  /** Some script achieves the recurrence's value. */
  lemma {:induction false} OptimalScript(a: Text, b: Text) returns (script: seq<Edit>)
    ensures |script| == Distance(a, b) && Rewrites(a, script, b)
    decreases |a| + |b|
  {
    if a == [] {
      script := BuildScript(b);
    } else if b == [] {
      script := EraseScript(a);
    } else if Distance(a, b) == Distance(a, Init(b)) + 1 {
      var rest := OptimalScript(a, Init(b));
      AppendLast(b);
      RewritesConcat(a, rest, Init(b), [AppendEdit(b)], b);
      script := rest + [AppendEdit(b)];
    } else if Distance(a, b) == Distance(Init(a), b) + 1 {
      var rest := OptimalScript(Init(a), b);
      DeleteLast(a, rest, b);
      script := [Delete(|a| - 1)] + rest;
    } else {
      var rest := OptimalScript(Init(a), Init(b));
      if Last(a) == Last(b) {
        KeepLast(a, rest, b);
        script := rest;
      } else {
        SubstituteLast(a, rest, b);
        script := [Substitute(|a| - 1, Last(b))] + rest;
      }
    }
  }

  // ---------------------------------------------------------------- The distance is a metric

  lemma {:induction false} DistanceSymmetric(a: Text, b: Text)
    ensures Distance(a, b) == Distance(b, a)
    decreases |a| + |b|
  {
    if a != [] && b != [] {
      DistanceSymmetric(a, Init(b));
      DistanceSymmetric(Init(a), b);
      DistanceSymmetric(Init(a), Init(b));
    }
  }

  lemma {:induction false} DistanceZero(a: Text, b: Text)
    ensures Distance(a, b) == 0 <==> a == b
    decreases |a| + |b|
  {
    if a != [] && b != [] {
      DistanceZero(Init(a), Init(b));
      assert a == Init(a) + [Last(a)] && b == Init(b) + [Last(b)];
    }
  }

  lemma {:induction false} DistanceFromEmpty(a: Text, b: Text)
    ensures |a| <= |b| + Distance(a, b) && |b| <= |a| + Distance(a, b)
    decreases |a| + |b|
  {
    if a != [] && b != [] {
      DistanceFromEmpty(a, Init(b));
      DistanceFromEmpty(Init(a), b);
      DistanceFromEmpty(Init(a), Init(b));
    }
  }

  lemma {:induction false} DistanceTriangle(a: Text, b: Text, c: Text)
    ensures Distance(a, c) <= Distance(a, b) + Distance(b, c)
    decreases |a| + |b| + |c|
  {
    if a == [] || c == [] || b == [] {
      DistanceFromEmpty(a, b);
      DistanceFromEmpty(b, c);
      DistanceAtMostSum(a, c);
    } else if Distance(a, b) == Distance(Init(a), b) + 1 {
      DistanceTriangle(Init(a), b, c);
    } else if Distance(b, c) == Distance(b, Init(c)) + 1 {
      DistanceTriangle(a, b, Init(c));
    } else if Distance(a, b) == Distance(a, Init(b)) + 1 {
      if Distance(b, c) == Distance(Init(b), c) + 1 {
        DistanceTriangle(a, Init(b), c);
      } else {
        DistanceTriangle(a, Init(b), Init(c));
      }
    } else if Distance(b, c) == Distance(Init(b), c) + 1 {
      DistanceTriangle(Init(a), Init(b), c);
    } else {
      DistanceTriangle(Init(a), Init(b), Init(c));
    }
  }

  lemma {:induction false} DistanceAtMostSum(a: Text, c: Text)
    ensures Distance(a, c) <= |a| + |c|
    decreases |a| + |c|
  {
    if a != [] && c != [] {
      DistanceAtMostSum(a, Init(c));
    }
  }

  lemma {:induction false} CommonSuffix(p: Text, q: Text, s: Text)
    ensures Distance(p + s, q + s) <= Distance(p, q)
    decreases |s|
  {
    if s == [] {
      assert p + s == p && q + s == q;
    } else {
      CommonSuffix(p, q, Init(s));
      assert Init(p + s) == p + Init(s) && Init(q + s) == q + Init(s);
    }
  }

  lemma OneMore(p: Text, x: Byte, y: Byte)
    ensures Distance(p, p + [x]) <= 1 && Distance(p + [x], p) <= 1 && Distance(p + [x], p + [y]) <= 1
  {
    DistanceZero(p, p);
    assert Init(p + [x]) == p && Init(p + [y]) == p;
    DistanceSymmetric(p, p + [x]);
    if p != [] {
      assert Distance(p, p + [x]) <= Distance(p, p) + 1;
    }
  }

  lemma InsertedBetween(p: Text, x: Byte, s: Text, without: Text, with: Text)
    requires without == p + s && with == p + [x] + s
    ensures Distance(without, with) <= 1 && Distance(with, without) <= 1
  {
    OneMore(p, x, x);
    CommonSuffix(p, p + [x], s);
    CommonSuffix(p + [x], p, s);
  }

  lemma SubstitutedBetween(p: Text, x: Byte, y: Byte, s: Text, before: Text, after: Text)
    requires before == p + [x] + s && after == p + [y] + s
    ensures Distance(before, after) <= 1
  {
    OneMore(p, x, y);
    CommonSuffix(p + [x], p + [y], s);
  }

  lemma OneEdit(e: Edit, s: Text)
    requires Applicable(e, s)
    ensures Distance(s, Apply(e, s)) <= 1
  {
    match e
    case Insert(at, ch) =>
      InsertedBetween(s[..at], ch, s[at..], s, Apply(e, s));
    case Delete(at) =>
      InsertedBetween(s[..at], s[at], s[at + 1..], Apply(e, s), s);
    case Substitute(at, ch) =>
      SubstitutedBetween(s[..at], s[at], ch, s[at + 1..], s, Apply(e, s));
  }

  lemma {:induction false} NoShorterScript(a: Text, script: seq<Edit>, b: Text)
    requires Rewrites(a, script, b)
    ensures Distance(a, b) <= |script|
    decreases |script|
  {
    if script == [] {
      DistanceZero(a, b);
    } else {
      var mid := Apply(script[0], a);
      OneEdit(script[0], a);
      NoShorterScript(mid, script[1..], b);
      DistanceTriangle(a, mid, b);
    }
  }

  /** The value is the length of a shortest edit script: one of that length exists, none is shorter. */
  lemma DistanceIsMinimumEdits(a: Text, b: Text)
    ensures exists script :: Rewrites(a, script, b) && |script| == Distance(a, b)
    ensures forall script :: Rewrites(a, script, b) ==> Distance(a, b) <= |script|
  {
    var best := OptimalScript(a, b);
    forall script | Rewrites(a, script, b)
      ensures Distance(a, b) <= |script|
    {
      NoShorterScript(a, script, b);
    }
  }

  // ---------------------------------------------------------------- The two-row loop

  /** One cell of the table, from its three neighbours. */
  lemma Cell(a: Text, b: Text, i: nat, j: nat)
    requires 0 < i <= |a| && 0 < j <= |b|
    ensures Distance(a[..i], b[..j])
            == Min(Distance(a[..i], b[..j - 1]) + 1,
                   Min(Distance(a[..i - 1], b[..j]) + 1,
                       Distance(a[..i - 1], b[..j - 1]) + Cost(a[i - 1], b[j - 1])))
  {
    assert Init(a[..i]) == a[..i - 1] && Init(b[..j]) == b[..j - 1];
  }

  /** `row` holds the distances from the first `i` characters of `a` to the prefixes of `b` shorter than `n`. */
  ghost predicate IsRow(a: Text, b: Text, i: nat, row: seq<nat>, n: nat)
    requires i <= |a|
  {
    n <= |row| == |b| + 1 && forall k :: 0 <= k < n ==> row[k] == Distance(a[..i], b[..k])
  }

  lemma RowGrows(a: Text, b: Text, i: nat, prev: seq<nat>, curr: seq<nat>, j: nat, next: nat)
    requires 0 < i <= |a| && 0 < j <= |b|
    requires IsRow(a, b, i - 1, prev, |b| + 1) && IsRow(a, b, i, curr, j)
    requires next == Min(curr[j - 1] + 1, Min(prev[j] + 1, prev[j - 1] + Cost(a[i - 1], b[j - 1])))
    ensures IsRow(a, b, i, curr[j := next], j + 1)
  {
    Cell(a, b, i, j);
  }

  method FillRow(a: Text, b: Text, i: nat, prev: array<nat>, curr: array<nat>)
    requires 0 < i <= |a| && prev != curr && prev.Length == curr.Length == |b| + 1
    requires IsRow(a, b, i - 1, prev[..], |b| + 1)
    modifies curr
    ensures IsRow(a, b, i, curr[..], |b| + 1)
  {
    curr[0] := i;
    for j := 1 to |b| + 1
      invariant IsRow(a, b, i, curr[..], j)
      invariant prev[..] == old(prev[..])
    {
      var cost := 1;
      if a[i - 1] == b[j - 1] {
        cost := 0;
      }
      var next := Min(curr[j - 1] + 1, Min(prev[j] + 1, prev[j - 1] + cost));
      RowGrows(a, b, i, prev[..], curr[..], j, next);
      curr[j] := next;
    }
  }

  method Levenshtein(a: Text, b: Text) returns (d: nat)
    ensures d == Distance(a, b)
  {
    var la, lb := |a|, |b|;
    if la == 0 {
      return lb;
    }
    if lb == 0 {
      return la;
    }
    var prev := new nat[lb + 1];
    var curr := new nat[lb + 1];
    for j := 0 to lb + 1
      invariant IsRow(a, b, 0, prev[..], j)
    {
      prev[j] := j;
    }
    for i := 1 to la + 1
      invariant prev != curr && prev.Length == curr.Length == lb + 1
      invariant fresh(prev) && fresh(curr)
      invariant IsRow(a, b, i - 1, prev[..], lb + 1)
    {
      FillRow(a, b, i, prev, curr);
      prev, curr := curr, prev;
    }
    assert a[..la] == a && b[..lb] == b;
    assert prev[..][lb] == Distance(a, b);
    return prev[lb];
  }

  // ---------------------------------------------------------------- The closest command

  const MAX_DISTANCE: nat := 4

  ghost predicate HasPrefix(s: Text, p: Text) {
    p <= s
  }

  /** What a suggestion may be: the nearest command when one is within distance 3, else a completion. */
  ghost predicate Suggestion(input: Text, commands: set<Text>, best: Text) {
    if exists c :: c in commands && Distance(input, c) < MAX_DISTANCE then
      best in commands && forall c :: c in commands ==> Distance(input, best) <= Distance(input, c)
    else if exists c :: c in commands && HasPrefix(c, input) then
      best in commands && HasPrefix(best, input)
    else
      best == []
  }

  /** `input` is already lower-cased; the Go map is visited in whatever order the picks happen. */
  method SuggestCommand(input: Text, commands: set<Text>) returns (bestMatch: Text)
    requires [] !in commands
    ensures Suggestion(input, commands, bestMatch)
  {
    bestMatch := [];
    var bestDist := MAX_DISTANCE;
    var todo := commands;
    while todo != {}
      invariant todo <= commands
      invariant bestDist <= MAX_DISTANCE
      invariant bestDist < MAX_DISTANCE ==> bestMatch in commands && Distance(input, bestMatch) == bestDist
      invariant forall c :: c in commands - todo ==> bestDist <= Distance(input, c)
      invariant bestDist == MAX_DISTANCE ==>
                  if bestMatch == [] then forall c :: c in commands - todo ==> !HasPrefix(c, input)
                  else bestMatch in commands && HasPrefix(bestMatch, input)
      decreases todo
    {
      var cmd :| cmd in todo;
      todo := todo - {cmd};
      var d := Levenshtein(input, cmd);
      if d < bestDist {
        bestDist := d;
        bestMatch := cmd;
      }
      if input <= cmd && |bestMatch| == 0 {
        bestMatch := cmd;
      }
    }
  }
}
