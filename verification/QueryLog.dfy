/** The N+1 detector's query log: counting in a pruned log is counting in the full one. */
module QueryLog {
  import opened Options

  datatype Query = Query(pattern: string, timestamp: int)

  datatype Detection = Detection(count: int, firstSeen: int, lastSeen: int)

  /** How many queries of the pattern are later than `cutoff`. */
  function CountSince(log: seq<Query>, pattern: string, cutoff: int): nat {
    if log == [] then 0
    else
      var q := log[|log| - 1];
      CountSince(log[..|log| - 1], pattern, cutoff) + if q.timestamp > cutoff && q.pattern == pattern then 1 else 0
  }

  /** The places in the log where the pattern stands with a time later than `cutoff`. */
  ghost function PlacesSince(log: seq<Query>, pattern: string, cutoff: int): set<nat> {
    set i: nat | i < |log| && log[i].pattern == pattern && log[i].timestamp > cutoff
  }

  lemma {:induction false} CountIsSize(log: seq<Query>, pattern: string, cutoff: int)
    ensures CountSince(log, pattern, cutoff) == |PlacesSince(log, pattern, cutoff)|
    decreases |log|
  {
    if log != [] {
      var n := |log| - 1;
      CountIsSize(log[..n], pattern, cutoff);
      var last := if log[n].timestamp > cutoff && log[n].pattern == pattern then {n} else {};
      assert PlacesSince(log, pattern, cutoff) == PlacesSince(log[..n], pattern, cutoff) + last;
    }
  }

  function Later(log: seq<Query>, cutoff: int): seq<Query> {
    if log == [] then []
    else
      var q := log[|log| - 1];
      Later(log[..|log| - 1], cutoff) + if q.timestamp > cutoff then [q] else []
  }

  /** What Record does to the log before it counts. */
  function Recorded(window: int, log: seq<Query>, lastClean: int, q: Query): seq<Query> {
    (if q.timestamp - lastClean > window * 10 then Later(log, q.timestamp - window * 2) else log) + [q]
  }

  function CleanTime(window: int, lastClean: int, now: int): int {
    if now - lastClean > window * 10 then now else lastClean
  }

  function FirstSeen(detections: map<string, Detection>, pattern: string, now: int): int {
    if pattern in detections then detections[pattern].firstSeen else now
  }

  /** What is under the lock. */
  datatype Detector = Detector(queries: seq<Query>, detections: map<string, Detection>, lastClean: int)

  /** What a query does to a detector that takes notice of it: the log with it, the count within the window, and the
      detection from the threshold on. */
  function Noticed(window: int, threshold: int, d: Detector, q: Query): Detector {
    var log := Recorded(window, d.queries, d.lastClean, q);
    var count := CountSince(log, q.pattern, q.timestamp - window);
    var seen := Detection(count, FirstSeen(d.detections, q.pattern, q.timestamp), q.timestamp);
    Detector(log, if count < threshold then d.detections else d.detections[q.pattern := seen],
             CleanTime(window, d.lastClean, q.timestamp))
  }

  /** The callback runs when the count reaches the threshold, and not above it. */
  predicate Alerts(window: int, threshold: int, d: Detector, q: Query) {
    CountSince(Recorded(window, d.queries, d.lastClean, q), q.pattern, q.timestamp - window) == threshold
  }

  /** strings.Contains. */
  predicate Contains(s: string, part: string) {
    part <= s || (s != [] && Contains(s[1..], part))
  }

  lemma {:induction false} FoundAt(s: string, part: string) returns (front: string, back: string)
    requires Contains(s, part)
    ensures s == front + part + back
    decreases |s|
  {
    if part <= s {
      front, back := [], s[|part|..];
    } else {
      front, back := FoundAt(s[1..], part);
      front := [s[0]] + front;
    }
  }

  lemma {:induction false} StandsAt(s: string, part: string, front: string, back: string)
    requires s == front + part + back
    ensures Contains(s, part)
    decreases |front|
  {
    if front != [] {
      assert s[1..] == front[1..] + part + back;
      StandsAt(s[1..], part, front[1..], back);
    } else {
      assert s == part + back;
    }
  }

  /** The part is contained exactly if it stands somewhere in the text. */
  lemma ContainsExactly(s: string, part: string)
    ensures Contains(s, part) <==> exists front, back :: s == front + part + back
  {
    if Contains(s, part) {
      var front, back := FoundAt(s, part);
    }
    if front, back :| s == front + part + back {
      StandsAt(s, part, front, back);
    }
  }

  /** Queries and patterns are compared in lower case. */
  predicate Excluded(query: string, excludes: seq<string>, lower: string -> string) {
    exists i :: 0 <= i < |excludes| && Contains(lower(query), lower(excludes[i]))
  }

  /** A query is excluded exactly if it contains one of the patterns. */
  lemma ExcludedExactly(query: string, excludes: seq<string>, lower: string -> string)
    ensures Excluded(query, excludes, lower)
            <==> exists i, front, back :: 0 <= i < |excludes| && lower(query) == front + lower(excludes[i]) + back
  {
    forall i | 0 <= i < |excludes|
      ensures Contains(lower(query), lower(excludes[i]))
              <==> exists front, back :: lower(query) == front + lower(excludes[i]) + back
    {
      ContainsExactly(lower(query), lower(excludes[i]));
    }
  }

  class N1Detector {
    const enabled: bool
    const excludes: seq<string>
    const threshold: int
    const window: int
    var queries: seq<Query>
    var detections: map<string, Detection>
    var lastClean: int

    constructor (enabled: bool, excludes: seq<string>, threshold: int, window: int, now: int)
      ensures this.enabled == enabled && this.excludes == excludes
      ensures this.threshold == (if threshold <= 0 then 5 else threshold)
      ensures this.window == (if window <= 0 then 100_000_000 else window)
      ensures queries == [] && detections == map[] && lastClean == now
    {
      this.enabled, this.excludes := enabled, excludes;
      this.threshold := if threshold <= 0 then 5 else threshold;
      this.window := if window <= 0 then 100_000_000 else window;
      queries, detections, lastClean := [], map[], now;
    }

    function Value(): Detector
      reads this
    {
      Detector(queries, detections, lastClean)
    }

    method CleanOldQueries(now: int)
      modifies this
      ensures queries == Later(old(queries), now - window * 2)
      ensures detections == old(detections) && lastClean == old(lastClean)
    {
      var cutoff := now - window * 2;
      var newQueries: seq<Query> := [];
      for i := 0 to |queries|
        invariant newQueries == Later(queries[..i], cutoff)
        invariant queries == old(queries) && detections == old(detections) && lastClean == old(lastClean)
      {
        assert queries[..i + 1][..i] == queries[..i];
        if queries[i].timestamp > cutoff {
          newQueries := newQueries + [queries[i]];
        }
      }
      assert queries[..|queries|] == queries;
      queries := newQueries;
    }

    method CountSimilar(pattern: string, cutoff: int) returns (count: nat)
      ensures count == CountSince(queries, pattern, cutoff)
    {
      count := 0;
      for i := 0 to |queries|
        invariant count == CountSince(queries[..i], pattern, cutoff)
      {
        assert queries[..i + 1][..i] == queries[..i];
        if queries[i].timestamp > cutoff && queries[i].pattern == pattern {
          count := count + 1;
        }
      }
      assert queries[..|queries|] == queries;
    }

    method IsExcluded(query: string, lower: string -> string) returns (found: bool)
      ensures found == Excluded(query, excludes, lower)
    {
      for i := 0 to |excludes|
        invariant forall j :: 0 <= j < i ==> !Contains(lower(query), lower(excludes[j]))
      {
        if Contains(lower(query), lower(excludes[i])) {
          return true;
        }
      }
      return false;
    }

    /** `normalize` and `lower` stand for the text processing; `now` was read before the lock. The result tells whether
        the callback runs. */
    method Record(query: string, normalize: string -> string, lower: string -> string, now: int) returns (alert: bool)
      modifies this
      ensures var q := Query(normalize(query), now);
              if enabled && !Excluded(query, excludes, lower) then
                && Value() == Noticed(window, threshold, old(Value()), q)
                && alert == Alerts(window, threshold, old(Value()), q)
              else Value() == old(Value()) && !alert
    {
      if !enabled {
        return false;
      }
      var excluded := IsExcluded(query, lower);
      if excluded {
        return false;
      }
      alert := Note(normalize(query), now);
    }

    /** Cleaning now and then, and recording the query. */
    method Add(pattern: string, now: int)
      modifies this
      ensures queries == Recorded(window, old(queries), old(lastClean), Query(pattern, now))
      ensures lastClean == CleanTime(window, old(lastClean), now) && detections == old(detections)
    {
      if now - lastClean > window * 10 {
        CleanOldQueries(now);
        lastClean := now;
      }
      queries := queries + [Query(pattern, now)];
    }

    /** The locked part of Record. */
    method Note(pattern: string, now: int) returns (alert: bool)
      modifies this
      ensures var q := Query(pattern, now);
              && Value() == Noticed(window, threshold, old(Value()), q)
              && alert == Alerts(window, threshold, old(Value()), q)
    {
      Add(pattern, now);
      var count := CountSimilar(pattern, now - window);
      alert := count == threshold;
      if count >= threshold {
        detections := detections[pattern := Detection(count, FirstSeen(detections, pattern, now), now)];
      }
    }

    method Clear()
      modifies this
      ensures queries == [] && detections == map[] && lastClean == old(lastClean)
    {
      queries, detections := [], map[];
    }
  }

  // ---------------------------------------------------------------- Pruned against full

  /** A detector after some records since the last Clear; `full` is the log it would have without pruning. */
  datatype Log = Log(pruned: seq<Query>, full: seq<Query>, lastClean: int)

  function Step(window: int, s: Log, q: Query): Log {
    Log(Recorded(window, s.pruned, s.lastClean, q), s.full + [q], CleanTime(window, s.lastClean, q.timestamp))
  }

  function Run(window: int, s: Log, queries: seq<Query>): Log
    decreases |queries|
  {
    if queries == [] then s else Run(window, Step(window, s, queries[0]), queries[1..])
  }

  /** No clock reading falls behind an earlier one by more than `lag`. */
  ghost predicate Lags(queries: seq<Query>, lag: int) {
    forall i, j :: 0 <= i < j < |queries| ==> queries[i].timestamp - queries[j].timestamp <= lag
  }

  /** Twice the window before any reading is no later than `cutoff`. */
  ghost predicate Recent(window: int, full: seq<Query>, cutoff: int) {
    forall i :: 0 <= i < |full| ==> full[i].timestamp - window * 2 <= cutoff
  }

  ghost predicate Same(s: Log, p: string, cutoff: int) {
    CountSince(s.pruned, p, cutoff) == CountSince(s.full, p, cutoff)
  }

  /** The logs agree on everything recent. */
  ghost predicate Agrees(window: int, s: Log) {
    forall p, cutoff :: Recent(window, s.full, cutoff) ==> Same(s, p, cutoff)
  }

  lemma {:induction false} CountConcat(a: seq<Query>, q: Query, p: string, cutoff: int)
    ensures CountSince(a + [q], p, cutoff)
         == CountSince(a, p, cutoff) + if q.timestamp > cutoff && q.pattern == p then 1 else 0
  {
    assert (a + [q])[..|a|] == a;
  }

  lemma {:induction false} CountLater(log: seq<Query>, p: string, cutoff: int, low: int)
    requires low <= cutoff
    ensures CountSince(Later(log, low), p, cutoff) == CountSince(log, p, cutoff)
    decreases |log|
  {
    if log != [] {
      var front := log[..|log| - 1];
      CountLater(front, p, cutoff, low);
      CountConcat(Later(front, low), log[|log| - 1], p, cutoff);
      assert Later(front, low) + [] == Later(front, low);
    }
  }

  lemma StepSame(window: int, s: Log, q: Query, p: string, cutoff: int)
    requires Same(s, p, cutoff) && q.timestamp - window * 2 <= cutoff
    ensures Same(Step(window, s, q), p, cutoff)
  {
    CountConcat(s.full, q, p, cutoff);
    if q.timestamp - s.lastClean > window * 10 {
      CountLater(s.pruned, p, cutoff, q.timestamp - window * 2);
      CountConcat(Later(s.pruned, q.timestamp - window * 2), q, p, cutoff);
    } else {
      CountConcat(s.pruned, q, p, cutoff);
    }
  }

  lemma StepAgrees(window: int, s: Log, q: Query)
    requires Agrees(window, s)
    ensures Agrees(window, Step(window, s, q))
  {
    var t := Step(window, s, q);
    forall p, cutoff | Recent(window, t.full, cutoff)
      ensures Same(t, p, cutoff)
    {
      assert t.full[|s.full|] == q;
      assert forall i :: 0 <= i < |s.full| ==> t.full[i] == s.full[i];
      assert Recent(window, s.full, cutoff);
      StepSame(window, s, q, p, cutoff);
    }
  }

  lemma {:induction false} RunAgrees(window: int, s: Log, queries: seq<Query>)
    requires Agrees(window, s)
    ensures Agrees(window, Run(window, s, queries)) && Run(window, s, queries).full == s.full + queries
    decreases |queries|
  {
    if queries == [] {
      assert s.full + [] == s.full;
    } else {
      StepAgrees(window, s, queries[0]);
      RunAgrees(window, Step(window, s, queries[0]), queries[1..]);
      assert s.full + [queries[0]] + queries[1..] == s.full + queries;
    }
  }

  function Empty(lastClean: int): Log {
    Log([], [], lastClean)
  }

  lemma LagIsRecent(window: int, queries: seq<Query>)
    requires queries != [] && Lags(queries, window) && window > 0
    ensures Recent(window, queries, queries[|queries| - 1].timestamp - window)
  {
    forall i | 0 <= i < |queries|
      ensures queries[i].timestamp - window * 2 <= queries[|queries| - 1].timestamp - window
    {
      assert i < |queries| - 1 ==> queries[i].timestamp - queries[|queries| - 1].timestamp <= window;
    }
  }

  /** As long as clock readings fall behind earlier ones by at most the window, the count taken by the latest Record
      is the count over everything recorded since the last Clear. */
  lemma PruningIsInvisible(window: int, lastClean: int, queries: seq<Query>, p: string)
    requires queries != [] && Lags(queries, window) && window > 0
    ensures var now := queries[|queries| - 1].timestamp;
            CountSince(Run(window, Empty(lastClean), queries).pruned, p, now - window)
            == CountSince(queries, p, now - window)
  {
    LagIsRecent(window, queries);
    FullAndAgreeing(window, lastClean, queries);
    assert Same(Run(window, Empty(lastClean), queries), p, queries[|queries| - 1].timestamp - window);
  }

  lemma FullAndAgreeing(window: int, lastClean: int, queries: seq<Query>)
    ensures var s := Run(window, Empty(lastClean), queries); s.full == queries && Agrees(window, s)
  {
    RunAgrees(window, Empty(lastClean), queries);
    assert [] + queries == queries;
  }

  lemma CountOne(q: Query, p: string, cutoff: int)
    ensures CountSince([q], p, cutoff) == if q.timestamp > cutoff && q.pattern == p then 1 else 0
  {
    CountConcat([], q, p, cutoff);
    assert [] + [q] == [q];
  }

  lemma RunThree(window: int, s: Log, a: Query, b: Query, c: Query)
    ensures Run(window, s, [a, b, c]) == Step(window, Step(window, Step(window, s, a), b), c)
  {
    assert [a, b, c][1..] == [b, c] && [b, c][1..] == [c] && [c][1..] == [];
    assert Run(window, Step(window, Step(window, s, a), b), [c])
        == Step(window, Step(window, Step(window, s, a), b), c);
  }

  /** The middle record prunes at time twice the window, so everything up to time 0 goes. */
  lemma PrunedRun(window: int, lastClean: int, a: Query, b: Query, c: Query)
    requires window > 0 && a.timestamp == 0 && b.timestamp == window * 2 && c.timestamp == window - 1
    requires lastClean == -window * 9
    ensures Run(window, Empty(lastClean), [a, b, c]).pruned == [b, c]
  {
    RunThree(window, Empty(lastClean), a, b, c);
    assert [a][..0] == [];
    assert Later([a], 0) == [];
  }

  /** The margin is exactly what that needs: one tick more of lag, and some run undercounts. */
  lemma MarginIsTight(window: int, p: string)
    requires window > 0
    ensures exists queries: seq<Query>, lastClean: int :: Undercounts(window, queries, lastClean, p)
  {
    var a, b, c := Query(p, 0), Query(p, window * 2), Query(p, window - 1);
    PrunedRun(window, -window * 9, a, b, c);
    CountOne(a, p, -1);
    CountOne(b, p, -1);
    CountConcat([b], c, p, -1);
    CountConcat([a], b, p, -1);
    CountConcat([a, b], c, p, -1);
    assert [b] + [c] == [b, c] && [a] + [b] == [a, b] && [a, b] + [c] == [a, b, c];
    assert Undercounts(window, [a, b, c], -window * 9, p);
  }

  /** A run within one tick more of lag whose latest Record misses a query that the full log would have counted. */
  ghost predicate Undercounts(window: int, queries: seq<Query>, lastClean: int, p: string) {
    && queries != [] && Lags(queries, window + 1)
    && var now := queries[|queries| - 1].timestamp;
       CountSince(Run(window, Empty(lastClean), queries).pruned, p, now - window) < CountSince(queries, p, now - window)
  }

  // ---------------------------------------------------------------- How long the log gets

  lemma {:induction false} RunOneMore(window: int, s: Log, queries: seq<Query>, q: Query)
    ensures Run(window, s, queries + [q]) == Step(window, Run(window, s, queries), q)
    decreases |queries|
  {
    if queries == [] {
      assert [q][1..] == [];
      assert [] + [q] == [q];
    } else {
      assert (queries + [q])[1..] == queries[1..] + [q];
      RunOneMore(window, Step(window, s, queries[0]), queries[1..], q);
    }
  }

  lemma RunLast(window: int, lastClean: int, queries: seq<Query>)
    requires queries != []
    ensures Run(window, Empty(lastClean), queries)
         == Step(window, Run(window, Empty(lastClean), queries[..|queries| - 1]), queries[|queries| - 1])
  {
    var front, q := queries[..|queries| - 1], queries[|queries| - 1];
    assert queries == front + [q];
    RunOneMore(window, Empty(lastClean), front, q);
  }

  lemma {:induction false} LaterMember(log: seq<Query>, cutoff: int, q: Query)
    ensures q in Later(log, cutoff) <==> q in log && q.timestamp > cutoff
    decreases |log|
  {
    if log != [] {
      var front, last := log[..|log| - 1], log[|log| - 1];
      LaterMember(front, cutoff, q);
      assert log == front + [last];
    }
  }

  /** Only when more than ten windows have passed since the last cleaning does a query go, and only one that is at least
      two windows old. */
  lemma StepDrops(window: int, s: Log, q: Query, old_: Query)
    ensures old_ in s.pruned && old_ !in Step(window, s, q).pruned ==>
      q.timestamp - s.lastClean > window * 10 && old_.timestamp <= q.timestamp - window * 2
  {
    LaterMember(s.pruned, q.timestamp - window * 2, old_);
  }

  ghost predicate Forward(lastClean: int, queries: seq<Query>) {
    && (forall i :: 0 <= i < |queries| ==> lastClean <= queries[i].timestamp)
    && (forall i, j :: 0 <= i < j < |queries| ==> queries[i].timestamp <= queries[j].timestamp)
  }

  /** The last cleaning is at most ten windows back, and took everything older than two windows before it. */
  ghost predicate CleanedBy(window: int, s: Log, now: int) {
    && s.lastClean <= now <= s.lastClean + window * 10
    && forall q :: q in s.pruned ==> q.timestamp > s.lastClean - window * 2
  }

  lemma StepCleans(window: int, s: Log, before: int, q: Query)
    requires window > 0 && CleanedBy(window, s, before) && before <= q.timestamp
    ensures CleanedBy(window, Step(window, s, q), q.timestamp)
  {
    forall k | k in Step(window, s, q).pruned
      ensures k.timestamp > Step(window, s, q).lastClean - window * 2
    {
      LaterMember(s.pruned, q.timestamp - window * 2, k);
    }
  }

  function LastTime(lastClean: int, queries: seq<Query>): int {
    if queries == [] then lastClean else queries[|queries| - 1].timestamp
  }

  lemma ForwardBefore(lastClean: int, queries: seq<Query>)
    requires Forward(lastClean, queries) && queries != []
    ensures Forward(lastClean, queries[..|queries| - 1])
    ensures LastTime(lastClean, queries[..|queries| - 1]) <= LastTime(lastClean, queries)
  {
  }

  lemma {:induction false} RunCleans(window: int, lastClean: int, queries: seq<Query>)
    requires window > 0 && Forward(lastClean, queries)
    ensures CleanedBy(window, Run(window, Empty(lastClean), queries), LastTime(lastClean, queries))
    decreases |queries|
  {
    if queries != [] {
      var front, q := queries[..|queries| - 1], queries[|queries| - 1];
      ForwardBefore(lastClean, queries);
      RunCleans(window, lastClean, front);
      RunLast(window, lastClean, queries);
      StepCleans(window, Run(window, Empty(lastClean), front), LastTime(lastClean, front), q);
    }
  }

  /** While the clock does not go back, the log never reaches back twelve windows. */
  lemma LogStaysShort(window: int, lastClean: int, queries: seq<Query>, q: Query)
    requires window > 0 && Forward(lastClean, queries) && queries != []
    requires q in Run(window, Empty(lastClean), queries).pruned
    ensures q.timestamp > queries[|queries| - 1].timestamp - window * 12
  {
    RunCleans(window, lastClean, queries);
  }

  // ---------------------------------------------------------------- What the detections say

  /** A detector that has taken notice of these queries since it was made or cleared. */
  function Detect(window: int, threshold: int, lastClean: int, queries: seq<Query>): Detector {
    if queries == [] then Detector([], map[], lastClean)
    else
      var n := |queries| - 1;
      Noticed(window, threshold, Detect(window, threshold, lastClean, queries[..n]), queries[n])
  }

  lemma {:induction false} DetectIsRun(window: int, threshold: int, lastClean: int, queries: seq<Query>)
    ensures var d, s := Detect(window, threshold, lastClean, queries), Run(window, Empty(lastClean), queries);
            d.queries == s.pruned && d.lastClean == s.lastClean
    decreases |queries|
  {
    if queries != [] {
      DetectIsRun(window, threshold, lastClean, queries[..|queries| - 1]);
      RunLast(window, lastClean, queries);
    }
  }

  /** How many queries of its pattern there are within the window when the `i`-th is recorded, without any pruning. */
  function FullCount(window: int, queries: seq<Query>, i: nat): nat
    requires i < |queries|
  {
    CountSince(queries[..i + 1], queries[i].pattern, queries[i].timestamp - window)
  }

  lemma LastCount(window: int, threshold: int, lastClean: int, queries: seq<Query>)
    requires window > 0 && Lags(queries, window) && queries != []
    ensures var n := |queries| - 1;
            var d, q := Detect(window, threshold, lastClean, queries[..n]), queries[n];
            CountSince(Recorded(window, d.queries, d.lastClean, q), q.pattern, q.timestamp - window)
            == FullCount(window, queries, n)
  {
    var n := |queries| - 1;
    DetectIsRun(window, threshold, lastClean, queries);
    PruningIsInvisible(window, lastClean, queries, queries[n].pattern);
    assert queries[..n + 1] == queries;
  }

  /** The callback runs for exactly those queries whose full count is the threshold. */
  lemma AlertsExactly(window: int, threshold: int, lastClean: int, queries: seq<Query>)
    requires window > 0 && Lags(queries, window) && queries != []
    ensures var n := |queries| - 1;
            Alerts(window, threshold, Detect(window, threshold, lastClean, queries[..n]), queries[n])
            <==> FullCount(window, queries, n) == threshold
  {
    LastCount(window, threshold, lastClean, queries);
  }

  /** The `i`-th query is of the pattern and reaches the threshold. */
  ghost predicate Hot(window: int, threshold: int, queries: seq<Query>, p: string, i: nat) {
    i < |queries| && queries[i].pattern == p && FullCount(window, queries, i) >= threshold
  }

  lemma HotBefore(window: int, threshold: int, front: seq<Query>, q: Query, p: string, i: nat)
    requires i < |front|
    ensures Hot(window, threshold, front + [q], p, i) <==> Hot(window, threshold, front, p, i)
    ensures FullCount(window, front + [q], i) == FullCount(window, front, i)
  {
    assert (front + [q])[..i + 1] == front[..i + 1];
  }

  ghost predicate FirstHot(window: int, threshold: int, queries: seq<Query>, p: string, i: nat) {
    Hot(window, threshold, queries, p, i) && forall j: nat :: j < i ==> !Hot(window, threshold, queries, p, j)
  }

  ghost predicate LastHot(window: int, threshold: int, queries: seq<Query>, p: string, i: nat) {
    Hot(window, threshold, queries, p, i) && forall j: nat :: j > i ==> !Hot(window, threshold, queries, p, j)
  }

  /** A detection tells when the pattern reached the threshold first and last, and its count then. */
  ghost predicate Tells(window: int, threshold: int, queries: seq<Query>, p: string, seen: Detection) {
    exists first: nat, last: nat ::
      && FirstHot(window, threshold, queries, p, first) && LastHot(window, threshold, queries, p, last)
      && seen == Detection(FullCount(window, queries, last), queries[first].timestamp, queries[last].timestamp)
  }

  ghost predicate NeverHot(window: int, threshold: int, queries: seq<Query>, p: string) {
    forall i: nat :: !Hot(window, threshold, queries, p, i)
  }

  ghost predicate Right(window: int, threshold: int, queries: seq<Query>, p: string, found: Option<Detection>) {
    match found
    case Some(seen) => Tells(window, threshold, queries, p, seen)
    case None => NeverHot(window, threshold, queries, p)
  }

  /** One more query that does not reach the threshold for this pattern. */
  lemma StillRight(window: int, threshold: int, front: seq<Query>, q: Query, p: string, found: Option<Detection>)
    requires Right(window, threshold, front, p, found) && !Hot(window, threshold, front + [q], p, |front|)
    ensures Right(window, threshold, front + [q], p, found)
  {
    var all := front + [q];
    forall i: nat
      ensures Hot(window, threshold, all, p, i) <==> Hot(window, threshold, front, p, i)
    {
      if i < |front| {
        HotBefore(window, threshold, front, q, p, i);
      }
    }
    if found.Some? {
      var first: nat, last: nat :|
        && FirstHot(window, threshold, front, p, first) && LastHot(window, threshold, front, p, last)
        && found.value == Detection(FullCount(window, front, last), front[first].timestamp, front[last].timestamp);
      HotBefore(window, threshold, front, q, p, last);
      assert FirstHot(window, threshold, all, p, first) && LastHot(window, threshold, all, p, last);
    }
  }

  /** One that does. */
  lemma NowRight(window: int, threshold: int, front: seq<Query>, q: Query, p: string, found: Option<Detection>)
    requires Right(window, threshold, front, p, found) && Hot(window, threshold, front + [q], p, |front|)
    ensures var since := if found.Some? then found.value.firstSeen else q.timestamp;
            var count := FullCount(window, front + [q], |front|);
            Tells(window, threshold, front + [q], p, Detection(count, since, q.timestamp))
  {
    var all, n := front + [q], |front|;
    forall i: nat | i < n
      ensures Hot(window, threshold, all, p, i) <==> Hot(window, threshold, front, p, i)
    {
      HotBefore(window, threshold, front, q, p, i);
    }
    assert LastHot(window, threshold, all, p, n);
    if found.Some? {
      var first: nat, last: nat :|
        && FirstHot(window, threshold, front, p, first) && LastHot(window, threshold, front, p, last)
        && found.value == Detection(FullCount(window, front, last), front[first].timestamp, front[last].timestamp);
      assert FirstHot(window, threshold, all, p, first);
    } else {
      assert FirstHot(window, threshold, all, p, n);
    }
  }

  function Found(detections: map<string, Detection>, p: string): Option<Detection> {
    if p in detections then Some(detections[p]) else None
  }

  lemma NoticedFinds(window: int, threshold: int, d: Detector, q: Query, p: string)
    ensures var found := Found(d.detections, p);
            var count := CountSince(Recorded(window, d.queries, d.lastClean, q), q.pattern, q.timestamp - window);
            Found(Noticed(window, threshold, d, q).detections, p)
            == if q.pattern == p && count >= threshold
               then Some(Detection(count, if found.Some? then found.value.firstSeen else q.timestamp, q.timestamp))
               else found
  {
  }

  lemma DetectOneMore(window: int, threshold: int, lastClean: int, queries: seq<Query>, p: string)
    requires window > 0 && Lags(queries, window) && queries != []
    ensures var front, q := queries[..|queries| - 1], queries[|queries| - 1];
            var found := Found(Detect(window, threshold, lastClean, front).detections, p);
            var count := FullCount(window, queries, |front|);
            Found(Detect(window, threshold, lastClean, queries).detections, p)
            == if q.pattern == p && count >= threshold
               then Some(Detection(count, if found.Some? then found.value.firstSeen else q.timestamp, q.timestamp))
               else found
  {
    var front, q := queries[..|queries| - 1], queries[|queries| - 1];
    LastCount(window, threshold, lastClean, queries);
    NoticedFinds(window, threshold, Detect(window, threshold, lastClean, front), q, p);
  }

  lemma RightOneMore(window: int, threshold: int, lastClean: int, queries: seq<Query>, p: string)
    requires window > 0 && Lags(queries, window) && queries != []
    requires var front := queries[..|queries| - 1];
             Right(window, threshold, front, p, Found(Detect(window, threshold, lastClean, front).detections, p))
    ensures Right(window, threshold, queries, p, Found(Detect(window, threshold, lastClean, queries).detections, p))
  {
    var front, q := queries[..|queries| - 1], queries[|queries| - 1];
    var found := Found(Detect(window, threshold, lastClean, front).detections, p);
    DetectOneMore(window, threshold, lastClean, queries, p);
    assert queries == front + [q];
    if Hot(window, threshold, queries, p, |front|) {
      NowRight(window, threshold, front, q, p, found);
    } else {
      StillRight(window, threshold, front, q, p, found);
    }
  }

  lemma {:induction false} AlwaysRight(window: int, threshold: int, lastClean: int, queries: seq<Query>, p: string)
    requires window > 0 && Lags(queries, window)
    ensures Right(window, threshold, queries, p, Found(Detect(window, threshold, lastClean, queries).detections, p))
    decreases |queries|
  {
    if queries != [] {
      AlwaysRight(window, threshold, lastClean, queries[..|queries| - 1], p);
      RightOneMore(window, threshold, lastClean, queries, p);
    }
  }

  /** While clock readings fall behind by at most the window: there is a detection exactly for the patterns that have
      reached the threshold, counted over everything recorded, and it tells when they first and last did. */
  lemma DetectionTheorem(window: int, threshold: int, lastClean: int, queries: seq<Query>, p: string)
    requires window > 0 && Lags(queries, window)
    ensures var detections := Detect(window, threshold, lastClean, queries).detections;
            if p in detections then Tells(window, threshold, queries, p, detections[p])
            else forall i: nat :: !Hot(window, threshold, queries, p, i)
  {
    AlwaysRight(window, threshold, lastClean, queries, p);
  }
}
