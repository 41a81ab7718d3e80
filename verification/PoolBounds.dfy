/** How many connections can be warm at once, with and without connections that break, and schedules that get there. */
module PoolBounds {
  import opened WarmPool

  // ---------------------------------------------------------------- What the limit leaves

  /** The most connections that can be warm at once while none breaks in a client's hands. */
  function MostWarm(cfg: Config): nat {
    if cfg.cap == 0 || 2 * cfg.goal <= cfg.cap then 2 * cfg.goal else cfg.cap
  }

  /** And when some do. */
  function MostWarmWithBreaks(cfg: Config): nat {
    if cfg.cap == 0 || cfg.goal <= cfg.cap then 2 * cfg.goal else cfg.goal + cfg.cap
  }

  ghost predicate NoBreaks(steps: seq<Step>) {
    forall i :: 0 <= i < |steps| ==> !steps[i].Break?
  }

  lemma {:induction false} NoneDead(cfg: Config, w: World, steps: seq<Step>)
    requires w.dead == multiset{} && NoBreaks(steps)
    ensures Run(cfg, w, steps).dead == multiset{}
    decreases |steps|
  {
    if steps != [] {
      assert Next(cfg, w, steps[0]).dead == multiset{};
      NoneDead(cfg, Next(cfg, w, steps[0]), steps[1..]);
    }
  }

  /** The part of the shelf that clients can fill. */
  function Front(cfg: Config, warm: seq<Conn>): seq<Conn> {
    if |warm| <= cfg.goal then warm else warm[..cfg.goal]
  }

  /** Every dead connection is with the clients, on its way back, or in the front part of the shelf. */
  ghost predicate DeadInFront(cfg: Config, w: World) {
    forall c: Conn :: w.dead[c] <= multiset(Front(cfg, w.shelf.warm))[c] + w.probing[c] + w.held[c] + w.returning[c]
  }

  lemma CountFront(cfg: Config, warm: seq<Conn>, more: seq<Conn>, c: Conn)
    ensures multiset(Front(cfg, warm + more))[c] >= multiset(Front(cfg, warm))[c]
  {
    if |warm| <= cfg.goal {
      var front := Front(cfg, warm + more);
      assert front == warm + front[|warm|..];
    } else {
      assert Front(cfg, warm + more) == Front(cfg, warm);
    }
  }

  lemma {:induction false} HealthyOfFirst(warm: seq<Conn>, answers: Conn -> bool, k: nat)
    returns (more: seq<Conn>, moreShut: seq<Conn>)
    requires k <= |warm|
    ensures Healthy(warm, answers) == Healthy(warm[..k], answers) + more
    ensures Unanswering(warm, answers) == Unanswering(warm[..k], answers) + moreShut
    decreases |warm|
  {
    more, moreShut := [], [];
    if k == |warm| {
      assert warm[..k] == warm;
    } else {
      var front: seq<Conn> := warm[..|warm| - 1];
      var last := warm[|warm| - 1];
      assert front[..k] == warm[..k];
      more, moreShut := HealthyOfFirst(front, answers, k);
      more, moreShut := more + (if answers(last) then [last] else []), moreShut + if answers(last) then [] else [last];
    }
  }

  lemma CountBoth(s: seq<Conn>, t: seq<Conn>, c: Conn)
    ensures multiset(s + t)[c] == multiset(s)[c] + multiset(t)[c]
  {
  }

  /** Removing connections from the shelf moves others forward only. */
  lemma HealthyFront(cfg: Config, warm: seq<Conn>, answers: Conn -> bool, c: Conn)
    ensures multiset(Front(cfg, Healthy(warm, answers)))[c] + multiset(Unanswering(warm, answers))[c]
         >= multiset(Front(cfg, warm))[c]
  {
    var front := Front(cfg, warm);
    assert front == warm[..|front|];
    var more, moreShut := HealthyOfFirst(warm, answers, |front|);
    HealthySizes(front, answers);
    HealthyOrNot(front, answers, c);
    CountFront(cfg, Healthy(front, answers), more, c);
    CountBoth(Unanswering(front, answers), moreShut, c);
  }

  lemma FrontWithLast(cfg: Config, warm: seq<Conn>, last: Conn, c: Conn)
    ensures multiset(Front(cfg, warm + [last]))[c] <= multiset(Front(cfg, warm))[c] + if c == last then 1 else 0
  {
    if |warm| < cfg.goal {
      CountLast(warm, last, c);
    } else {
      assert Front(cfg, warm + [last]) == Front(cfg, warm);
    }
  }

  lemma {:induction false} WarmUpAppends(w: Warmed, turns: seq<Warmth>) returns (more: seq<Conn>)
    ensures WarmUpAll(w, turns).shelf.warm == w.shelf.warm + more
    decreases |turns|
  {
    more := [];
    if turns != [] && !turns[0].Refused? {
      var rest := WarmUpAppends(WarmUpTurn(w, turns[0].Opened?), turns[1..]);
      more := (if turns[0].Opened? then [w.next] else []) + rest;
    }
  }

  lemma ClientKeepsDeadInFront(cfg: Config, w: World, step: Step)
    requires DeadInFront(cfg, w)
    requires step.ProbeAnswers? || step.ProbeFails? || step.OpenCold? || step.Break? || step.GiveBack?
    ensures DeadInFront(cfg, Next(cfg, w, step))
  {
  }

  lemma TakeKeepsDeadInFront(cfg: Config, w: World)
    requires DeadInFront(cfg, w)
    ensures DeadInFront(cfg, Next(cfg, w, Take))
  {
    var warm := w.shelf.warm;
    if warm != [] {
      var left: seq<Conn> := warm[..|warm| - 1];
      assert warm == left + [warm[|warm| - 1]];
      var last := warm[|warm| - 1];
      forall c: Conn
        ensures multiset(Front(cfg, left))[c] + (if c == last then 1 else 0) >= multiset(Front(cfg, warm))[c]
      {
        FrontWithLast(cfg, left, last, c);
      }
    }
  }

  lemma PutAwayKeepsDeadInFront(cfg: Config, w: World, conn: Conn)
    requires DeadInFront(cfg, w)
    ensures DeadInFront(cfg, Next(cfg, w, PutAway(conn)))
  {
    if conn in w.returning && |w.shelf.warm| < cfg.goal {
      var v := Next(cfg, w, PutAway(conn));
      assert Front(cfg, w.shelf.warm) == w.shelf.warm && Front(cfg, v.shelf.warm) == w.shelf.warm + [conn];
      forall c: Conn
        ensures v.dead[c] <= multiset(Front(cfg, v.shelf.warm))[c] + v.probing[c] + v.held[c] + v.returning[c]
      {
        CountLast(w.shelf.warm, conn, c);
      }
    }
  }

  lemma GrowthKeepsDeadInFront(cfg: Config, w: World, more: seq<Conn>)
    requires DeadInFront(cfg, w)
    ensures DeadInFront(cfg, w.(shelf := Shelf(w.shelf.warm + more, w.shelf.stat)))
  {
    forall c: Conn
      ensures multiset(Front(cfg, w.shelf.warm + more))[c] >= multiset(Front(cfg, w.shelf.warm))[c]
    {
      CountFront(cfg, w.shelf.warm, more, c);
    }
  }

  lemma DropSickKeepsDeadInFront(cfg: Config, w: World, answers: Conn -> bool)
    requires DeadInFront(cfg, w)
    ensures DeadInFront(cfg, Next(cfg, w, DropSick(answers)))
  {
    var v := Next(cfg, w, DropSick(answers));
    if v != w {
      var shut := multiset(Unanswering(w.shelf.warm, answers));
      assert v == Closing(w.(shelf := Answering(w.shelf, answers)), shut);
      forall c: Conn
        ensures v.dead[c] <= multiset(Front(cfg, v.shelf.warm))[c] + v.probing[c] + v.held[c] + v.returning[c]
      {
        HealthyFront(cfg, w.shelf.warm, answers, c);
      }
    }
  }

  lemma CutsKeepDeadInFront(cfg: Config, w: World, step: Step)
    requires DeadInFront(cfg, w) && (step.Shrink? || step.Stop?)
    ensures DeadInFront(cfg, Next(cfg, w, step))
  {
    forall c: Conn
      ensures multiset(Front(cfg, w.shelf.warm))[c] <= multiset(w.shelf.warm)[c]
    {
      if |w.shelf.warm| > cfg.goal {
        assert w.shelf.warm == w.shelf.warm[..cfg.goal] + w.shelf.warm[cfg.goal..];
      }
    }
  }

  lemma StepKeepsDeadInFront(cfg: Config, w: World, step: Step)
    requires DeadInFront(cfg, w)
    ensures DeadInFront(cfg, Next(cfg, w, step))
  {
    match step
    case Start =>
    case CountWarm =>
    case OpenForRefill(_) =>
    case WarmUpOnce(turns) =>
      var more := WarmUpAppends(Warmed(w.shelf, [], w.next), turns);
      GrowthKeepsDeadInFront(cfg, w, more);
    case AddRefill => if w.health.Refilling? { GrowthKeepsDeadInFront(cfg, w, [w.health.conn]); }
    case Take => TakeKeepsDeadInFront(cfg, w);
    case PutAway(conn) => PutAwayKeepsDeadInFront(cfg, w, conn);
    case DropSick(answers) => DropSickKeepsDeadInFront(cfg, w, answers);
    case Shrink => CutsKeepDeadInFront(cfg, w, step);
    case Stop => CutsKeepDeadInFront(cfg, w, step);
    case _ => ClientKeepsDeadInFront(cfg, w, step);
  }

  lemma {:induction false} RunKeepsDeadInFront(cfg: Config, w: World, steps: seq<Step>)
    requires DeadInFront(cfg, w)
    ensures DeadInFront(cfg, Run(cfg, w, steps))
    decreases |steps|
  {
    if steps != [] {
      StepKeepsDeadInFront(cfg, w, steps[0]);
      RunKeepsDeadInFront(cfg, Next(cfg, w, steps[0]), steps[1..]);
    }
  }

  lemma SubMultiset(a: multiset<Conn>, b: multiset<Conn>)
    requires forall c: Conn :: a[c] <= b[c]
    ensures |a| <= |b|
  {
    assert b == a + (b - a);
  }

  /** Connections beyond the front of the shelf are not dead, so that they count against the limit. */
  lemma BeyondFront(cfg: Config, w: World)
    requires Capped(cfg, w) && DeadInFront(cfg, w)
    ensures |w.shelf.warm| <= cfg.goal + Open(w) || |w.shelf.warm| <= cfg.goal
  {
    var places := multiset(Front(cfg, w.shelf.warm)) + w.probing + w.held + w.returning;
    SubMultiset(w.dead, places);
    assert |places| == |Front(cfg, w.shelf.warm)| + |w.probing| + |w.held| + |w.returning|;
  }

  /** The shelf in every schedule: without breaks at most twice WarmConnections and at most MaxOpenConns; with breaks
      MaxOpenConns bounds only what lies beyond WarmConnections. */
  lemma ShelfTheorem(cfg: Config, steps: seq<Step>)
    ensures var w := Run(cfg, Fresh(), steps);
            && |w.shelf.warm| <= MostWarmWithBreaks(cfg)
            && (NoBreaks(steps) ==> |w.shelf.warm| <= MostWarm(cfg))
  {
    var w := Run(cfg, Fresh(), steps);
    RunKeeps(cfg, Fresh(), steps);
    RunKeepsDeadInFront(cfg, Fresh(), steps);
    BeyondFront(cfg, w);
    if NoBreaks(steps) {
      NoneDead(cfg, Fresh(), steps);
    }
  }

  // ---------------------------------------------------------------- Schedules that reach the bounds

  lemma {:induction false} RunConcat(cfg: Config, w: World, a: seq<Step>, b: seq<Step>)
    ensures Run(cfg, w, a + b) == Run(cfg, Run(cfg, w, a), b)
    decreases |a|
  {
    if a == [] {
      assert a + b == b;
    } else {
      assert (a + b)[1..] == a[1..] + b;
      RunConcat(cfg, Next(cfg, w, a[0]), a[1..], b);
    }
  }

  lemma RunTwo(cfg: Config, w: World, first: Step, second: Step)
    ensures Run(cfg, w, [first, second]) == Next(cfg, Next(cfg, w, first), second)
  {
    var v := Next(cfg, w, first);
    assert [first, second][1..] == [second];
    assert Run(cfg, v, [second]) == Run(cfg, Next(cfg, v, second), []) by {
      assert [second][1..] == [];
    }
  }

  lemma {:induction false} HoldMore(cfg: Config, w: World, n: nat) returns (steps: seq<Step>)
    requires cfg.cap == 0 || Open(w) + n <= cfg.cap
    ensures var v := Run(cfg, w, steps);
            |v.held| == |w.held| + n && Open(v) == Open(w) + n && v.shelf == w.shelf && v.health == w.health
    ensures NoBreaks(steps)
    decreases n
  {
    if n == 0 {
      steps := [];
    } else {
      var rest := HoldMore(cfg, Next(cfg, w, OpenCold), n - 1);
      steps := [OpenCold] + rest;
      assert steps[1..] == rest;
    }
  }

  lemma {:induction false} AllUnhealthy(cfg: Config, w: Warmed, turns: seq<Warmth>, open: int)
    requires Room(cfg, open) && forall i :: 0 <= i < |turns| ==> turns[i] == Unhealthy
    ensures Permitted(cfg, open, turns) && WarmUpAll(w, turns).shelf == w.shelf
    ensures WarmUpAll(w, turns).next - |WarmUpAll(w, turns).closed| == w.next - |w.closed|
    decreases |turns|
  {
    if turns != [] {
      AllUnhealthy(cfg, WarmUpTurn(w, false), turns[1..], open);
    }
  }

  /** A warm-up in which no connection answers still launches the loops, and the first pass sets out to refill. */
  lemma BeginRefill(cfg: Config) returns (steps: seq<Step>)
    requires cfg.goal > 0
    ensures var v := Run(cfg, Fresh(), steps);
            && Open(v) == 0 && v.held == multiset{} && v.shelf.warm == [] && v.dead == multiset{}
            && v.health == Refilling(cfg.goal, false, 0)
    ensures NoBreaks(steps)
  {
    var turns := seq(cfg.goal, i => Unhealthy);
    var w1 := Next(cfg, Fresh(), Start);
    AllUnhealthy(cfg, Warmed(w1.shelf, [], w1.next), turns, 0);
    assert Refused !in turns;
    var w2 := Next(cfg, w1, WarmUpOnce(turns));
    assert Open(w2) == 0 && w2.startup.Looping? && w2.shelf == w1.shelf;
    steps := [Start, WarmUpOnce(turns)] + [CountWarm];
    RunConcat(cfg, Fresh(), [Start, WarmUpOnce(turns)], [CountWarm]);
    RunTwo(cfg, Fresh(), Start, WarmUpOnce(turns));
    assert [CountWarm][1..] == [];
  }

  lemma PutOneAway(cfg: Config, w: World, c: Conn)
    requires c in w.held && |w.shelf.warm| < cfg.goal
    ensures var v := Next(cfg, Next(cfg, w, GiveBack(c)), PutAway(c));
            && |v.held| == |w.held| - 1 && |v.shelf.warm| == |w.shelf.warm| + 1
            && v.health == w.health && Open(v) == Open(w)
  {
    assert c in Next(cfg, w, GiveBack(c)).returning;
  }

  lemma {:induction false} PutMoreAway(cfg: Config, w: World, n: nat) returns (steps: seq<Step>)
    requires |w.held| >= n && |w.shelf.warm| + n <= cfg.goal
    ensures var v := Run(cfg, w, steps);
            |v.shelf.warm| == |w.shelf.warm| + n && v.health == w.health && Open(v) == Open(w)
    ensures NoBreaks(steps)
    decreases n
  {
    if n == 0 {
      steps := [];
    } else {
      assert w.held != multiset{};
      var c :| c in w.held;
      PutOneAway(cfg, w, c);
      var w2 := Next(cfg, Next(cfg, w, GiveBack(c)), PutAway(c));
      var rest := PutMoreAway(cfg, w2, n - 1);
      steps := [GiveBack(c), PutAway(c)] + rest;
      RunTwo(cfg, w, GiveBack(c), PutAway(c));
      RunConcat(cfg, w, [GiveBack(c), PutAway(c)], rest);
    }
  }

  lemma {:induction false} Refill(cfg: Config, w: World, n: nat) returns (steps: seq<Step>)
    requires n > 0 ==> w.health.Refilling? && !w.health.connected && n <= w.health.left
    requires cfg.cap == 0 || Open(w) + n <= cfg.cap
    ensures |Run(cfg, w, steps).shelf.warm| == |w.shelf.warm| + n && NoBreaks(steps)
    decreases n
  {
    steps := [];
    if n > 0 {
      var w2 := Next(cfg, Next(cfg, w, OpenForRefill(true)), AddRefill);
      assert Open(w2) == Open(w) + 1 && |w2.shelf.warm| == |w.shelf.warm| + 1;
      var rest := Refill(cfg, w2, n - 1);
      steps := [OpenForRefill(true), AddRefill] + rest;
      RunTwo(cfg, w, OpenForRefill(true), AddRefill);
      RunConcat(cfg, w, [OpenForRefill(true), AddRefill], rest);
    }
  }

  /** More than WarmConnections: clients fill the shelf while the health loop, having counted it empty, still refills
      it. */
  lemma Overfill(cfg: Config, more: nat) returns (steps: seq<Step>)
    requires more <= cfg.goal && (cfg.cap == 0 || cfg.goal + more <= cfg.cap) && cfg.goal > 0
    ensures |Run(cfg, Fresh(), steps).shelf.warm| == cfg.goal + more && NoBreaks(steps)
  {
    var a := BeginRefill(cfg);
    var w1 := Run(cfg, Fresh(), a);
    var b := HoldMore(cfg, w1, cfg.goal);
    var w2 := Run(cfg, w1, b);
    var c := PutMoreAway(cfg, w2, cfg.goal);
    var w3 := Run(cfg, w2, c);
    var d := Refill(cfg, w3, more);
    steps := a + (b + (c + d));
    RunConcat(cfg, Fresh(), a, b + (c + d));
    RunConcat(cfg, w1, b, c + d);
    RunConcat(cfg, w2, c, d);
  }

  lemma {:induction false} OpensThenRefuses(cfg: Config, w: Warmed, turns: seq<Warmth>, n: nat, open: int)
    requires n <= |turns| && (cfg.cap == 0 || open + n <= cfg.cap)
    requires forall i :: 0 <= i < |turns| ==> turns[i] == if i < n then Opened else Refused
    ensures Permitted(cfg, open, turns) && |WarmUpAll(w, turns).shelf.warm| == |w.shelf.warm| + n
    decreases n
  {
    if n > 0 {
      OpensThenRefuses(cfg, WarmUpTurn(w, true), turns[1..], n - 1, open + 1);
    }
  }

  /** At most WarmConnections: the warm-up itself gets that far. */
  lemma WarmUpTo(cfg: Config, n: nat) returns (steps: seq<Step>)
    requires n <= cfg.goal && (cfg.cap == 0 || n <= cfg.cap)
    ensures |Run(cfg, Fresh(), steps).shelf.warm| == n && NoBreaks(steps)
  {
    var turns := seq(cfg.goal, i => if i < n then Opened else Refused);
    var w1 := Next(cfg, Fresh(), Start);
    OpensThenRefuses(cfg, Warmed(w1.shelf, [], w1.next), turns, n, 0);
    steps := [Start, WarmUpOnce(turns)];
    RunTwo(cfg, Fresh(), Start, WarmUpOnce(turns));
  }

  /** The bound without breaks is reached whatever the configuration. */
  lemma BoundIsTight(cfg: Config) returns (steps: seq<Step>)
    ensures |Run(cfg, Fresh(), steps).shelf.warm| == MostWarm(cfg) && NoBreaks(steps)
  {
    if MostWarm(cfg) <= cfg.goal {
      steps := WarmUpTo(cfg, MostWarm(cfg));
    } else {
      steps := Overfill(cfg, MostWarm(cfg) - cfg.goal);
    }
  }

  lemma RunFour(cfg: Config, w: World, a: Step, b: Step, c: Step, d: Step)
    ensures Run(cfg, w, [a, b] + [c, d]) == Next(cfg, Next(cfg, Next(cfg, Next(cfg, w, a), b), c), d)
  {
    RunTwo(cfg, w, a, b);
    RunTwo(cfg, Next(cfg, Next(cfg, w, a), b), c, d);
    RunConcat(cfg, w, [a, b], [c, d]);
  }

  /** A connection is opened for a client, breaks, and is put away; the limit does not feel it. */
  lemma OneBreak(cfg: Config, w: World)
    requires Room(cfg, Open(w)) && Conserved(w) && |w.shelf.warm| < cfg.goal && w.next !in w.dead
    ensures var v := Run(cfg, w, [OpenCold, Break(w.next)] + [GiveBack(w.next), PutAway(w.next)]);
            && |v.shelf.warm| == |w.shelf.warm| + 1 && v.health == w.health && Open(v) == Open(w)
            && v.next == w.next + 1 && v.dead == w.dead + multiset{w.next}
  {
    RunFour(cfg, w, OpenCold, Break(w.next), GiveBack(w.next), PutAway(w.next));
    var w2 := Next(cfg, Next(cfg, w, OpenCold), Break(w.next));
    assert w2.dead == w.dead + multiset{w.next} && Open(w2) == Open(w);
    var w3 := Next(cfg, w2, GiveBack(w.next));
    assert w.next in w3.returning;
  }

  lemma {:induction false} BreakMore(cfg: Config, w: World, n: nat) returns (steps: seq<Step>)
    requires Room(cfg, Open(w)) && Conserved(w) && |w.shelf.warm| + n <= cfg.goal
    requires forall c: Conn :: c in w.dead ==> c < w.next
    ensures var v := Run(cfg, w, steps);
            |v.shelf.warm| == |w.shelf.warm| + n && v.health == w.health && Open(v) == Open(w)
    decreases n
  {
    steps := [];
    if n > 0 {
      OneBreak(cfg, w);
      var first := [OpenCold, Break(w.next)] + [GiveBack(w.next), PutAway(w.next)];
      var v := Run(cfg, w, first);
      RunConserves(cfg, w, first);
      var rest := BreakMore(cfg, v, n - 1);
      steps := first + rest;
      RunConcat(cfg, w, first, rest);
    }
  }

  lemma {:induction false} RunConserves(cfg: Config, w: World, steps: seq<Step>)
    requires Conserved(w)
    ensures Conserved(Run(cfg, w, steps))
    decreases |steps|
  {
    if steps != [] {
      StepConserves(cfg, w, steps[0]);
      RunConserves(cfg, Next(cfg, w, steps[0]), steps[1..]);
    }
  }

  /** With breaks the other bound is reached: dead connections fill the shelf up to WarmConnections without using up
      the limit, and the refill adds as many more as the limit lets it. With one warm connection configured and one
      allowed to be open, two are warm. */
  lemma BoundWithBreaksIsTight(cfg: Config) returns (steps: seq<Step>)
    ensures |Run(cfg, Fresh(), steps).shelf.warm| == MostWarmWithBreaks(cfg)
    ensures cfg == Config(1, 1) ==> |Run(cfg, Fresh(), steps).shelf.warm| == 2 && MostWarm(cfg) == 1
  {
    steps := [];
    if cfg.goal > 0 {
      var a := BeginRefill(cfg);
      var w1 := Run(cfg, Fresh(), a);
      RunConserves(cfg, Fresh(), a);
      var b := BreakMore(cfg, w1, cfg.goal);
      var w2 := Run(cfg, w1, b);
      var c := Refill(cfg, w2, MostWarmWithBreaks(cfg) - cfg.goal);
      steps := a + (b + c);
      RunConcat(cfg, Fresh(), a, b + c);
      RunConcat(cfg, w1, b, c);
    }
  }
}
