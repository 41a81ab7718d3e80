/** The warm-connection pool: clients, the health loop and the scale-down monitor, interleaved at their locks. */
module WarmPool {

  type Conn = nat

  // ---------------------------------------------------------------- What happens under the lock

  /** One turn of the warm-up loop: the connection opens and answers, opens but does not answer, or fails to open. */
  datatype Warmth = Opened | Unhealthy | Refused

  datatype Shelf = Shelf(warm: seq<Conn>, stat: int)

  /** What a warm-up leaves: the shelf, the connections it closed, and the next number to give out. */
  datatype Warmed = Warmed(shelf: Shelf, closed: seq<Conn>, next: Conn)

  /** The turns of warmUp from a state on; the first refusal ends the loop. */
  function WarmUpAll(w: Warmed, turns: seq<Warmth>): Warmed
    decreases |turns|
  {
    if turns == [] || turns[0].Refused? then w
    else WarmUpAll(WarmUpTurn(w, turns[0].Opened?), turns[1..])
  }

  function WarmUpTurn(w: Warmed, answers: bool): Warmed {
    if answers then Warmed(Added(w.shelf, w.next), w.closed, w.next + 1)
    else Warmed(w.shelf, w.closed + [w.next], w.next + 1)
  }

  function Healthy(warm: seq<Conn>, answers: Conn -> bool): seq<Conn> {
    if warm == [] then []
    else Healthy(warm[..|warm| - 1], answers) + if answers(warm[|warm| - 1]) then [warm[|warm| - 1]] else []
  }

  function Unanswering(warm: seq<Conn>, answers: Conn -> bool): seq<Conn> {
    if warm == [] then []
    else Unanswering(warm[..|warm| - 1], answers) + if answers(warm[|warm| - 1]) then [] else [warm[|warm| - 1]]
  }

  lemma {:induction false} HealthySizes(warm: seq<Conn>, answers: Conn -> bool)
    ensures |Healthy(warm, answers)| + |Unanswering(warm, answers)| == |warm|
    decreases |warm|
  {
    if warm != [] {
      HealthySizes(warm[..|warm| - 1], answers);
    }
  }

  /** The connections kept are those that answer, and the ones closed are those that do not. */
  lemma {:induction false} HealthyAnswer(warm: seq<Conn>, answers: Conn -> bool, c: Conn)
    ensures c in Healthy(warm, answers) <==> c in warm && answers(c)
    ensures c in Unanswering(warm, answers) <==> c in warm && !answers(c)
    decreases |warm|
  {
    if warm != [] {
      var front: seq<Conn> := warm[..|warm| - 1];
      HealthyAnswer(front, answers, c);
      assert warm == front + [warm[|warm| - 1]];
    }
  }

  lemma CountLast(s: seq<Conn>, last: Conn, c: Conn)
    ensures multiset(s + [last])[c] == multiset(s)[c] + if c == last then 1 else 0
  {
  }

  /** Each connection is kept as often as it was there, or closed as often. */
  lemma {:induction false} HealthyCount(warm: seq<Conn>, answers: Conn -> bool, c: Conn)
    ensures multiset(Healthy(warm, answers))[c] == if answers(c) then multiset(warm)[c] else 0
    decreases |warm|
  {
    if warm != [] {
      HealthyCount(warm[..|warm| - 1], answers, c);
      assert warm == warm[..|warm| - 1] + [warm[|warm| - 1]];
    }
  }

  lemma {:induction false} UnansweringCount(warm: seq<Conn>, answers: Conn -> bool, c: Conn)
    ensures multiset(Unanswering(warm, answers))[c] == if answers(c) then 0 else multiset(warm)[c]
    decreases |warm|
  {
    if warm != [] {
      UnansweringCount(warm[..|warm| - 1], answers, c);
      assert warm == warm[..|warm| - 1] + [warm[|warm| - 1]];
    }
  }

  lemma HealthyOrNot(warm: seq<Conn>, answers: Conn -> bool, c: Conn)
    ensures multiset(Healthy(warm, answers))[c] + multiset(Unanswering(warm, answers))[c] == multiset(warm)[c]
  {
    HealthyCount(warm, answers, c);
    UnansweringCount(warm, answers, c);
  }

  function Added(s: Shelf, c: Conn): Shelf {
    Shelf(s.warm + [c], s.stat + 1)
  }

  function Popped(s: Shelf): Shelf
    requires s.warm != []
  {
    Shelf(s.warm[..|s.warm| - 1], s.stat - 1)
  }

  function Answering(s: Shelf, answers: Conn -> bool): Shelf {
    Shelf(Healthy(s.warm, answers), s.stat - |Unanswering(s.warm, answers)|)
  }

  /** Stop leaves the statistic alone. */
  function Emptied(s: Shelf): Shelf {
    Shelf([], s.stat)
  }

  function Trimmed(s: Shelf, limit: nat): Shelf {
    if |s.warm| > limit then Shelf(s.warm[..limit], s.stat - (|s.warm| - limit)) else s
  }

  lemma LastApart(warm: seq<Conn>, closed: seq<Conn>, conn: Conn)
    requires warm != [] && conn == warm[|warm| - 1]
    ensures multiset(warm[..|warm| - 1]) + multiset(closed + [conn]) == multiset(warm) + multiset(closed)
  {
    assert warm == warm[..|warm| - 1] + [conn];
  }

  class ServerlessPool {
    const warmConnections: nat
    var warmConns: seq<Conn>
    var warmStat: int
    var running: bool

    constructor (warmConnections: nat)
      ensures this.warmConnections == warmConnections && OnShelf() == Shelf([], 0) && !running
    {
      this.warmConnections, warmConns, warmStat, running := warmConnections, [], 0, false;
    }

    function OnShelf(): Shelf
      reads this
    {
      Shelf(warmConns, warmStat)
    }

    /** Whether the pool runs its loops from now on; a refused warm-up leaves it running without them. */
    method Start(start: Conn, turns: seq<Warmth>) returns (closed: seq<Conn>, next: Conn, looping: bool)
      requires |turns| == warmConnections
      modifies this
      ensures running && (looping <==> !old(running) && Refused !in turns)
      ensures Warmed(OnShelf(), closed, next)
           == if old(running) then Warmed(old(OnShelf()), [], start)
              else WarmUpAll(Warmed(old(OnShelf()), [], start), turns)
    {
      if running {
        return [], start, false;
      }
      running := true;
      var ok: bool;
      closed, next, ok := WarmUp(start, turns);
      return closed, next, ok;
    }

    method Stop() returns (closed: seq<Conn>)
      modifies this
      ensures !running
      ensures if old(running) then OnShelf() == Emptied(old(OnShelf())) && closed == old(warmConns)
              else OnShelf() == old(OnShelf()) && closed == []
    {
      closed := [];
      if running {
        running := false;
        closed := warmConns;
        warmConns := [];
      }
    }

    method WarmUp(start: Conn, turns: seq<Warmth>) returns (closed: seq<Conn>, next: Conn, ok: bool)
      requires |turns| == warmConnections
      modifies this
      ensures Warmed(OnShelf(), closed, next) == WarmUpAll(Warmed(old(OnShelf()), [], start), turns)
      ensures running == old(running) && (ok <==> Refused !in turns)
    {
      closed, next, ok := [], start, true;
      for i := 0 to warmConnections
        invariant running == old(running) && ok && forall j :: 0 <= j < i ==> turns[j] != Refused
        invariant WarmUpAll(Warmed(OnShelf(), closed, next), turns[i..])
               == WarmUpAll(Warmed(old(OnShelf()), [], start), turns)
      {
        assert turns[i..][1..] == turns[i + 1..];
        if turns[i].Refused? {
          ok := false;
          return;
        }
        if turns[i].Unhealthy? {
          closed := closed + [next];
        } else {
          warmConns := warmConns + [next];
          warmStat := warmStat + 1;
        }
        next := next + 1;
      }
    }

    /** The first half of checkHealth. */
    method DropUnhealthy(answers: Conn -> bool) returns (closed: seq<Conn>)
      modifies this
      ensures OnShelf() == Answering(old(OnShelf()), answers) && closed == Unanswering(old(warmConns), answers)
      ensures running == old(running)
    {
      var healthyConns: seq<Conn> := [];
      closed := [];
      for i := 0 to |warmConns|
        invariant warmConns == old(warmConns) && warmStat == old(warmStat) - |closed| && running == old(running)
        invariant healthyConns == Healthy(warmConns[..i], answers) && closed == Unanswering(warmConns[..i], answers)
      {
        assert warmConns[..i + 1][..i] == warmConns[..i];
        if answers(warmConns[i]) {
          healthyConns := healthyConns + [warmConns[i]];
        } else {
          closed := closed + [warmConns[i]];
          warmStat := warmStat - 1;
        }
      }
      assert warmConns[..|warmConns|] == warmConns;
      warmConns := healthyConns;
    }

    method ScaleDown() returns (closed: seq<Conn>)
      modifies this
      ensures OnShelf() == Trimmed(old(OnShelf()), warmConnections)
      ensures multiset(warmConns) + multiset(closed) == multiset(old(warmConns)) && running == old(running)
    {
      closed := [];
      while |warmConns| > warmConnections
        invariant running == old(running)
        invariant |warmConns| <= |old(warmConns)| && warmConns == old(warmConns)[..|warmConns|]
        invariant |warmConns| == |old(warmConns)| || |warmConns| >= warmConnections
        invariant warmStat == old(warmStat) - (|old(warmConns)| - |warmConns|)
        invariant multiset(warmConns) + multiset(closed) == multiset(old(warmConns))
      {
        var conn := warmConns[|warmConns| - 1];
        LastApart(warmConns, closed, conn);
        assert warmConns[..|warmConns| - 1] == old(warmConns)[..|warmConns| - 1];
        warmConns := warmConns[..|warmConns| - 1];
        closed := closed + [conn];
        warmStat := warmStat - 1;
      }
    }

    /** The locked part of one turn of the refill loop in checkHealth, after its connection opened. */
    method AddRefill(conn: Conn)
      modifies this
      ensures OnShelf() == Added(old(OnShelf()), conn) && running == old(running)
    {
      warmConns := warmConns + [conn];
      warmStat := warmStat + 1;
    }

    /** The locked part of Conn: the connection warmed last, if any. */
    method PopWarm() returns (found: bool, conn: Conn)
      modifies this
      ensures (found <==> old(warmConns) != []) && running == old(running)
      ensures if found then conn == old(warmConns)[|old(warmConns)| - 1] && OnShelf() == Popped(old(OnShelf()))
              else OnShelf() == old(OnShelf())
    {
      found, conn := false, 0;
      if |warmConns| > 0 {
        found, conn := true, warmConns[|warmConns| - 1];
        warmConns := warmConns[..|warmConns| - 1];
        warmStat := warmStat - 1;
      }
    }

    /** The locked part of ReleaseConn. */
    method KeepWarm(conn: Conn) returns (kept: bool)
      modifies this
      ensures (kept <==> |old(warmConns)| < warmConnections) && running == old(running)
      ensures OnShelf() == if kept then Added(old(OnShelf()), conn) else old(OnShelf())
    {
      kept := |warmConns| < warmConnections;
      if kept {
        warmConns := warmConns + [conn];
        warmStat := warmStat + 1;
      }
    }
  }

  // ---------------------------------------------------------------- The interleaving

  /** The configured WarmConnections, and MaxOpenConns with 0 for no limit. */
  datatype Config = Config(goal: nat, cap: nat)

  /** Start sets the running flag, warms up, and launches the two loops only if no connection was refused. */
  datatype Startup = NotStarted | WarmingUp | Looping | Failed

  /** Where the health loop stands: between passes, or refilling with `left` turns to go, the connection of the
      current turn already open or not. */
  datatype Health = Waiting | Refilling(left: nat, connected: bool, conn: Conn)

  /** Connections are multisets wherever the code would not notice a repetition. `orphans` is what Stop left in
      the statistic. */
  datatype World = World(
    shelf: Shelf,
    probing: multiset<Conn>,    // taken off the shelf by Conn, not yet pinged
    held: multiset<Conn>,       // handed out
    returning: multiset<Conn>,  // given back, not yet under the lock
    closed: multiset<Conn>,
    dead: multiset<Conn>,       // broken in a client's hands, and not yet closed by the pool
    health: Health,
    active: int,
    next: Conn,
    running: bool,
    startup: Startup,
    orphans: int)

  datatype Step =
    | Start
    | WarmUpOnce(turns: seq<Warmth>)
    | Take
    | ProbeAnswers(conn: Conn)
    | ProbeFails(conn: Conn)
    | OpenCold
    | Break(conn: Conn)
    | GiveBack(conn: Conn)
    | PutAway(conn: Conn)
    | DropSick(answers: Conn -> bool)
    | CountWarm
    | OpenForRefill(ok: bool)
    | AddRefill
    | Shrink
    | Stop

  function Fresh(): World {
    World(Shelf([], 0), multiset{}, multiset{}, multiset{}, multiset{}, multiset{}, Waiting, 0, 0, false, NotStarted, 0)
  }

  /** How many connections the pool has opened and not closed. */
  function Unclosed(w: World): int {
    w.next - |w.closed|
  }

  /** How many connections count against MaxOpenConns: one that breaks while a client uses it, or that its client
      closes, gives up its place at once, although the pool still has it. */
  function Open(w: World): int {
    Unclosed(w) - |w.dead|
  }

  /** Whether another connection may be opened; at the limit an attempt waits until it fails. */
  predicate Room(cfg: Config, open: int) {
    cfg.cap == 0 || open < cfg.cap
  }

  /** The turns of a warm-up that the limit allows, with `open` connections open so far: at the limit only a refusal. */
  predicate Permitted(cfg: Config, open: int, turns: seq<Warmth>)
    decreases |turns|
  {
    turns == [] || turns[0].Refused?
    || (Room(cfg, open) && Permitted(cfg, open + if turns[0].Opened? then 1 else 0, turns[1..]))
  }

  /** One critical section, one ping, or one connection attempt. A client gives back only what it holds; a step that
      is not possible leaves the world alone. */
  function Next(cfg: Config, w: World, step: Step): World {
    match step
    case Start =>
      if w.running || !w.startup.NotStarted? then w else w.(running := true, startup := WarmingUp)
    case WarmUpOnce(turns) =>
      if !w.startup.WarmingUp? || |turns| != cfg.goal || !Permitted(cfg, Open(w), turns) then w
      else
        var r := WarmUpAll(Warmed(w.shelf, [], w.next), turns);
        w.(shelf := r.shelf, closed := w.closed + multiset(r.closed), next := r.next,
           startup := if Refused in turns then Failed else Looping)
    case Take =>
      if w.shelf.warm == [] then w
      else
        var last := |w.shelf.warm| - 1;
        w.(shelf := Popped(w.shelf), probing := w.probing + multiset{w.shelf.warm[last]})
    case ProbeAnswers(c) =>
      if c !in w.probing || c in w.dead then w
      else w.(probing := w.probing - multiset{c}, held := w.held + multiset{c}, active := w.active + 1)
    case ProbeFails(c) =>
      if c !in w.probing then w
      else Closing(w.(probing := w.probing - multiset{c}), multiset{c})
    case OpenCold =>
      if !Room(cfg, Open(w)) then w
      else w.(held := w.held + multiset{w.next}, next := w.next + 1, active := w.active + 1)
    case Break(c) =>
      if c !in w.held || c in w.dead then w else w.(dead := w.dead + multiset{c})
    case GiveBack(c) =>
      if c !in w.held then w
      else w.(held := w.held - multiset{c}, returning := w.returning + multiset{c}, active := w.active - 1)
    case PutAway(c) =>
      if c !in w.returning then w
      else if |w.shelf.warm| < cfg.goal then
        w.(shelf := Added(w.shelf, c), returning := w.returning - multiset{c})
      else Closing(w.(returning := w.returning - multiset{c}), multiset{c})
    case DropSick(answers) =>
      if !w.startup.Looping? || !w.health.Waiting? || Revives(w, answers) then w
      else Closing(w.(shelf := Answering(w.shelf, answers)), multiset(Unanswering(w.shelf.warm, answers)))
    case CountWarm =>
      if !w.startup.Looping? || !w.health.Waiting? || |w.shelf.warm| >= cfg.goal then w
      else w.(health := Refilling(cfg.goal - |w.shelf.warm|, false, 0))
    case OpenForRefill(ok) =>
      if !w.health.Refilling? || w.health.connected then w
      else if ok && Room(cfg, Open(w)) then w.(health := Refilling(w.health.left, true, w.next), next := w.next + 1)
      else w.(health := TurnDone(w.health))
    case AddRefill =>
      if !w.health.Refilling? || !w.health.connected then w
      else w.(shelf := Added(w.shelf, w.health.conn), health := TurnDone(w.health))
    case Shrink =>
      if !w.startup.Looping? || |w.shelf.warm| <= cfg.goal then w
      else Closing(w.(shelf := Trimmed(w.shelf, cfg.goal)), multiset(w.shelf.warm[cfg.goal..]))
    case Stop =>
      if !w.running then w
      else
        Closing(w.(shelf := Emptied(w.shelf), running := false, orphans := w.orphans + |w.shelf.warm|),
                multiset(w.shelf.warm))
  }

  function Closing(w: World, gone: multiset<Conn>): World {
    w.(closed := w.closed + gone, dead := w.dead - gone)
  }

  /** A dead connection never answers. */
  predicate Revives(w: World, answers: Conn -> bool) {
    exists i :: 0 <= i < |w.shelf.warm| && w.shelf.warm[i] in w.dead && answers(w.shelf.warm[i])
  }

  function TurnDone(h: Health): Health
    requires h.Refilling?
  {
    if h.left <= 1 then Waiting else Refilling(h.left - 1, false, 0)
  }

  /** What becomes of a connection that Conn takes off the list: the client gets it if it answers, and otherwise it is
      closed. */
  lemma ProbeEnds(cfg: Config, w: World, c: Conn)
    requires c in w.probing
    ensures Next(cfg, w, ProbeFails(c)).closed[c] == w.closed[c] + 1
    ensures c !in w.dead ==> Next(cfg, w, ProbeAnswers(c)).held[c] == w.held[c] + 1
  {
  }

  /** And of one that is given back: it is the last of the list if there is room, and otherwise closed. */
  lemma ReturnEnds(cfg: Config, w: World, c: Conn)
    requires c in w.returning
    ensures var v := Next(cfg, w, PutAway(c));
            if |w.shelf.warm| < cfg.goal then v.shelf.warm == w.shelf.warm + [c] && v.closed == w.closed
            else v.shelf == w.shelf && v.closed[c] == w.closed[c] + 1
  {
  }

  /** A pass of the health loop sets out to make as many attempts as connections were missing when it counted. */
  lemma CountsMissing(cfg: Config, w: World)
    requires w.startup.Looping? && w.health.Waiting?
    ensures var missing := cfg.goal - |w.shelf.warm|;
            Left(Next(cfg, w, CountWarm).health) == if missing > 0 then missing else 0
  {
  }

  /** And each turn, whether its attempt fails or adds a connection, uses up one of them. */
  lemma RefillTurns(cfg: Config, w: World, ok: bool)
    requires w.health.Refilling? && !w.health.connected && w.health.left > 0
    ensures var v := Next(cfg, w, OpenForRefill(ok));
            if ok && (cfg.cap == 0 || Open(w) < cfg.cap) then
              var u := Next(cfg, v, AddRefill);
              Left(u.health) == Left(w.health) - 1 && u.shelf == Shelf(w.shelf.warm + [w.next], w.shelf.stat + 1)
            else Left(v.health) == Left(w.health) - 1 && v.shelf == w.shelf && v.next == w.next
  {
  }

  function Run(cfg: Config, w: World, steps: seq<Step>): World
    decreases |steps|
  {
    if steps == [] then w else Run(cfg, Next(cfg, w, steps[0]), steps[1..])
  }

  // ---------------------------------------------------------------- The invariant

  function Left(h: Health): nat {
    if h.Refilling? then h.left else 0
  }

  /** In how many places a connection is. */
  function Copies(w: World, c: Conn): nat {
    multiset(w.shelf.warm)[c] + w.probing[c] + w.held[c] + w.returning[c] + w.closed[c]
    + if w.health.Refilling? && w.health.connected && w.health.conn == c then 1 else 0
  }

  ghost predicate Conserved(w: World) {
    forall c: Conn :: Copies(w, c) == if c < w.next then 1 else 0
  }

  ghost predicate Bounded(cfg: Config, w: World) {
    && |w.shelf.warm| + Left(w.health) <= 2 * cfg.goal
    && Left(w.health) <= cfg.goal
    && (w.health.Refilling? ==> w.health.left > 0)
    && (w.startup.NotStarted? || w.startup.WarmingUp? ==> |w.shelf.warm| <= cfg.goal && w.health.Waiting?)
  }

  ghost predicate WarmCounted(w: World) {
    w.shelf.stat == |w.shelf.warm| + w.orphans
  }

  ghost predicate ActiveCounted(w: World) {
    w.active == |w.held|
  }

  /** The connections not closed are those warm, taken, held, on their way back or being added; those among them that
      are not dead stay within the limit. */
  ghost predicate Capped(cfg: Config, w: World) {
    && Unclosed(w) == |w.shelf.warm| + |w.probing| + |w.held| + |w.returning| + Adding(w.health)
    && (cfg.cap > 0 ==> Open(w) <= cfg.cap)
  }

  function Adding(h: Health): nat {
    if h.Refilling? && h.connected then 1 else 0
  }

  ghost predicate Inv(cfg: Config, w: World) {
    Conserved(w) && Bounded(cfg, w) && WarmCounted(w) && ActiveCounted(w) && Capped(cfg, w)
  }

  function New(before: Conn, after: Conn, c: Conn): nat {
    if before <= c < after then 1 else 0
  }

  lemma {:induction false} WarmUpPlaces(w: Warmed, turns: seq<Warmth>, c: Conn)
    ensures var r := WarmUpAll(w, turns);
            && r.next >= w.next
            && multiset(r.shelf.warm)[c] + multiset(r.closed)[c]
               == multiset(w.shelf.warm)[c] + multiset(w.closed)[c] + New(w.next, r.next, c)
    decreases |turns|
  {
    if turns != [] && !turns[0].Refused? {
      WarmUpPlaces(WarmUpTurn(w, turns[0].Opened?), turns[1..], c);
    }
  }

  lemma {:induction false} WarmUpCounts(w: Warmed, turns: seq<Warmth>)
    ensures var r := WarmUpAll(w, turns);
            |r.shelf.warm| <= |w.shelf.warm| + |turns| && r.shelf.stat - |r.shelf.warm| == w.shelf.stat - |w.shelf.warm|
    decreases |turns|
  {
    if turns != [] && !turns[0].Refused? {
      WarmUpCounts(WarmUpTurn(w, turns[0].Opened?), turns[1..]);
    }
  }

  /** A step only moves connections between places, or puts new ones somewhere. */
  ghost predicate Moves(cfg: Config, w: World, step: Step, c: Conn) {
    Copies(Next(cfg, w, step), c) == Copies(w, c) + New(w.next, Next(cfg, w, step).next, c)
  }

  lemma WarmUpMoves(cfg: Config, w: World, turns: seq<Warmth>, c: Conn)
    ensures Moves(cfg, w, WarmUpOnce(turns), c)
  {
    WarmUpPlaces(Warmed(w.shelf, [], w.next), turns, c);
  }

  lemma TakeMoves(cfg: Config, w: World, c: Conn)
    ensures Moves(cfg, w, Take, c)
  {
    var warm := w.shelf.warm;
    if warm != [] {
      assert warm == warm[..|warm| - 1] + [warm[|warm| - 1]];
    }
  }

  lemma CountTogether(a: multiset<Conn>, b: multiset<Conn>, c: Conn)
    ensures (a + b)[c] == a[c] + b[c]
  {
  }

  lemma DropSickMoves(cfg: Config, w: World, answers: Conn -> bool, c: Conn)
    ensures Moves(cfg, w, DropSick(answers), c)
  {
    if w.startup.Looping? && w.health.Waiting? && !Revives(w, answers) {
      var v := Next(cfg, w, DropSick(answers));
      var shut: seq<Conn> := Unanswering(w.shelf.warm, answers);
      HealthyOrNot(w.shelf.warm, answers, c);
      CountTogether(w.closed, multiset(shut), c);
      assert v.shelf.warm == Healthy(w.shelf.warm, answers) && v.closed == w.closed + multiset(shut);
    }
  }

  lemma ShrinkMoves(cfg: Config, w: World, c: Conn)
    ensures Moves(cfg, w, Shrink, c)
  {
    var warm := w.shelf.warm;
    if |warm| > cfg.goal {
      assert warm == warm[..cfg.goal] + warm[cfg.goal..];
    }
  }

  lemma MoveOne(from: multiset<Conn>, to: multiset<Conn>, moved: Conn, c: Conn)
    requires moved in from
    ensures (from - multiset{moved})[c] + (to + multiset{moved})[c] == from[c] + to[c]
  {
  }

  lemma ProbeAnswersMoves(cfg: Config, w: World, conn: Conn, c: Conn)
    ensures Moves(cfg, w, ProbeAnswers(conn), c)
  {
    if conn in w.probing {
      MoveOne(w.probing, w.held, conn, c);
    }
  }

  lemma ProbeFailsMoves(cfg: Config, w: World, conn: Conn, c: Conn)
    ensures Moves(cfg, w, ProbeFails(conn), c)
  {
    if conn in w.probing {
      MoveOne(w.probing, w.closed, conn, c);
    }
  }

  lemma GiveBackMoves(cfg: Config, w: World, conn: Conn, c: Conn)
    ensures Moves(cfg, w, GiveBack(conn), c)
  {
    if conn in w.held {
      MoveOne(w.held, w.returning, conn, c);
    }
  }

  lemma CountLess(from: multiset<Conn>, moved: Conn, c: Conn)
    requires moved in from
    ensures (from - multiset{moved})[c] + (if c == moved then 1 else 0) == from[c]
  {
  }

  lemma Shelved(w: World, conn: Conn, c: Conn)
    requires conn in w.returning
    ensures Copies(w.(shelf := Added(w.shelf, conn), returning := w.returning - multiset{conn}), c) == Copies(w, c)
  {
    CountLess(w.returning, conn, c);
    CountLast(w.shelf.warm, conn, c);
  }

  lemma TurnedAway(w: World, conn: Conn, c: Conn)
    requires conn in w.returning
    ensures Copies(Closing(w.(returning := w.returning - multiset{conn}), multiset{conn}), c) == Copies(w, c)
  {
    CountLess(w.returning, conn, c);
    CountTogether(w.closed, multiset{conn}, c);
  }

  lemma PutAwayMoves(cfg: Config, w: World, conn: Conn, c: Conn)
    ensures Moves(cfg, w, PutAway(conn), c)
  {
    if conn in w.returning {
      Shelved(w, conn, c);
      TurnedAway(w, conn, c);
    }
  }

  lemma RefillMoves(cfg: Config, w: World, step: Step, c: Conn)
    requires step.CountWarm? || step.OpenForRefill? || step.AddRefill?
    ensures Moves(cfg, w, step, c)
  {
  }

  lemma StepMoves(cfg: Config, w: World, step: Step, c: Conn)
    ensures Moves(cfg, w, step, c)
  {
    match step
    case Start =>
    case WarmUpOnce(turns) => WarmUpMoves(cfg, w, turns, c);
    case Take => TakeMoves(cfg, w, c);
    case ProbeAnswers(conn) => ProbeAnswersMoves(cfg, w, conn, c);
    case ProbeFails(conn) => ProbeFailsMoves(cfg, w, conn, c);
    case OpenCold =>
    case Break(_) =>
    case GiveBack(conn) => GiveBackMoves(cfg, w, conn, c);
    case PutAway(conn) => PutAwayMoves(cfg, w, conn, c);
    case DropSick(answers) => DropSickMoves(cfg, w, answers, c);
    case CountWarm => RefillMoves(cfg, w, step, c);
    case OpenForRefill(_) => RefillMoves(cfg, w, step, c);
    case AddRefill => RefillMoves(cfg, w, step, c);
    case Shrink => ShrinkMoves(cfg, w, c);
    case Stop =>
  }

  lemma StepOpensMore(cfg: Config, w: World, step: Step)
    ensures Next(cfg, w, step).next >= w.next
  {
    if step.WarmUpOnce? {
      WarmUpPlaces(Warmed(w.shelf, [], w.next), step.turns, 0);
    }
  }

  lemma StepConserves(cfg: Config, w: World, step: Step)
    requires Conserved(w)
    ensures Conserved(Next(cfg, w, step))
  {
    var v := Next(cfg, w, step);
    StepOpensMore(cfg, w, step);
    forall c: Conn
      ensures Copies(v, c) == if c < v.next then 1 else 0
    {
      StepMoves(cfg, w, step, c);
    }
  }

  lemma WarmUpStaysBounded(cfg: Config, w: World, turns: seq<Warmth>)
    requires Bounded(cfg, w)
    ensures Bounded(cfg, Next(cfg, w, WarmUpOnce(turns)))
  {
    WarmUpCounts(Warmed(w.shelf, [], w.next), turns);
  }

  lemma DropSickStaysBounded(cfg: Config, w: World, answers: Conn -> bool)
    requires Bounded(cfg, w)
    ensures Bounded(cfg, Next(cfg, w, DropSick(answers)))
  {
    HealthySizes(w.shelf.warm, answers);
  }

  lemma LoopStaysBounded(cfg: Config, w: World, step: Step)
    requires Bounded(cfg, w)
    requires step.Start? || step.CountWarm? || step.OpenForRefill? || step.AddRefill? || step.Shrink? || step.Stop?
    ensures Bounded(cfg, Next(cfg, w, step))
  {
  }

  lemma ClientStaysBounded(cfg: Config, w: World, step: Step)
    requires Bounded(cfg, w)
    requires step.Take? || step.ProbeAnswers? || step.ProbeFails? || step.OpenCold? || step.Break? || step.GiveBack?
             || step.PutAway?
    ensures Bounded(cfg, Next(cfg, w, step))
  {
  }

  lemma StepStaysBounded(cfg: Config, w: World, step: Step)
    requires Bounded(cfg, w)
    ensures Bounded(cfg, Next(cfg, w, step))
  {
    match step
    case WarmUpOnce(turns) => WarmUpStaysBounded(cfg, w, turns);
    case DropSick(answers) => DropSickStaysBounded(cfg, w, answers);
    case Take => ClientStaysBounded(cfg, w, step);
    case OpenCold => ClientStaysBounded(cfg, w, step);
    case Break(_) => ClientStaysBounded(cfg, w, step);
    case ProbeAnswers(_) => ClientStaysBounded(cfg, w, step);
    case ProbeFails(_) => ClientStaysBounded(cfg, w, step);
    case GiveBack(_) => ClientStaysBounded(cfg, w, step);
    case PutAway(_) => ClientStaysBounded(cfg, w, step);
    case _ => LoopStaysBounded(cfg, w, step);
  }

  lemma StepCountsWarm(cfg: Config, w: World, step: Step)
    requires WarmCounted(w)
    ensures WarmCounted(Next(cfg, w, step))
  {
    match step
    case WarmUpOnce(turns) => WarmUpCounts(Warmed(w.shelf, [], w.next), turns);
    case DropSick(answers) => HealthySizes(w.shelf.warm, answers);
    case _ =>
  }

  /** Only taking a connection and giving it back touch what is handed out. */
  lemma HeldElsewhere(cfg: Config, w: World, step: Step)
    requires !step.ProbeAnswers? && !step.OpenCold? && !step.GiveBack?
    ensures Next(cfg, w, step).held == w.held && Next(cfg, w, step).active == w.active
  {
  }

  lemma StepCountsActive(cfg: Config, w: World, step: Step)
    requires ActiveCounted(w)
    ensures ActiveCounted(Next(cfg, w, step))
  {
    match step
    case ProbeAnswers(c) => assert c in w.probing ==> |w.held + multiset{c}| == |w.held| + 1;
    case OpenCold => assert |w.held + multiset{w.next}| == |w.held| + 1;
    case GiveBack(c) => assert c in w.held ==> |w.held - multiset{c}| == |w.held| - 1;
    case _ => HeldElsewhere(cfg, w, step);
  }

  /** What a permitted warm-up adds to the shelf is what it adds to the open connections. */
  lemma {:induction false} WarmUpCapped(cfg: Config, w: Warmed, turns: seq<Warmth>, open: int)
    requires Permitted(cfg, open, turns) && (cfg.cap > 0 ==> open <= cfg.cap)
    ensures var r := WarmUpAll(w, turns);
            var more := |r.shelf.warm| - |w.shelf.warm|;
            && r.next - |r.closed| == w.next - |w.closed| + more
            && (cfg.cap > 0 ==> open + more <= cfg.cap)
    decreases |turns|
  {
    if turns != [] && !turns[0].Refused? {
      WarmUpCapped(cfg, WarmUpTurn(w, turns[0].Opened?), turns[1..], open + if turns[0].Opened? then 1 else 0);
    }
  }

  lemma WarmUpStaysCapped(cfg: Config, w: World, turns: seq<Warmth>)
    requires Capped(cfg, w)
    ensures Capped(cfg, Next(cfg, w, WarmUpOnce(turns)))
  {
    if Permitted(cfg, Open(w), turns) {
      WarmUpCapped(cfg, Warmed(w.shelf, [], w.next), turns, Open(w));
    }
  }

  lemma MovedSizes(from: multiset<Conn>, to: multiset<Conn>, moved: Conn)
    requires moved in from
    ensures |from - multiset{moved}| == |from| - 1 && |to + multiset{moved}| == |to| + 1
  {
  }

  /** Closing frees at most as many places as it closes connections, and none of the dead. */
  lemma ClosingFrees(w: World, gone: multiset<Conn>)
    ensures Unclosed(Closing(w, gone)) == Unclosed(w) - |gone| && Open(Closing(w, gone)) <= Open(w)
  {
    assert |w.closed + gone| == |w.closed| + |gone|;
    assert w.dead == (w.dead - gone) + (w.dead * gone);
    assert gone == (w.dead * gone) + (gone - w.dead);
  }

  lemma ProbeStaysCapped(cfg: Config, w: World, c: Conn)
    requires Capped(cfg, w)
    ensures Capped(cfg, Next(cfg, w, ProbeAnswers(c))) && Capped(cfg, Next(cfg, w, ProbeFails(c)))
  {
    if c in w.probing {
      MovedSizes(w.probing, w.held, c);
      ClosingFrees(w.(probing := w.probing - multiset{c}), multiset{c});
    }
  }

  lemma GiveBackStaysCapped(cfg: Config, w: World, c: Conn)
    requires Capped(cfg, w)
    ensures Capped(cfg, Next(cfg, w, GiveBack(c)))
  {
    if c in w.held {
      MovedSizes(w.held, w.returning, c);
    }
  }

  lemma PutAwayStaysCapped(cfg: Config, w: World, c: Conn)
    requires Capped(cfg, w)
    ensures Capped(cfg, Next(cfg, w, PutAway(c)))
  {
    if c in w.returning {
      MovedSizes(w.returning, w.closed, c);
      if |w.shelf.warm| >= cfg.goal {
        ClosingFrees(w.(returning := w.returning - multiset{c}), multiset{c});
      }
    }
  }

  lemma BreakStaysCapped(cfg: Config, w: World, c: Conn)
    requires Capped(cfg, w)
    ensures Capped(cfg, Next(cfg, w, Break(c)))
  {
    assert |w.dead + multiset{c}| == |w.dead| + 1;
  }

  lemma ObtainStaysCapped(cfg: Config, w: World)
    requires Capped(cfg, w)
    ensures Capped(cfg, Next(cfg, w, Take)) && Capped(cfg, Next(cfg, w, OpenCold))
  {
    assert |w.held + multiset{w.next}| == |w.held| + 1;
    if w.shelf.warm != [] {
      assert |w.probing + multiset{w.shelf.warm[|w.shelf.warm| - 1]}| == |w.probing| + 1;
    }
  }

  lemma LoopStaysCapped(cfg: Config, w: World, step: Step)
    requires Capped(cfg, w)
    requires step.Start? || step.CountWarm? || step.OpenForRefill? || step.AddRefill?
    ensures Capped(cfg, Next(cfg, w, step))
  {
  }

  lemma ClosersStayCapped(cfg: Config, w: World, step: Step)
    requires Capped(cfg, w) && (step.DropSick? || step.Shrink? || step.Stop?)
    ensures Capped(cfg, Next(cfg, w, step))
  {
    match step
    case DropSick(answers) =>
      HealthySizes(w.shelf.warm, answers);
      ClosingFrees(w.(shelf := Answering(w.shelf, answers)), multiset(Unanswering(w.shelf.warm, answers)));
    case Shrink =>
      if |w.shelf.warm| > cfg.goal {
        ClosingFrees(w.(shelf := Trimmed(w.shelf, cfg.goal)), multiset(w.shelf.warm[cfg.goal..]));
      }
    case Stop =>
      ClosingFrees(w.(shelf := Emptied(w.shelf), running := false, orphans := w.orphans + |w.shelf.warm|),
                   multiset(w.shelf.warm));
  }

  lemma StepStaysCapped(cfg: Config, w: World, step: Step)
    requires Capped(cfg, w)
    ensures Capped(cfg, Next(cfg, w, step))
  {
    match step
    case WarmUpOnce(turns) => WarmUpStaysCapped(cfg, w, turns);
    case Take => ObtainStaysCapped(cfg, w);
    case OpenCold => ObtainStaysCapped(cfg, w);
    case ProbeAnswers(c) => ProbeStaysCapped(cfg, w, c);
    case ProbeFails(c) => ProbeStaysCapped(cfg, w, c);
    case GiveBack(c) => GiveBackStaysCapped(cfg, w, c);
    case PutAway(c) => PutAwayStaysCapped(cfg, w, c);
    case Break(c) => BreakStaysCapped(cfg, w, c);
    case DropSick(_) => ClosersStayCapped(cfg, w, step);
    case Shrink => ClosersStayCapped(cfg, w, step);
    case Stop => ClosersStayCapped(cfg, w, step);
    case _ => LoopStaysCapped(cfg, w, step);
  }

  lemma {:induction false} RunKeeps(cfg: Config, w: World, steps: seq<Step>)
    requires Inv(cfg, w)
    ensures Inv(cfg, Run(cfg, w, steps))
    decreases |steps|
  {
    if steps != [] {
      StepConserves(cfg, w, steps[0]);
      StepStaysBounded(cfg, w, steps[0]);
      StepCountsWarm(cfg, w, steps[0]);
      StepCountsActive(cfg, w, steps[0]);
      StepStaysCapped(cfg, w, steps[0]);
      RunKeeps(cfg, Next(cfg, w, steps[0]), steps[1..]);
    }
  }

  /** In every schedule: each connection ever opened is in exactly one place, so none is both warm and handed out
      or handed out twice; the shelf holds at most twice the configured number; the connections that are not dead
      never exceed MaxOpenConns; the statistic exceeds the shelf by what Stop dropped, so until Stop they are equal;
      and the active count is the number handed out. */
  lemma PoolTheorem(cfg: Config, steps: seq<Step>)
    ensures var w := Run(cfg, Fresh(), steps);
            && (forall c: Conn :: Copies(w, c) == if c < w.next then 1 else 0)
            && |w.shelf.warm| <= 2 * cfg.goal
            && (cfg.cap > 0 ==> Open(w) <= cfg.cap)
            && w.shelf.stat == |w.shelf.warm| + w.orphans
            && w.active == |w.held|
  {
    RunKeeps(cfg, Fresh(), steps);
  }

  lemma {:induction false} NoStopNoOrphans(cfg: Config, w: World, steps: seq<Step>)
    requires forall i :: 0 <= i < |steps| ==> !steps[i].Stop?
    ensures Run(cfg, w, steps).orphans == w.orphans
    decreases |steps|
  {
    if steps != [] {
      assert !steps[0].Stop? && Next(cfg, w, steps[0]).orphans == w.orphans;
      NoStopNoOrphans(cfg, Next(cfg, w, steps[0]), steps[1..]);
    }
  }
}
